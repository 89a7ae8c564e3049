/**
 * Decimal digits and the small text helpers the app builds on: keeping only
 * the digits of a label, `int(...)` of a digit string, `str(n)` of an
 * integer, and `re.search(r"\d+", s)` as used by `_dong_num`/`_zone_num`.
 * Only the ASCII digits '0'..'9' count as digits.
 */
module Digits {
  import opened Options

  predicate IsDigit(c: char) { '0' <= c <= '9' }

  function DigitValue(c: char): (d: nat)
    requires IsDigit(c)
    ensures d < 10
  {
    (c as int) - ('0' as int)
  }

  function DigitChar(d: nat): (c: char)
    requires d < 10
    ensures IsDigit(c) && DigitValue(c) == d
  {
    (('0' as int) + d) as char
  }

  predicate AllDigits(s: string) { forall i :: 0 <= i < |s| ==> IsDigit(s[i]) }

  predicate HasDigit(s: string) { exists i :: 0 <= i < |s| && IsDigit(s[i]) }

  /** `"".join(ch for ch in s if ch.isdigit())` */
  function OnlyDigits(s: string): (r: string)
    ensures AllDigits(r) && |r| <= |s|
    ensures |r| == 0 <==> !HasDigit(s)
    ensures AllDigits(s) ==> r == s
  {
    if s == [] then []
    else (if IsDigit(s[0]) then [s[0]] else []) + OnlyDigits(s[1..])
  }

  /** The digits are kept piece by piece, so they keep their order. */
  lemma {:induction false} OnlyDigitsConcat(a: string, b: string)
    ensures OnlyDigits(a + b) == OnlyDigits(a) + OnlyDigits(b)
  {
    if a == [] {
      assert a + b == b;
    } else {
      var ab := a + b;
      assert ab[0] == a[0] && ab[1..] == a[1..] + b;
      OnlyDigitsConcat(a[1..], b);
      var h := if IsDigit(a[0]) then [a[0]] else [];
      assert OnlyDigits(ab) == h + OnlyDigits(a[1..] + b);
      assert OnlyDigits(a) == h + OnlyDigits(a[1..]);
    }
  }

  /** `int(s)` for a string of decimal digits (leading zeros allowed). */
  function Value(s: string): nat
    requires AllDigits(s)
  {
    if s == [] then 0 else 10 * Value(s[..|s| - 1]) + DigitValue(s[|s| - 1])
  }

  /** `str(n)` for a natural number: no sign, no leading zeros. */
  function NatToString(n: nat): (r: string)
    ensures AllDigits(r) && |r| >= 1
    ensures |r| > 1 ==> r[0] != '0'
  {
    if n < 10 then [DigitChar(n)] else NatToString(n / 10) + [DigitChar(n % 10)]
  }

  /** `str(i)` (and f"{i}") for an integer. */
  function IntToString(i: int): string
  {
    if i < 0 then "-" + NatToString(-i) else NatToString(i)
  }

  lemma ValueAppend(s: string, c: char)
    requires AllDigits(s) && IsDigit(c)
    ensures AllDigits(s + [c]) && Value(s + [c]) == 10 * Value(s) + DigitValue(c)
  {
    assert (s + [c])[..|s|] == s;
  }

  /** `int(str(n)) == n` */
  lemma {:induction false} ValueOfNatToString(n: nat)
    ensures Value(NatToString(n)) == n
  {
    if n >= 10 {
      ValueOfNatToString(n / 10);
      ValueAppend(NatToString(n / 10), DigitChar(n % 10));
    }
  }

  lemma NatToStringInjective(m: nat, n: nat)
    requires NatToString(m) == NatToString(n)
    ensures m == n
  {
    ValueOfNatToString(m);
    ValueOfNatToString(n);
  }

  lemma IntToStringSign(i: int)
    ensures |IntToString(i)| >= 1
    ensures IntToString(i)[0] == '-' <==> i < 0
  {
    if i >= 0 { assert IsDigit(IntToString(i)[0]); }
  }

  /** `str` is injective on integers: distinct floors print differently. */
  lemma IntToStringInjective(i: int, j: int)
    requires IntToString(i) == IntToString(j)
    ensures i == j
  {
    IntToStringSign(i);
    IntToStringSign(j);
    if i < 0 {
      assert IntToString(i)[1..] == NatToString(-i);
      assert IntToString(j)[1..] == NatToString(-j);
      NatToStringInjective(-i, -j);
    } else {
      NatToStringInjective(i, j);
    }
  }

  /** Writing a number as `f` followed by a two-digit line number. */
  lemma {:induction false} NatToStringHundreds(f: nat, l: nat)
    requires f >= 1 && l < 100
    ensures NatToString(100 * f + l) == NatToString(f) + [DigitChar(l / 10), DigitChar(l % 10)]
  {
    var n := 100 * f + l;
    assert n / 10 == 10 * f + l / 10 && n % 10 == l % 10;
    assert (10 * f + l / 10) / 10 == f && (10 * f + l / 10) % 10 == l / 10;
  }

  /** The maximal run of digits at the start of `s`. */
  function LeadingDigits(s: string): (r: string)
    ensures AllDigits(r) && |r| <= |s| && r == s[..|r|]
    ensures |r| < |s| ==> !IsDigit(s[|r|])
  {
    if s == [] || !IsDigit(s[0]) then [] else [s[0]] + LeadingDigits(s[1..])
  }

  /** `re.search(r"\d+", s)`: the value of the first run of digits, if any. */
  function FirstDigitRun(s: string): (r: Option<nat>)
    ensures r.Some? <==> HasDigit(s)
  {
    if s == [] then None
    else if IsDigit(s[0]) then Some(Value(LeadingDigits(s)))
    else
      assert HasDigit(s) <==> HasDigit(s[1..]) by {
        if HasDigit(s) { var i :| 0 <= i < |s| && IsDigit(s[i]); assert s[1..][i - 1] == s[i]; }
        if HasDigit(s[1..]) { var i :| 0 <= i < |s[1..]| && IsDigit(s[1..][i]); assert s[i + 1] == s[1..][i]; }
      }
      FirstDigitRun(s[1..])
  }

  /** Sentinel of `_dong_num` and `_zone_num` for a name without digits: 10**9. */
  const NoNumber: nat := 1_000_000_000

  /** `_dong_num(d)` / `_zone_num(z)`. */
  function NameNumber(s: string): (n: nat)
    ensures !HasDigit(s) ==> n == NoNumber
  {
    match FirstDigitRun(s)
    case Some(n) => n
    case None => NoNumber
  }

  /**
   * The number read from a name is the first maximal digit run: for
   * `s == p + d + q` with no digit in `p`, a non-empty digit run `d`, and
   * `q` not starting with a digit, `_dong_num(s) == int(d)`.
   */
  lemma {:induction false} NameNumberOfRun(p: string, d: string, q: string)
    requires !HasDigit(p) && AllDigits(d) && |d| >= 1
    requires q == [] || !IsDigit(q[0])
    ensures NameNumber(p + d + q) == Value(d)
  {
    if p == [] {
      assert p + d + q == d + q;
      LeadingDigitsOfRun(d, q);
    } else {
      assert !IsDigit(p[0]);
      assert (p + d + q)[1..] == p[1..] + d + q;
      forall i | 0 <= i < |p[1..]| ensures !IsDigit(p[1..][i]) {
        assert p[1..][i] == p[i + 1];
      }
      NameNumberOfRun(p[1..], d, q);
    }
  }

  lemma {:induction false} LeadingDigitsOfRun(d: string, q: string)
    requires AllDigits(d) && (q == [] || !IsDigit(q[0]))
    ensures LeadingDigits(d + q) == d
  {
    if d != [] {
      assert (d + q)[1..] == d[1..] + q;
      LeadingDigitsOfRun(d[1..], q);
      assert [d[0]] + d[1..] == d;
    } else {
      assert d + q == q;
    }
  }

  /** Appending a non-digit (such as the suffix "동") leaves `_dong_num` unchanged. */
  lemma {:induction false} NameNumberAppendNonDigit(s: string, c: char)
    requires !IsDigit(c)
    ensures FirstDigitRun(s + [c]) == FirstDigitRun(s)
  {
    if s == [] {
    } else if IsDigit(s[0]) {
      LeadingDigitsAppendNonDigit(s, c);
    } else {
      assert (s + [c])[1..] == s[1..] + [c];
      NameNumberAppendNonDigit(s[1..], c);
    }
  }

  lemma {:induction false} LeadingDigitsAppendNonDigit(s: string, c: char)
    requires !IsDigit(c)
    ensures LeadingDigits(s + [c]) == LeadingDigits(s)
  {
    if s == [] {
    } else if IsDigit(s[0]) {
      assert (s + [c])[1..] == s[1..] + [c];
      LeadingDigitsAppendNonDigit(s[1..], c);
    }
  }
}
