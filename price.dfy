/**
 * `clean_price` and the converted valuation (환산감정가).
 *
 * A raw cell is the text `astype(str)` gives it (a missing cell is "nan").
 * Cleaning removes the no-break space, ',', '`', '\'' and '억', strips
 * surrounding whitespace, then keeps only digits, '.' and '-'; the result is
 * read as a decimal number or is undefined (`errors="coerce"`). Numbers are
 * exact `real`s here: the floating-point error of the source is not modelled.
 */
module Price {
  import opened Options
  import opened Digits

  // ---------------------------------------------------------------------
  // Character filters

  /** `str.replace(c, "")` */
  function RemoveAll(s: string, c: char): string
  {
    if s == [] then []
    else (if s[0] == c then [] else [s[0]]) + RemoveAll(s[1..], c)
  }

  /** The replacement works piece by piece, so the other characters keep their order. */
  lemma {:induction false} RemoveAllConcat(a: string, b: string, c: char)
    ensures RemoveAll(a + b, c) == RemoveAll(a, c) + RemoveAll(b, c)
  {
    if a == [] {
      assert a + b == b;
    } else {
      var x, t := a[0], a[1..];
      assert a == [x] + t && a + b == [x] + (t + b);
      RemoveAllCons(x, t, c);
      RemoveAllCons(x, t + b, c);
      RemoveAllConcat(t, b, c);
    }
  }

  /**
   * The removed character no longer occurs, every other character of the
   * input is still there, nothing new appears, and a text without the
   * character is left as it is.
   */
  lemma {:induction false} RemoveAllMembers(s: string, c: char)
    ensures c !in RemoveAll(s, c)
    ensures forall ch :: ch in RemoveAll(s, c) <==> ch in s && ch != c
    ensures c !in s ==> RemoveAll(s, c) == s
  {
    if s != [] {
      RemoveAllMembers(s[1..], c);
      assert s == [s[0]] + s[1..];
    }
  }

  /** One step of the replacement. */
  lemma RemoveAllCons(x: char, t: string, c: char)
    ensures RemoveAll([x] + t, c) == (if x == c then [] else [x]) + RemoveAll(t, c)
  {
    assert ([x] + t)[1..] == t;
  }

  /** Exactly the occurrences of `c` go: every other character stays. */
  lemma {:induction false} RemoveAllLength(s: string, c: char)
    ensures |RemoveAll(s, c)| == |s| - multiset(s)[c]
  {
    if s != [] {
      assert s == [s[0]] + s[1..];
      RemoveAllLength(s[1..], c);
    }
  }

  /** The characters Python's `str.strip()` removes (`str.isspace`). */
  predicate IsSpace(c: char)
  {
    c == ' ' || ('\t' <= c <= '\r') || ('\U{1C}' <= c <= '\U{1F}') || c == '\U{85}' || c == '\U{A0}'
    || c == '\U{1680}' || ('\U{2000}' <= c <= '\U{200A}') || c == '\U{2028}' || c == '\U{2029}'
    || c == '\U{202F}' || c == '\U{205F}' || c == '\U{3000}'
  }

  function StripLeft(s: string): (r: string)
    ensures r == [] || !IsSpace(r[0])
  {
    if s != [] && IsSpace(s[0]) then StripLeft(s[1..]) else s
  }

  function StripRight(s: string): (r: string)
    ensures r == [] || !IsSpace(r[|r| - 1])
  {
    if s != [] && IsSpace(s[|s| - 1]) then StripRight(s[..|s| - 1]) else s
  }

  /**
   * The left strip removes exactly the leading whitespace: what remains is
   * a suffix of the input, everything before it is whitespace, and it does
   * not itself start with whitespace.
   */
  lemma {:induction false} StripLeftDropsLeading(s: string)
    ensures var r := StripLeft(s);
            && |r| <= |s| && r == s[|s| - |r|..]
            && (forall i :: 0 <= i < |s| - |r| ==> IsSpace(s[i]))
            && (r == [] || !IsSpace(r[0]))
  {
    if s != [] && IsSpace(s[0]) {
      StripLeftDropsLeading(s[1..]);
      var r := StripLeft(s[1..]);
      assert s[1..][|s| - 1 - |r|..] == s[|s| - |r|..];
      forall i | 0 < i < |s| - |r| ensures IsSpace(s[i]) { assert s[i] == s[1..][i - 1]; }
    } else {
      assert s[0..] == s;
    }
  }

  /**
   * The right strip removes exactly the trailing whitespace: what remains is
   * a prefix of the input, everything after it is whitespace, and it does
   * not itself end with whitespace.
   */
  lemma {:induction false} StripRightDropsTrailing(s: string)
    ensures var r := StripRight(s);
            && |r| <= |s| && r == s[..|r|]
            && (forall i :: |r| <= i < |s| ==> IsSpace(s[i]))
            && (r == [] || !IsSpace(r[|r| - 1]))
  {
    if s != [] && IsSpace(s[|s| - 1]) {
      var init := s[..|s| - 1];
      StripRightDropsTrailing(init);
      var r := StripRight(init);
      assert init[..|r|] == s[..|r|];
      forall i | |r| <= i < |s| ensures IsSpace(s[i]) { if i < |s| - 1 { assert s[i] == init[i]; } }
    } else {
      assert s[..|s|] == s;
    }
  }

  /** `str.strip()` */
  function Strip(s: string): string { StripRight(StripLeft(s)) }

  predicate IsNumericChar(c: char) { IsDigit(c) || c == '.' || c == '-' }

  /** `str.replace(r"[^0-9.\-]", "", regex=True)` */
  function KeepNumeric(s: string): (r: string)
    ensures forall i :: 0 <= i < |r| ==> IsNumericChar(r[i])
    ensures |r| <= |s|
    ensures (forall i :: 0 <= i < |s| ==> IsNumericChar(s[i])) ==> r == s
    ensures (forall i :: 0 <= i < |s| ==> !IsNumericChar(s[i])) ==> r == []
  {
    if s == [] then []
    else (if IsNumericChar(s[0]) then [s[0]] else []) + KeepNumeric(s[1..])
  }

  /**
   * The text `clean_price` hands to `pd.to_numeric`. The noise-token
   * removals and the strip are subsumed by the final regex: the result is
   * exactly the digits, dots and minus signs of the raw text, in order.
   */
  function CleanText(raw: string): (r: string)
    ensures r == KeepNumeric(raw)
  {
    var s1 := RemoveAll(raw, '\U{A0}');
    var s2 := RemoveAll(s1, ',');
    var s3 := RemoveAll(s2, '`');
    var s4 := RemoveAll(s3, '\'');
    var s5 := RemoveAll(s4, '억');
    KeepNumericStripLeft(s5);
    KeepNumericStripRight(StripLeft(s5));
    KeepNumericRemove(s4, '억');
    KeepNumericRemove(s3, '\'');
    KeepNumericRemove(s2, '`');
    KeepNumericRemove(s1, ',');
    KeepNumericRemove(raw, '\U{A0}');
    KeepNumeric(Strip(s5))
  }

  lemma {:induction false} KeepNumericConcat(a: string, b: string)
    ensures KeepNumeric(a + b) == KeepNumeric(a) + KeepNumeric(b)
  {
    if a != [] {
      assert (a + b)[1..] == a[1..] + b;
      KeepNumericConcat(a[1..], b);
    } else {
      assert a + b == b;
    }
  }

  lemma {:induction false} KeepNumericRemove(s: string, c: char)
    requires !IsNumericChar(c)
    ensures KeepNumeric(RemoveAll(s, c)) == KeepNumeric(s)
  {
    if s != [] {
      KeepNumericRemove(s[1..], c);
      var head := if s[0] == c then [] else [s[0]];
      KeepNumericConcat(head, RemoveAll(s[1..], c));
    }
  }

  lemma {:induction false} KeepNumericStripLeft(s: string)
    ensures KeepNumeric(StripLeft(s)) == KeepNumeric(s)
  {
    if s != [] && IsSpace(s[0]) { KeepNumericStripLeft(s[1..]); }
  }

  lemma {:induction false} KeepNumericStripRight(s: string)
    ensures KeepNumeric(StripRight(s)) == KeepNumeric(s)
  {
    if s != [] && IsSpace(s[|s| - 1]) {
      var init, last := s[..|s| - 1], s[|s| - 1];
      KeepNumericStripRight(init);
      assert s == init + [last];
      KeepNumericConcat(init, [last]);
      assert !IsNumericChar(last);
      assert KeepNumeric([last]) == [] + KeepNumeric([]);
    }
  }

  // ---------------------------------------------------------------------
  // `pd.to_numeric(..., errors="coerce")` on cleaned text

  function Pow10(n: nat): (p: nat)
    ensures p >= 1
  {
    if n == 0 then 1 else 10 * Pow10(n - 1)
  }

  /** Index of the first '.', or |t| when there is none. */
  function DotIndex(t: string): (k: nat)
    ensures k <= |t|
    ensures forall i :: 0 <= i < k ==> t[i] != '.'
    ensures k < |t| ==> t[k] == '.'
  {
    if t == [] then 0 else if t[0] == '.' then 0 else 1 + DotIndex(t[1..])
  }

  /** The digits before the first '.'. */
  function WholePart(t: string): string { t[..DotIndex(t)] }

  /** The text after the first '.', empty when there is none. */
  function FracPart(t: string): string
  {
    if DotIndex(t) < |t| then t[DotIndex(t) + 1..] else []
  }

  predicate UnsignedShape(t: string)
  {
    AllDigits(WholePart(t)) && AllDigits(FracPart(t)) && |WholePart(t)| + |FracPart(t)| >= 1
  }

  function DecimalValue(whole: string, frac: string): real
    requires AllDigits(whole) && AllDigits(frac)
  {
    Value(whole) as real + Value(frac) as real / Pow10(|frac|) as real
  }

  /** An unsigned decimal: digits, at most one '.', at least one digit. */
  function ParseUnsigned(t: string): Option<real>
  {
    if UnsignedShape(t) then Some(DecimalValue(WholePart(t), FracPart(t))) else None
  }

  /**
   * The number a cleaned text denotes: an optional leading '-' and an
   * unsigned decimal. Exactly the texts `IsNumberText` describes parse;
   * every other text is undefined, never an error.
   */
  function ParseNumber(t: string): (r: Option<real>)
    ensures r.Some? <==> IsNumberText(t)
  {
    if t != [] && t[0] == '-' then
      ParseUnsignedDefined(t[1..]);
      assert IsNumberText(t) ==> IsUnsignedText(t[1..]) by {
        if IsNumberText(t) { SignedTextIsUnsigned(t); }
      }
      assert IsUnsignedText(t[1..]) ==> IsNumberText(t) by {
        if IsUnsignedText(t[1..]) { UnsignedTextIsSigned(t); }
      }
      match ParseUnsigned(t[1..])
      case Some(v) => Some(-v)
      case None => None
    else
      ParseUnsignedDefined(t);
      ParseUnsigned(t)
  }

  /**
   * `clean_price` on one cell: defined exactly when the cell's digits, dots
   * and minus signs, read in order, form a number; a cell with none of them
   * is undefined.
   */
  function CleanPrice(raw: string): (r: Option<real>)
    ensures r.Some? <==> IsNumberText(KeepNumeric(raw))
    ensures (forall i :: 0 <= i < |raw| ==> !IsNumericChar(raw[i])) ==> r == None
  {
    ParseNumber(CleanText(raw))
  }

  /**
   * The texts `pd.to_numeric` accepts, stated character by character: only
   * digits, '.' and '-'; a '-' only in front; at most one '.'; some digit.
   */
  ghost predicate IsNumberText(t: string)
  {
    && (forall i :: 0 <= i < |t| ==> IsNumericChar(t[i]))
    && (forall i :: 0 < i < |t| ==> t[i] != '-')
    && (forall i, j :: 0 <= i < j < |t| && t[i] == '.' ==> t[j] != '.')
    && HasDigit(t)
  }

  ghost predicate IsUnsignedText(t: string)
  {
    && (forall i :: 0 <= i < |t| ==> IsDigit(t[i]) || t[i] == '.')
    && (forall i, j :: 0 <= i < j < |t| && t[i] == '.' ==> t[j] != '.')
    && HasDigit(t)
  }

  lemma UnsignedShapeSound(t: string)
    requires UnsignedShape(t)
    ensures IsUnsignedText(t)
  {
    var k := DotIndex(t);
    var whole, frac := WholePart(t), FracPart(t);
    forall i | 0 <= i < |t| ensures IsDigit(t[i]) || t[i] == '.' {
      if i < k { assert t[i] == whole[i]; } else if i > k { assert t[i] == frac[i - k - 1]; }
    }
    forall i, j | 0 <= i < j < |t| && t[i] == '.' ensures t[j] != '.' {
      assert i == k;
      assert t[j] == frac[j - k - 1];
    }
    if |whole| >= 1 {
      assert IsDigit(t[0]) by { assert t[0] == whole[0]; }
    } else {
      assert IsDigit(t[k + 1]) by { assert frac[0] == t[k + 1]; }
    }
  }

  lemma UnsignedShapeComplete(t: string)
    requires IsUnsignedText(t)
    ensures UnsignedShape(t)
  {
    var k := DotIndex(t);
    var whole, frac := WholePart(t), FracPart(t);
    forall j | 0 <= j < |whole| ensures IsDigit(whole[j]) { assert whole[j] == t[j]; }
    if k < |t| {
      forall j | 0 <= j < |frac| ensures IsDigit(frac[j]) { assert frac[j] == t[j + k + 1]; }
    }
    var i :| 0 <= i < |t| && IsDigit(t[i]);
    if i < k { assert whole[i] == t[i]; } else { assert i > k && frac[i - k - 1] == t[i]; }
  }

  lemma ParseUnsignedDefined(t: string)
    ensures ParseUnsigned(t).Some? <==> IsUnsignedText(t)
  {
    if UnsignedShape(t) { UnsignedShapeSound(t); }
    if IsUnsignedText(t) { UnsignedShapeComplete(t); }
  }

  lemma SignedTextIsUnsigned(t: string)
    requires t != [] && t[0] == '-' && IsNumberText(t)
    ensures IsUnsignedText(t[1..])
  {
    var u := t[1..];
    forall i | 0 <= i < |u| ensures IsDigit(u[i]) || u[i] == '.' {
      assert u[i] == t[i + 1];
    }
    forall i, j | 0 <= i < j < |u| && u[i] == '.' ensures u[j] != '.' {
      assert u[i] == t[i + 1] && u[j] == t[j + 1];
    }
    var k :| 0 <= k < |t| && IsDigit(t[k]);
    assert k > 0 && u[k - 1] == t[k];
  }

  lemma UnsignedTextIsSigned(t: string)
    requires t != [] && t[0] == '-' && IsUnsignedText(t[1..])
    ensures IsNumberText(t)
  {
    var u := t[1..];
    forall i | 0 < i < |t| ensures IsDigit(t[i]) || t[i] == '.' {
      assert t[i] == u[i - 1];
    }
    forall i, j | 0 <= i < j < |t| && t[i] == '.' ensures t[j] != '.' {
      assert t[i] == u[i - 1] && t[j] == u[j - 1];
    }
    var k :| 0 <= k < |u| && IsDigit(u[k]);
    assert t[k + 1] == u[k];
  }

  /** An integer, printed as `str` prints it, reads back as itself. */
  lemma ParseNatText(n: nat)
    ensures ParseNumber(NatToString(n)) == Some(n as real)
    ensures ParseNumber("-" + NatToString(n)) == Some(-(n as real))
  {
    UnsignedNatText(n);
    assert ("-" + NatToString(n))[1..] == NatToString(n);
  }

  lemma UnsignedNatText(n: nat)
    ensures ParseUnsigned(NatToString(n)) == Some(n as real)
  {
    var t := NatToString(n);
    ValueOfNatToString(n);
    DotIndexOfDigits(t);
    assert t[..|t|] == t;
  }

  /** `whole.frac` with digit-only parts reads as `whole + frac / 10^|frac|`. */
  lemma ParseDecimalText(whole: string, frac: string)
    requires AllDigits(whole) && AllDigits(frac) && |whole| + |frac| >= 1
    ensures ParseNumber(whole + "." + frac) == Some(DecimalValue(whole, frac))
  {
    var t := whole + ("." + frac);
    assert whole + "." + frac == t;
    DotIndexOfDigits(whole);
    DotIndexAppend(whole, "." + frac);
    assert DotIndex(t) == |whole|;
    assert WholePart(t) == whole by { assert t[..|whole|] == whole; }
    assert FracPart(t) == frac by { assert t[|whole| + 1..] == frac; }
    assert t[0] != '-' by { if whole != [] { assert t[0] == whole[0]; } else { assert t[0] == '.'; } }
  }

  lemma {:induction false} DotIndexOfDigits(s: string)
    requires AllDigits(s)
    ensures DotIndex(s) == |s|
  {
    if s != [] { DotIndexOfDigits(s[1..]); }
  }

  lemma {:induction false} DotIndexAppend(a: string, b: string)
    requires DotIndex(a) == |a|
    ensures DotIndex(a + b) == |a| + DotIndex(b)
  {
    if a != [] {
      assert (a + b)[1..] == a[1..] + b;
      assert a[0] != '.';
      DotIndexAppend(a[1..], b);
    } else {
      assert a + b == b;
    }
  }

  /** A missing cell, which `astype(str)` renders as "nan", is undefined. */
  lemma MissingCellIsUndefined()
    ensures CleanPrice("nan") == None
  {
  }

  lemma NatToString123()
    ensures NatToString(123) == "123"
  {
    assert NatToString(1) == "1";
    assert NatToString(12) == NatToString(1) + [DigitChar(2)];
    assert NatToString(123) == NatToString(12) + [DigitChar(3)];
  }

  lemma KeepNumericExample()
    ensures KeepNumeric("12,3억") == "123"
  {
    var raw := "12,3억";
    assert raw == ['1'] + ['2'] + [','] + ['3'] + ['억'];
    KeepNumericConcat(['1'] + ['2'] + [','] + ['3'], ['억']);
    KeepNumericConcat(['1'] + ['2'] + [','], ['3']);
    KeepNumericConcat(['1'] + ['2'], [',']);
    KeepNumericConcat(['1'], ['2']);
  }

  lemma CleanTextExample()
    ensures CleanText("12,3억") == "123"
  {
    KeepNumericExample();
  }

  /** A typical sheet cell: "12,3억" cleans to "123" and reads as 123. */
  lemma CleanPriceExample()
    ensures CleanPrice("12,3억") == Some(123.0)
  {
    CleanTextExample();
    NatToString123();
    ParseNatText(123);
  }

  // ---------------------------------------------------------------------
  // The converted valuation

  /** The public-price to appraisal ratio of this revision: 공시가 ÷ 0.69. */
  const Ratio: real := 0.69

  /**
   * `derived.where(~derived.isna(), fallback)`: the public price divided by
   * the ratio when it is defined, the cleaned appraisal price otherwise.
   */
  function ConvertedValue(publicRaw: string, appraisalRaw: string): (r: Option<real>)
    ensures r.Some? <==> CleanPrice(publicRaw).Some? || CleanPrice(appraisalRaw).Some?
    ensures CleanPrice(publicRaw).Some? ==> r.Some? && r.value * Ratio == CleanPrice(publicRaw).value
    ensures CleanPrice(publicRaw).None? ==> r == CleanPrice(appraisalRaw)
  {
    match CleanPrice(publicRaw)
    case Some(p) => Some(p / Ratio)
    case None => CleanPrice(appraisalRaw)
  }

  lemma KeepNumericDecimalExample()
    ensures KeepNumeric("50.5") == "50.5"
  {
    var raw := "50.5";
    assert raw == ['5'] + ['0'] + ['.'] + ['5'];
    KeepNumericConcat(['5'] + ['0'] + ['.'], ['5']);
    KeepNumericConcat(['5'] + ['0'], ['.']);
    KeepNumericConcat(['5'], ['0']);
  }

  lemma ParseDecimalExample()
    ensures ParseNumber("50.5") == Some(50.5)
  {
    assert "50.5" == "50" + "." + "5";
    assert Value("50") == 50 by { assert "50"[..1] == "5"; }
    ParseDecimalText("50", "5");
  }

  lemma CleanPriceDecimalExample()
    ensures CleanPrice("50.5") == Some(50.5)
  {
    KeepNumericDecimalExample();
    ParseDecimalExample();
  }

  /** "12,3억" as public price gives 123 / 0.69; no public price falls back to the appraisal price. */
  lemma ConvertedValueExamples()
    ensures ConvertedValue("12,3억", "nan") == Some(123.0 / 0.69)
    ensures ConvertedValue("nan", "50.5") == Some(50.5)
    ensures ConvertedValue("nan", "nan") == None
  {
    CleanPriceExample();
    MissingCellIsUndefined();
    CleanPriceDecimalExample();
  }
}
