/**
 * Orders and sorts shared by the ranking, the co-rank summary and the
 * similar-value finder.
 *
 * Every sort in the app is a (stable) sort on one or more columns. Here a
 * sort key is a sequence of integers compared lexicographically; stability
 * is obtained where it matters by ending the key with something unique (the
 * row's position, or the group key that `groupby` already sorted by).
 * Strings enter keys through `EncodeStr`, which preserves Python's
 * code-point order on `str`.
 */
module Sorting {

  // ---------------------------------------------------------------------
  // Lexicographic order on integer keys

  predicate LexLe(a: seq<int>, b: seq<int>)
    decreases |a|
  {
    a == [] || (b != [] && (a[0] < b[0] || (a[0] == b[0] && LexLe(a[1..], b[1..]))))
  }

  predicate LexLt(a: seq<int>, b: seq<int>) { LexLe(a, b) && a != b }

  lemma {:induction false} LexReflexive(a: seq<int>)
    ensures LexLe(a, a)
  {
    if a != [] { LexReflexive(a[1..]); }
  }

  lemma {:induction false} LexTotal(a: seq<int>, b: seq<int>)
    ensures LexLe(a, b) || LexLe(b, a)
  {
    if a != [] && b != [] && a[0] == b[0] { LexTotal(a[1..], b[1..]); }
  }

  lemma {:induction false} LexTransitive(a: seq<int>, b: seq<int>, c: seq<int>)
    requires LexLe(a, b) && LexLe(b, c)
    ensures LexLe(a, c)
  {
    if a != [] && b != [] && c != [] && a[0] == b[0] == c[0] {
      LexTransitive(a[1..], b[1..], c[1..]);
    }
  }

  lemma {:induction false} LexAntisymmetric(a: seq<int>, b: seq<int>)
    requires LexLe(a, b) && LexLe(b, a)
    ensures a == b
  {
    if a != [] && b != [] {
      LexAntisymmetric(a[1..], b[1..]);
      assert a == [a[0]] + a[1..] && b == [b[0]] + b[1..];
    }
  }

  /** Keys compare on their first component, then on the rest. */
  lemma LexHead(x: int, a: seq<int>, y: int, b: seq<int>)
    ensures LexLe([x] + a, [y] + b) <==> x < y || (x == y && LexLe(a, b))
  {
    assert ([x] + a)[1..] == a && ([y] + b)[1..] == b;
  }

  // ---------------------------------------------------------------------
  // A stable insertion sort on a key

  ghost predicate SortedBy<T>(s: seq<T>, key: T -> seq<int>)
  {
    forall i, j :: 0 <= i < j < |s| ==> LexLe(key(s[i]), key(s[j]))
  }

  function Insert<T>(x: T, s: seq<T>, key: T -> seq<int>): (r: seq<T>)
    requires SortedBy(s, key)
    ensures multiset(r) == multiset(s) + multiset{x}
    ensures SortedBy(r, key)
    ensures |r| == |s| + 1
  {
    if s == [] then [x]
    else if LexLe(key(x), key(s[0])) then
      InsertAtHead(x, s, key);
      [x] + s
    else
      var rest := Insert(x, s[1..], key);
      assert s == [s[0]] + s[1..];
      InsertBehindHead(s[0], x, s[1..], rest, key);
      [s[0]] + rest
  }

  /** An element that sorts no later than the head goes in front. */
  lemma InsertAtHead<T>(x: T, s: seq<T>, key: T -> seq<int>)
    requires SortedBy(s, key) && s != [] && LexLe(key(x), key(s[0]))
    ensures SortedBy([x] + s, key)
  {
    var r := [x] + s;
    forall i, j | 0 <= i < j < |r| ensures LexLe(key(r[i]), key(r[j])) {
      assert r[j] == s[j - 1];
      if i > 0 {
        assert r[i] == s[i - 1];
      } else if j > 1 {
        LexTransitive(key(x), key(s[0]), key(s[j - 1]));
      }
    }
  }

  /** Inserting behind a head that sorts before `x` keeps the head first. */
  lemma InsertBehindHead<T>(h: T, x: T, t: seq<T>, rest: seq<T>, key: T -> seq<int>)
    requires SortedBy([h] + t, key) && SortedBy(rest, key)
    requires !LexLe(key(x), key(h))
    requires multiset(rest) == multiset(t) + multiset{x}
    ensures SortedBy([h] + rest, key)
  {
    LexTotal(key(x), key(h));
    forall j | 0 <= j < |rest| ensures LexLe(key(h), key(rest[j])) {
      assert rest[j] in multiset(rest);
      if rest[j] != x {
        assert rest[j] in multiset(t);
        var k :| 0 <= k < |t| && t[k] == rest[j];
        assert ([h] + t)[0] == h && ([h] + t)[k + 1] == rest[j];
      }
    }
    var r := [h] + rest;
    forall i, j | 0 <= i < j < |r| ensures LexLe(key(r[i]), key(r[j])) {
      assert r[j] == rest[j - 1];
      if i > 0 { assert r[i] == rest[i - 1]; }
    }
  }

  /** `sort_values` / `sorted` on a key: sorted, and a permutation of the input. */
  function SortBy<T>(s: seq<T>, key: T -> seq<int>): (r: seq<T>)
    ensures multiset(r) == multiset(s) && |r| == |s|
    ensures SortedBy(r, key)
  {
    if s == [] then []
    else
      assert s == [s[0]] + s[1..];
      Insert(s[0], SortBy(s[1..], key), key)
  }

  /** Sorting keeps exactly the elements it was given. */
  lemma SortByMembers<T>(s: seq<T>, key: T -> seq<int>, x: T)
    ensures x in SortBy(s, key) <==> x in s
  {
    assert x in multiset(SortBy(s, key)) <==> x in multiset(s);
  }

  /** `sort_values(...).head(n)` keeps only elements of the input. */
  lemma TakeSortedMembers<T>(s: seq<T>, key: T -> seq<int>, n: nat)
    ensures forall x :: x in Take(SortBy(s, key), n) ==> x in s
  {
    var t := SortBy(s, key);
    forall x | x in Take(t, n) ensures x in s {
      assert x in t;
      SortByMembers(s, key, x);
    }
  }

  /** `df.head(n)` */
  function Take<T>(s: seq<T>, n: nat): (r: seq<T>)
    ensures |r| == if |s| < n then |s| else n
    ensures r == s[..|r|]
  {
    if |s| <= n then s else s[..n]
  }

  /**
   * `sort_values(...).head(n)` keeps the n smallest: whatever it leaves
   * out sorts no earlier than anything it keeps.
   */
  lemma TakeSortedIsSmallest<T>(s: seq<T>, key: T -> seq<int>, n: nat, x: T, c: T)
    requires x in s && x !in Take(SortBy(s, key), n) && c in Take(SortBy(s, key), n)
    ensures LexLe(key(c), key(x))
  {
    var t := SortBy(s, key);
    var h := Take(t, n);
    SortByMembers(s, key, x);
    var k :| 0 <= k < |t| && t[k] == x;
    var i :| 0 <= i < |h| && h[i] == c;
    assert forall m :: 0 <= m < |h| ==> h[m] == t[m];
    assert |h| <= k;
    assert t[i] == c;
  }

  // ---------------------------------------------------------------------
  // Sorted sets of integers: `sorted(set(xs))`

  predicate StrictlyIncreasing(xs: seq<int>)
  {
    forall i, j :: 0 <= i < j < |xs| ==> xs[i] < xs[j]
  }

  function InsertUnique(x: int, s: seq<int>): (r: seq<int>)
    requires StrictlyIncreasing(s)
    ensures StrictlyIncreasing(r)
    ensures forall y :: y in r <==> y == x || y in s
  {
    if s == [] then [x]
    else if x < s[0] then [x] + s
    else if x == s[0] then s
    else
      var rest := InsertUnique(x, s[1..]);
      assert forall y :: y in s <==> y == s[0] || y in s[1..];
      assert forall y :: y in rest ==> s[0] < y;
      var r := [s[0]] + rest;
      assert forall j :: 0 < j < |r| ==> r[j] in rest;
      r
  }

  /** `sorted(set(xs))`: strictly increasing, with exactly the elements of `xs`. */
  function SortedSet(xs: seq<int>): (r: seq<int>)
    ensures StrictlyIncreasing(r)
    ensures forall y :: y in r <==> y in xs
  {
    if xs == [] then []
    else
      assert forall y :: y in xs <==> y == xs[0] || y in xs[1..];
      InsertUnique(xs[0], SortedSet(xs[1..]))
  }

  // ---------------------------------------------------------------------
  // Python's order on strings, and an order-preserving encoding into keys

  /** Python's `a < b` on `str`: lexicographic by code point. */
  predicate StrLt(a: string, b: string)
    decreases |a|
  {
    b != [] && (a == [] || a[0] < b[0] || (a[0] == b[0] && StrLt(a[1..], b[1..])))
  }

  /** Each character as its code point plus one, then a terminating 0. */
  function EncodeStr(s: string): (r: seq<int>)
    ensures |r| == |s| + 1 && r[|s|] == 0
    ensures forall i :: 0 <= i < |s| ==> r[i] == s[i] as int + 1
  {
    seq(|s|, i requires 0 <= i < |s| => s[i] as int + 1) + [0]
  }

  /** A tuple of strings (a `groupby` key) as one integer key. */
  function EncodeTuple(t: seq<string>): seq<int>
  {
    if t == [] then [] else EncodeStr(t[0]) + EncodeTuple(t[1..])
  }

  /** Python's order on tuples of strings of the same length. */
  predicate TupleLt(a: seq<string>, b: seq<string>)
    requires |a| == |b|
  {
    a != [] && (StrLt(a[0], b[0]) || (a[0] == b[0] && TupleLt(a[1..], b[1..])))
  }

  lemma {:induction false} EncodeStrOrder(a: string, b: string, x: seq<int>, y: seq<int>)
    ensures LexLe(EncodeStr(a) + x, EncodeStr(b) + y) <==> StrLt(a, b) || (a == b && LexLe(x, y))
  {
    var ea, eb := EncodeStr(a) + x, EncodeStr(b) + y;
    if a == [] && b == [] {
      assert ea == [0] + x && eb == [0] + y;
      LexHead(0, x, 0, y);
    } else if a == [] {
      assert ea[0] == 0 && eb[0] == b[0] as int + 1;
    } else if b == [] {
      assert eb[0] == 0 && ea[0] == a[0] as int + 1;
    } else {
      assert ea[0] == a[0] as int + 1 && eb[0] == b[0] as int + 1;
      assert ea[1..] == EncodeStr(a[1..]) + x;
      assert eb[1..] == EncodeStr(b[1..]) + y;
      EncodeStrOrder(a[1..], b[1..], x, y);
      assert a == [a[0]] + a[1..] && b == [b[0]] + b[1..];
    }
  }

  /**
   * The encoding is faithful: comparing encoded tuples (followed by any
   * further key components) is Python's tuple order, then the rest.
   */
  lemma {:induction false} EncodeTupleOrder(a: seq<string>, b: seq<string>, x: seq<int>, y: seq<int>)
    requires |a| == |b|
    ensures LexLe(EncodeTuple(a) + x, EncodeTuple(b) + y) <==> TupleLt(a, b) || (a == b && LexLe(x, y))
  {
    if a == [] {
      assert EncodeTuple(a) + x == x && EncodeTuple(b) + y == y;
    } else {
      assert EncodeTuple(a) + x == EncodeStr(a[0]) + (EncodeTuple(a[1..]) + x);
      assert EncodeTuple(b) + y == EncodeStr(b[0]) + (EncodeTuple(b[1..]) + y);
      EncodeStrOrder(a[0], b[0], EncodeTuple(a[1..]) + x, EncodeTuple(b[1..]) + y);
      EncodeTupleOrder(a[1..], b[1..], x, y);
      assert a == [a[0]] + a[1..] && b == [b[0]] + b[1..];
    }
  }

  /** Distinct group keys give distinct encodings. */
  lemma EncodeTupleInjective(a: seq<string>, b: seq<string>)
    requires |a| == |b| && EncodeTuple(a) == EncodeTuple(b)
    ensures a == b
  {
    var e := EncodeTuple(a);
    assert EncodeTuple(a) + [] == e && EncodeTuple(b) + [] == e;
    LexReflexive(e);
    EncodeTupleOrder(a, b, [], []);
    EncodeTupleOrder(b, a, [], []);
    assert TupleLt(a, b) || a == b;
    assert TupleLt(b, a) || a == b;
    TupleLtAsymmetric(a, b);
  }

  lemma {:induction false} StrLtAsymmetric(a: string, b: string)
    ensures !(StrLt(a, b) && StrLt(b, a))
  {
    if a != [] && b != [] && a[0] == b[0] { StrLtAsymmetric(a[1..], b[1..]); }
  }

  lemma {:induction false} TupleLtAsymmetric(a: seq<string>, b: seq<string>)
    requires |a| == |b|
    ensures !(TupleLt(a, b) && TupleLt(b, a))
  {
    if a != [] {
      StrLtAsymmetric(a[0], b[0]);
      TupleLtAsymmetric(a[1..], b[1..]);
    }
  }
}
