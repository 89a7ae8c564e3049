/**
 * `contiguous_ranges` and `format_range`: a strictly increasing list of
 * floors is compressed into maximal closed intervals, and each interval is
 * written "N층" or "S층~E층".
 */
module Ranges {
  import opened Digits
  import opened Sorting
  import opened Collections

  /** A closed interval `(start, prev)` of floors. */
  datatype Range = Range(lo: int, hi: int)

  /** The integers lo, lo + 1, ..., hi. */
  function Span(lo: int, hi: int): (r: seq<int>)
    ensures |r| == if lo > hi then 0 else hi - lo + 1
    ensures forall i :: 0 <= i < |r| ==> r[i] == lo + i
    decreases hi - lo
  {
    if lo > hi then [] else Span(lo, hi - 1) + [hi]
  }

  /** Every integer an interval list covers, in order. */
  function Expand(rs: seq<Range>): seq<int>
  {
    if rs == [] then [] else Expand(rs[..|rs| - 1]) + Span(rs[|rs| - 1].lo, rs[|rs| - 1].hi)
  }

  /**
   * Non-empty intervals, ascending, no two overlapping or adjacent
   * (`e_i + 1 < s_{i+1}`): the shape `contiguous_ranges` promises.
   */
  ghost predicate Canonical(rs: seq<Range>)
  {
    && (forall i :: 0 <= i < |rs| ==> rs[i].lo <= rs[i].hi)
    && (forall i :: 0 < i < |rs| ==> rs[i - 1].hi + 1 < rs[i].lo)
  }

  /**
   * What `contiguous_ranges` computes, element by element: each value
   * extends the last interval when it is one more than that interval's end
   * and starts a new interval otherwise. On a strictly increasing list the
   * intervals are canonical and cover exactly the input, in order.
   */
  function Compress(xs: seq<int>): (r: seq<Range>)
    ensures |r| <= |xs|
    ensures r == [] <==> xs == []
    ensures StrictlyIncreasing(xs) ==> Canonical(r) && Expand(r) == xs
  {
    if xs == [] then []
    else
      var init, x := xs[..|xs| - 1], xs[|xs| - 1];
      var p := Compress(init);
      var r := if p != [] && x == p[|p| - 1].hi + 1 then p[..|p| - 1] + [Range(p[|p| - 1].lo, x)]
               else p + [Range(x, x)];
      assert StrictlyIncreasing(xs) ==> Canonical(r) && Expand(r) == xs by {
        if StrictlyIncreasing(xs) {
          assert StrictlyIncreasing(init);
          InitLast(xs);
          if p != [] && x == p[|p| - 1].hi + 1 {
            CompressStepExtend(p, init, x);
          } else {
            if p != [] {
              ExpandLast(p);
              assert init[|init| - 1] < x;
            }
            CompressStepOpen(p, init, x);
          }
        }
      }
      r
  }

  /** The imperative loop of `contiguous_ranges`. */
  method ContiguousRanges(xs: seq<int>) returns (ranges: seq<Range>)
    ensures ranges == Compress(xs)
    ensures StrictlyIncreasing(xs) ==> Canonical(ranges) && Expand(ranges) == xs
  {
    ranges := [];
    var started := false;
    var start, prev := 0, 0;
    for i := 0 to |xs|
      invariant started <==> i > 0
      invariant !started ==> ranges == []
      invariant started ==> ranges + [Range(start, prev)] == Compress(xs[..i])
    {
      var x := xs[i];
      CompressPrefixStep(xs, i);
      if started { DropLast(ranges, Range(start, prev)); }
      if !started {
        start, prev := x, x;
        started := true;
      } else if x == prev + 1 {
        prev := x;
      } else {
        ranges := ranges + [Range(start, prev)];
        start, prev := x, x;
      }
    }
    assert xs[..|xs|] == xs;
    if started {
      ranges := ranges + [Range(start, prev)];
    }
  }

  lemma ExpandSnoc(rs: seq<Range>, r: Range)
    ensures Expand(rs + [r]) == Expand(rs) + Span(r.lo, r.hi)
  {
    assert (rs + [r])[..|rs|] == rs;
  }

  /** The last interval ends at the last value. */

  /** The step that extends the last interval keeps the cover canonical. */
  lemma CompressStepExtend(p: seq<Range>, init: seq<int>, x: int)
    requires Canonical(p) && Expand(p) == init
    requires p != [] && x == p[|p| - 1].hi + 1
    ensures Canonical(p[..|p| - 1] + [Range(p[|p| - 1].lo, x)])
    ensures Expand(p[..|p| - 1] + [Range(p[|p| - 1].lo, x)]) == init + [x]
  {
    ExtendCanonical(p, x);
    ExtendExpand(p, x);
  }

  lemma ExtendCanonical(p: seq<Range>, x: int)
    requires Canonical(p)
    requires p != [] && x == p[|p| - 1].hi + 1
    ensures Canonical(p[..|p| - 1] + [Range(p[|p| - 1].lo, x)])
  {
    var q, last := p[..|p| - 1], p[|p| - 1];
    var r := q + [Range(last.lo, x)];
    assert forall i :: 0 <= i < |q| ==> r[i] == p[i];
    assert r[|q|].lo == p[|q|].lo;
  }

  lemma ExtendExpand(p: seq<Range>, x: int)
    requires p != [] && p[|p| - 1].lo <= p[|p| - 1].hi && x == p[|p| - 1].hi + 1
    ensures Expand(p[..|p| - 1] + [Range(p[|p| - 1].lo, x)]) == Expand(p) + [x]
  {
    var q, last := p[..|p| - 1], p[|p| - 1];
    SpanSnoc(last.lo, x);
    ExpandSnoc(q, Range(last.lo, x));
    assert Expand(p) == Expand(q) + Span(last.lo, last.hi);
  }

  lemma SpanSnoc(lo: int, hi: int)
    requires lo < hi
    ensures Span(lo, hi) == Span(lo, hi - 1) + [hi]
  {
  }

  /** The step that opens a new interval keeps the cover canonical. */
  lemma CompressStepOpen(p: seq<Range>, init: seq<int>, x: int)
    requires Canonical(p) && Expand(p) == init
    requires p != [] ==> p[|p| - 1].hi < x && x != p[|p| - 1].hi + 1
    ensures Canonical(p + [Range(x, x)])
    ensures Expand(p + [Range(x, x)]) == init + [x]
  {
    OpenCanonical(p, x);
    ExpandSnoc(p, Range(x, x));
    assert Span(x, x) == [x];
  }

  lemma OpenCanonical(p: seq<Range>, x: int)
    requires Canonical(p)
    requires p != [] ==> p[|p| - 1].hi + 1 < x
    ensures Canonical(p + [Range(x, x)])
  {
    var r := p + [Range(x, x)];
    assert forall i :: 0 <= i < |p| ==> r[i] == p[i];
  }

  lemma {:induction false} ExpandLast(rs: seq<Range>)
    requires rs != [] && rs[|rs| - 1].lo <= rs[|rs| - 1].hi
    ensures Expand(rs) != [] && Expand(rs)[|Expand(rs)| - 1] == rs[|rs| - 1].hi
  {
  }

  /** The prefix one longer compresses by one step of `Compress`. */
  lemma CompressPrefixStep(xs: seq<int>, i: nat)
    requires i < |xs|
    ensures Compress(xs[..i + 1]) ==
      var p := Compress(xs[..i]);
      if p != [] && xs[i] == p[|p| - 1].hi + 1 then p[..|p| - 1] + [Range(p[|p| - 1].lo, xs[i])]
      else p + [Range(xs[i], xs[i])]
  {
    assert xs[..i + 1] == xs[..i] + [xs[i]];
    CompressSnoc(xs[..i], xs[i]);
  }

  lemma {:induction false} CompressLast(xs: seq<int>)
    requires xs != []
    ensures Compress(xs) != [] && Compress(xs)[|Compress(xs)| - 1].hi == xs[|xs| - 1]
  {
  }

  /** One step of `Compress`: the value appended last. */
  lemma CompressSnoc(t: seq<int>, x: int)
    ensures Compress(t + [x]) ==
      var p := Compress(t);
      if p != [] && x == p[|p| - 1].hi + 1 then p[..|p| - 1] + [Range(p[|p| - 1].lo, x)]
      else p + [Range(x, x)]
  {
    DropLast(t, x);
  }

  lemma {:induction false} CompressAppendSpan(e: seq<int>, lo: int, hi: int)
    requires lo <= hi
    requires e == [] || e[|e| - 1] + 1 < lo
    ensures Compress(e + Span(lo, hi)) == Compress(e) + [Range(lo, hi)]
    decreases hi - lo
  {
    if lo == hi {
      assert Span(lo, hi) == [lo];
      CompressAppendSingle(e, lo);
    } else {
      CompressAppendSpan(e, lo, hi - 1);
      CompressSpanStep(e, lo, hi);
    }
  }

  /** Growing the appended span by one value grows its interval by one. */
  lemma CompressSpanStep(e: seq<int>, lo: int, hi: int)
    requires lo < hi
    requires Compress(e + Span(lo, hi - 1)) == Compress(e) + [Range(lo, hi - 1)]
    ensures Compress(e + Span(lo, hi)) == Compress(e) + [Range(lo, hi)]
  {
    var a := Span(lo, hi - 1);
    SpanSnoc(lo, hi);
    AppendAssoc(e, a, hi);
    CompressExtendLast(e + a, Compress(e), lo, hi);
  }

  lemma AppendAssoc(e: seq<int>, a: seq<int>, x: int)
    ensures e + (a + [x]) == (e + a) + [x]
  {
  }

  /** Appending a value not adjacent to the last one opens a new interval. */
  lemma CompressAppendSingle(e: seq<int>, x: int)
    requires e == [] || e[|e| - 1] + 1 < x
    ensures Compress(e + [x]) == Compress(e) + [Range(x, x)]
  {
    if e != [] { CompressLast(e); }
    CompressSnoc(e, x);
  }

  /** Appending the successor of the last interval's end extends that interval. */
  lemma CompressExtendLast(t: seq<int>, c: seq<Range>, lo: int, hi: int)
    requires Compress(t) == c + [Range(lo, hi - 1)]
    ensures Compress(t + [hi]) == c + [Range(lo, hi)]
  {
    CompressSnoc(t, hi);
    DropLast(c, Range(lo, hi - 1));
  }

  /** Compressing what canonical intervals cover gives those intervals back. */
  lemma {:induction false} CompressExpand(rs: seq<Range>)
    requires Canonical(rs)
    ensures Compress(Expand(rs)) == rs
  {
    if rs != [] {
      var init, r := rs[..|rs| - 1], rs[|rs| - 1];
      assert Canonical(init);
      CompressExpand(init);
      if init != [] { ExpandLast(init); }
      CompressAppendSpan(Expand(init), r.lo, r.hi);
      InitLast(rs);
    }
  }

  /**
   * The canonical cover of a set of floors is unique, so the compression is
   * the minimal one: any canonical interval list covering the same values
   * is the one `contiguous_ranges` returns.
   */
  lemma CanonicalCoverIsUnique(a: seq<Range>, b: seq<Range>)
    requires Canonical(a) && Canonical(b) && Expand(a) == Expand(b)
    ensures a == b
  {
    CompressExpand(a);
    CompressExpand(b);
  }

  /** A value is covered exactly when some interval contains it. */
  lemma {:induction false} ExpandMembers(rs: seq<Range>, x: int)
    ensures x in Expand(rs) <==> exists i :: 0 <= i < |rs| && rs[i].lo <= x <= rs[i].hi
  {
    if rs != [] {
      var init := rs[..|rs| - 1];
      ExpandMembers(init, x);
      var sp := Span(rs[|rs| - 1].lo, rs[|rs| - 1].hi);
      assert x in sp <==> rs[|rs| - 1].lo <= x <= rs[|rs| - 1].hi by {
        if rs[|rs| - 1].lo <= x <= rs[|rs| - 1].hi { assert sp[x - rs[|rs| - 1].lo] == x; }
      }
      assert forall i :: 0 <= i < |init| ==> init[i] == rs[i];
    }
  }

  /**
   * The union of the intervals' members is exactly the input: a floor is in
   * the list iff some returned interval contains it. The empty list gives
   * no intervals.
   */
  lemma CompressCoversExactly(xs: seq<int>, x: int)
    requires StrictlyIncreasing(xs)
    ensures x in xs <==> exists i :: 0 <= i < |Compress(xs)| && Compress(xs)[i].lo <= x <= Compress(xs)[i].hi
    ensures xs == [] <==> Compress(xs) == []
  {
    var rs := Compress(xs);
    ExpandMembers(rs, x);
    assert Expand(rs) == xs;
    if rs == [] {
      assert Expand(rs) == [];
    }
  }

  /** Floors 7, 8, 9, 11, 15, 16 compress to 7~9, 11 and 15~16. */
  lemma CompressExample()
    ensures Compress([7, 8, 9, 11, 15, 16]) == [Range(7, 9), Range(11, 11), Range(15, 16)]
  {
    var rs := [Range(7, 9), Range(11, 11), Range(15, 16)];
    assert Canonical(rs);
    ExpandExample();
    CompressExpand(rs);
  }

  lemma ExpandExample()
    ensures Expand([Range(7, 9), Range(11, 11), Range(15, 16)]) == [7, 8, 9, 11, 15, 16]
  {
    var one := [Range(7, 9)];
    var two := one + [Range(11, 11)];
    ExpandSnoc([], Range(7, 9));
    assert Span(7, 9) == [7, 8, 9];
    ExpandSnoc(one, Range(11, 11));
    assert Span(11, 11) == [11];
    ExpandSnoc(two, Range(15, 16));
    assert Span(15, 16) == [15, 16];
    assert two + [Range(15, 16)] == [Range(7, 9), Range(11, 11), Range(15, 16)];
  }

  // ---------------------------------------------------------------------
  // Text

  /** `format_range(s, e)` */
  function FormatRange(r: Range): (t: string)
    ensures |t| >= 2 && t[|t| - 1] == '층'
  {
    if r.lo == r.hi then IntToString(r.lo) + "층"
    else IntToString(r.lo) + "층~" + IntToString(r.hi) + "층"
  }

  /** `", ".join(format_range(s, e) for s, e in ranges)` */
  function JoinRanges(rs: seq<Range>): (t: string)
    ensures t == [] <==> rs == []
    ensures rs != [] ==> t[|t| - 1] == '층'
  {
    if rs == [] then ""
    else if |rs| == 1 then FormatRange(rs[0])
    else FormatRange(rs[0]) + ", " + JoinRanges(rs[1..])
  }

  lemma IntToStringChars(i: int)
    ensures forall k :: 0 <= k < |IntToString(i)| ==> IsDigit(IntToString(i)[k]) || IntToString(i)[k] == '-'
  {
    if i < 0 {
      assert forall k :: 1 <= k < |IntToString(i)| ==> IntToString(i)[k] == NatToString(-i)[k - 1];
    }
  }

  function IndexOf(s: string, c: char): (k: nat)
    ensures k <= |s| && (k < |s| ==> s[k] == c)
  {
    if s == [] || s[0] == c then 0 else 1 + IndexOf(s[1..], c)
  }

  lemma {:induction false} IndexOfAfter(a: string, c: char, x: string)
    requires c !in a
    ensures IndexOf(a + [c] + x, c) == |a|
  {
    if a != [] {
      assert (a + [c] + x)[1..] == a[1..] + [c] + x;
      IndexOfAfter(a[1..], c, x);
    }
  }

  /** Splitting at the first occurrence of a character the prefixes lack. */
  lemma SplitAtFirst(a: string, b: string, c: char, x: string, y: string)
    requires c !in a && c !in b && a + [c] + x == b + [c] + y
    ensures a == b && x == y
  {
    var s := a + [c] + x;
    IndexOfAfter(a, c, x);
    IndexOfAfter(b, c, y);
    assert a == s[..|a|] && b == s[..|b|];
    assert x == s[|a| + 1..] && y == s[|b| + 1..];
  }

  lemma FormatRangeShape(r: Range)
    ensures ',' !in FormatRange(r) && |FormatRange(r)| >= 2
    ensures FormatRange(r) == IntToString(r.lo) + ['층'] + (if r.lo == r.hi then "" else ['~'] + IntToString(r.hi) + ['층'])
  {
    IntToStringChars(r.lo);
    IntToStringChars(r.hi);
    IntToStringSign(r.lo);
  }

  /** Different intervals are written differently. */
  lemma FormatRangeInjective(r1: Range, r2: Range)
    requires FormatRange(r1) == FormatRange(r2)
    ensures r1 == r2
  {
    FormatRangeShape(r1);
    FormatRangeShape(r2);
    IntToStringChars(r1.lo);
    IntToStringChars(r2.lo);
    var t1 := if r1.lo == r1.hi then "" else ['~'] + IntToString(r1.hi) + ['층'];
    var t2 := if r2.lo == r2.hi then "" else ['~'] + IntToString(r2.hi) + ['층'];
    assert '층' !in IntToString(r1.lo) && '층' !in IntToString(r2.lo);
    SplitAtFirst(IntToString(r1.lo), IntToString(r2.lo), '층', t1, t2);
    IntToStringInjective(r1.lo, r2.lo);
    if r1.lo != r1.hi && r2.lo != r2.hi {
      assert t1[1..|t1| - 1] == IntToString(r1.hi);
      assert t2[1..|t2| - 1] == IntToString(r2.hi);
      IntToStringInjective(r1.hi, r2.hi);
    }
  }

  lemma {:induction false} JoinRangesShape(rs: seq<Range>)
    ensures JoinRanges(rs) == [] <==> rs == []
    ensures ',' in JoinRanges(rs) <==> |rs| >= 2
  {
    if rs != [] {
      FormatRangeShape(rs[0]);
      if |rs| >= 2 {
        assert JoinRanges(rs)[|FormatRange(rs[0])|] == ',';
      }
    }
  }

  /** The floor-range text determines the interval list it was made from. */
  lemma {:induction false} JoinRangesInjective(a: seq<Range>, b: seq<Range>)
    requires JoinRanges(a) == JoinRanges(b)
    ensures a == b
  {
    JoinRangesShape(a);
    JoinRangesShape(b);
    if a != [] {
      if |a| == 1 {
        FormatRangeInjective(a[0], b[0]);
      } else {
        JoinRangesHeads(a, b);
        JoinRangesInjective(a[1..], b[1..]);
        assert a == [a[0]] + a[1..] && b == [b[0]] + b[1..];
      }
    }
  }

  /** Two equal texts of two or more intervals start with the same interval. */
  lemma JoinRangesHeads(a: seq<Range>, b: seq<Range>)
    requires |a| >= 2 && |b| >= 2 && JoinRanges(a) == JoinRanges(b)
    ensures a[0] == b[0] && JoinRanges(a[1..]) == JoinRanges(b[1..])
  {
    JoinRangesCons(a);
    JoinRangesCons(b);
    FormatRangeShape(a[0]);
    FormatRangeShape(b[0]);
    var ta, tb := [' '] + JoinRanges(a[1..]), [' '] + JoinRanges(b[1..]);
    SplitAtFirst(FormatRange(a[0]), FormatRange(b[0]), ',', ta, tb);
    FormatRangeInjective(a[0], b[0]);
    assert ta[1..] == JoinRanges(a[1..]) && tb[1..] == JoinRanges(b[1..]);
  }

  /** Peeling the first interval off a text of two or more. */
  lemma {:induction false} JoinRangesCons(a: seq<Range>)
    requires |a| >= 2
    ensures JoinRanges(a) == FormatRange(a[0]) + [','] + ([' '] + JoinRanges(a[1..]))
  {
    Separator(FormatRange(a[0]), JoinRanges(a[1..]));
  }

  lemma Separator(f: string, j: string)
    ensures f + ", " + j == f + [','] + ([' '] + j)
  {
    assert ", " == [','] + [' '];
  }
}
