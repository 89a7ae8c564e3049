/**
 * Competition ranking within a zone (the "1224" scheme of
 * `rank(method="min", ascending=False)`) and the tie counts of
 * `groupby(key).transform("size")`.
 *
 * A key is the converted valuation already rounded to 6 decimals and scaled
 * to an integer, so equal keys are exactly the rows pandas treats as tied.
 */
module Ranking {
  import opened Options
  import opened Sorting
  import opened Collections

  // ---------------------------------------------------------------------
  // Counting keys

  function CountGreater(keys: seq<int>, k: int): (n: nat)
    ensures n <= |keys|
  {
    if keys == [] then 0 else (if keys[0] > k then 1 else 0) + CountGreater(keys[1..], k)
  }

  function CountEqual(keys: seq<int>, k: int): (n: nat)
    ensures n <= |keys|
  {
    if keys == [] then 0 else (if keys[0] == k then 1 else 0) + CountEqual(keys[1..], k)
  }

  /** Keys strictly between `lo` and `hi`. */
  function CountBetween(keys: seq<int>, lo: int, hi: int): nat
  {
    if keys == [] then 0 else (if lo < keys[0] < hi then 1 else 0) + CountBetween(keys[1..], lo, hi)
  }

  lemma {:induction false} CountGreaterConcat(a: seq<int>, b: seq<int>, k: int)
    ensures CountGreater(a + b, k) == CountGreater(a, k) + CountGreater(b, k)
  {
    if a == [] {
      assert a + b == b;
    } else {
      assert (a + b)[1..] == a[1..] + b;
      CountGreaterConcat(a[1..], b, k);
    }
  }

  /** The number of equal keys is the multiplicity of the key. */
  lemma {:induction false} CountEqualIsMultiplicity(keys: seq<int>, k: int)
    ensures CountEqual(keys, k) == multiset(keys)[k]
  {
    if keys != [] {
      assert keys == [keys[0]] + keys[1..];
      assert multiset(keys) == multiset{keys[0]} + multiset(keys[1..]);
      CountEqualIsMultiplicity(keys[1..], k);
    }
  }

  /** A key that occurs is counted at least once. */
  lemma {:induction false} CountEqualPositive(keys: seq<int>, i: nat)
    requires i < |keys|
    ensures CountEqual(keys, keys[i]) >= 1
  {
    if i > 0 { CountEqualPositive(keys[1..], i - 1); }
  }

  /** The number of greater keys depends only on the multiset of keys. */
  lemma {:induction false} CountGreaterPermutation(a: seq<int>, b: seq<int>, k: int)
    requires multiset(a) == multiset(b)
    ensures CountGreater(a, k) == CountGreater(b, k)
    decreases |a|
  {
    if a == [] {
      assert |multiset(b)| == 0;
    } else {
      var x := a[0];
      assert x in multiset(b) by { assert x in multiset(a); }
      var j :| 0 <= j < |b| && b[j] == x;
      var rest := b[..j] + b[j + 1..];
      assert b == b[..j] + [x] + b[j + 1..];
      assert a == [x] + a[1..];
      assert multiset(a) == multiset{x} + multiset(a[1..]);
      assert multiset(b) == multiset(b[..j]) + multiset{x} + multiset(b[j + 1..]);
      assert multiset(rest) == multiset(b[..j]) + multiset(b[j + 1..]);
      forall y ensures multiset(rest)[y] == multiset(a[1..])[y] {
        assert multiset(a)[y] == multiset{x}[y] + multiset(a[1..])[y];
        assert multiset(b)[y] == multiset(b[..j])[y] + multiset{x}[y] + multiset(b[j + 1..])[y];
      }
      assert multiset(rest) == multiset(a[1..]);
      CountGreaterPermutation(a[1..], rest, k);
      CountGreaterConcat(b[..j] + [x], b[j + 1..], k);
      CountGreaterConcat(b[..j], [x], k);
      CountGreaterConcat(b[..j], b[j + 1..], k);
    }
  }

  /** Below `hi`, a key `lo` is passed by every key `>= hi` and every key between. */
  lemma {:induction false} CountGreaterSplit(keys: seq<int>, lo: int, hi: int)
    requires lo < hi
    ensures CountGreater(keys, lo)
         == CountGreater(keys, hi) + CountEqual(keys, hi) + CountBetween(keys, lo, hi)
  {
    if keys != [] { CountGreaterSplit(keys[1..], lo, hi); }
  }

  lemma {:induction false} CountBetweenNone(keys: seq<int>, lo: int, hi: int)
    requires forall i :: 0 <= i < |keys| ==> !(lo < keys[i] < hi)
    ensures CountBetween(keys, lo, hi) == 0
  {
    if keys != [] { CountBetweenNone(keys[1..], lo, hi); }
  }

  lemma {:induction false} CountGreaterPlusEqual(keys: seq<int>, k: int)
    ensures CountGreater(keys, k) + CountEqual(keys, k) <= |keys|
  {
    if keys != [] { CountGreaterPlusEqual(keys[1..], k); }
  }

  // ---------------------------------------------------------------------
  // The ranking, as pandas computes it

  function DescendingKey(x: int): seq<int> { [-x] }

  /** The keys in descending order (`ascending=False`). */
  function SortDescending(keys: seq<int>): (s: seq<int>)
    ensures multiset(s) == multiset(keys) && |s| == |keys|
    ensures forall i, j :: 0 <= i < j < |s| ==> s[i] >= s[j]
  {
    var s := SortBy(keys, DescendingKey);
    assert forall i, j :: 0 <= i < j < |s| ==> LexLe(DescendingKey(s[i]), DescendingKey(s[j]));
    s
  }

  function FirstIndex(s: seq<int>, k: int): (p: nat)
    requires k in s
    ensures p < |s| && s[p] == k
    ensures forall i :: 0 <= i < p ==> s[i] != k
  {
    if s[0] == k then 0 else 1 + FirstIndex(s[1..], k)
  }

  /**
   * `method="min"`: a key's rank is the smallest 1-based position its tie
   * group occupies in the descending order, which is one more than the
   * number of greater keys.
   */
  function MinRank(keys: seq<int>, k: int): (r: nat)
    requires k in keys
    ensures r == 1 + CountGreater(keys, k)
  {
    assert k in multiset(keys);
    var s := SortDescending(keys);
    assert k in multiset(s);
    SortedFirstIndexCountsGreater(s, k);
    CountGreaterPermutation(s, keys, k);
    1 + FirstIndex(s, k)
  }

  /** The 순위 column: each row's rank is one more than the number of rows valued higher. */
  function Ranks(keys: seq<int>): (r: seq<nat>)
    ensures |r| == |keys|
    ensures forall i :: 0 <= i < |keys| ==> r[i] == 1 + CountGreater(keys, keys[i])
  {
    seq(|keys|, i requires 0 <= i < |keys| => MinRank(keys, keys[i]))
  }

  /** The 공동세대수 column: the number of rows sharing the row's key. */
  function TieCounts(keys: seq<int>): (r: seq<nat>)
    ensures |r| == |keys|
    ensures forall i :: 0 <= i < |keys| ==> r[i] == multiset(keys)[keys[i]]
  {
    assert forall i :: 0 <= i < |keys| ==> CountEqual(keys, keys[i]) == multiset(keys)[keys[i]] by {
      forall i | 0 <= i < |keys| { CountEqualIsMultiplicity(keys, keys[i]); }
    }
    seq(|keys|, i requires 0 <= i < |keys| => CountEqual(keys, keys[i]))
  }

  lemma {:induction false} CountGreaterOfSortedPrefix(s: seq<int>, k: int, p: nat)
    requires p <= |s|
    requires forall i :: 0 <= i < p ==> s[i] > k
    requires forall i :: p <= i < |s| ==> s[i] <= k
    ensures CountGreater(s, k) == p
  {
    if s != [] {
      if p > 0 {
        CountGreaterOfSortedPrefix(s[1..], k, p - 1);
      } else {
        CountGreaterOfSortedPrefix(s[1..], k, 0);
      }
    }
  }

  lemma SortedFirstIndexCountsGreater(s: seq<int>, k: int)
    requires k in s
    requires forall i, j :: 0 <= i < j < |s| ==> s[i] >= s[j]
    ensures CountGreater(s, k) == FirstIndex(s, k)
  {
    var p := FirstIndex(s, k);
    assert forall i :: 0 <= i < p ==> s[i] > k by {
      forall i | 0 <= i < p ensures s[i] > k { assert s[i] >= s[p] && s[i] != k; }
    }
    assert forall i :: p <= i < |s| ==> s[i] <= k by {
      forall i | p <= i < |s| ensures s[i] <= k { if i > p { assert s[p] >= s[i]; } }
    }
    CountGreaterOfSortedPrefix(s, k, p);
  }

  /**
   * Every valid row's rank is 1 + the number of rows with a strictly greater
   * key, so it lies between 1 and the number of valid rows; its tie count is
   * the number of rows with an equal key.
   */
  lemma RankFormula(keys: seq<int>, i: nat)
    requires i < |keys|
    ensures Ranks(keys)[i] == 1 + CountGreater(keys, keys[i])
    ensures 1 <= Ranks(keys)[i] <= |keys|
    ensures TieCounts(keys)[i] == multiset(keys)[keys[i]] >= 1
  {
    CountGreaterPlusEqual(keys, keys[i]);
    CountEqualPositive(keys, i);
    CountEqualIsMultiplicity(keys, keys[i]);
  }

  /**
   * Equal keys share a rank; a strictly greater key gets a strictly smaller
   * rank, smaller by at least the size of its tie group.
   */
  lemma RankOrder(keys: seq<int>, i: nat, j: nat)
    requires i < |keys| && j < |keys|
    ensures keys[i] == keys[j] ==> Ranks(keys)[i] == Ranks(keys)[j] && TieCounts(keys)[i] == TieCounts(keys)[j]
    ensures keys[i] > keys[j] ==> Ranks(keys)[i] + TieCounts(keys)[i] <= Ranks(keys)[j]
    ensures keys[i] > keys[j] ==> Ranks(keys)[i] < Ranks(keys)[j]
  {
    RankFormula(keys, i);
    RankFormula(keys, j);
    if keys[i] > keys[j] { CountGreaterSplit(keys, keys[j], keys[i]); }
  }

  /**
   * The next distinct lower key's rank is this key's rank plus its tie count
   * (the gap the competition scheme skips).
   */
  lemma NextDistinctRank(keys: seq<int>, i: nat, j: nat)
    requires i < |keys| && j < |keys| && keys[j] < keys[i]
    requires forall m :: 0 <= m < |keys| ==> !(keys[j] < keys[m] < keys[i])
    ensures Ranks(keys)[j] == Ranks(keys)[i] + TieCounts(keys)[i]
  {
    RankFormula(keys, i);
    RankFormula(keys, j);
    CountGreaterSplit(keys, keys[j], keys[i]);
    CountBetweenNone(keys, keys[j], keys[i]);
  }

  /** Ranks and tie counts do not depend on the order of the rows. */
  lemma RanksIgnoreRowOrder(a: seq<int>, b: seq<int>, i: nat, j: nat)
    requires multiset(a) == multiset(b)
    requires i < |a| && j < |b| && a[i] == b[j]
    ensures Ranks(a)[i] == Ranks(b)[j] && TieCounts(a)[i] == TieCounts(b)[j]
  {
    RankFormula(a, i);
    RankFormula(b, j);
    CountGreaterPermutation(a, b, a[i]);
  }

  // ---------------------------------------------------------------------
  // Tie counts add up

  function SumTies(ds: seq<int>, keys: seq<int>): nat
  {
    if ds == [] then 0 else CountEqual(keys, ds[0]) + SumTies(ds[1..], keys)
  }

  /** A tie count is the size of a `groupby` group on the key itself. */
  lemma {:induction false} CountEqualIsGroupSize(keys: seq<int>, k: int)
    ensures CountEqual(keys, k) == CountKey(keys, Identity, k)
  {
    if keys != [] { CountEqualIsGroupSize(keys[1..], k); }
  }

  lemma {:induction false} SumTiesIsSumGroups(ds: seq<int>, keys: seq<int>)
    ensures SumTies(ds, keys) == SumGroups(ds, keys, Identity)
  {
    if ds != [] {
      CountEqualIsGroupSize(keys, ds[0]);
      SumTiesIsSumGroups(ds[1..], keys);
    }
  }

  /** Summing the tie count once per distinct key gives the number of valid rows. */
  lemma TieCountsSumToTotal(keys: seq<int>)
    ensures SumTies(Distinct(keys), keys) == |keys|
  {
    SumTiesIsSumGroups(Distinct(keys), keys);
    GroupSizesAddUp(Distinct(keys), keys, Identity);
  }

  // Four, Indicator and CountsOfFour exist only for RanksExample below:
  // they spell out a four-element sequence and its counts one key at a time.

  lemma Four(r: seq<nat>, a: nat, b: nat, c: nat, d: nat)
    requires |r| == 4 && r[0] == a && r[1] == b && r[2] == c && r[3] == d
    ensures r == [a, b, c, d]
  {
  }

  function Indicator(b: bool): nat { if b then 1 else 0 }

  /** Both counts over four keys, one key at a time. */
  lemma CountsOfFour(a: int, b: int, c: int, d: int, k: int)
    ensures CountGreater([a, b, c, d], k) == Indicator(a > k) + Indicator(b > k) + Indicator(c > k) + Indicator(d > k)
    ensures CountEqual([a, b, c, d], k) == Indicator(a == k) + Indicator(b == k) + Indicator(c == k) + Indicator(d == k)
  {
    assert [a, b, c, d][1..] == [b, c, d] && [b, c, d][1..] == [c, d] && [c, d][1..] == [d] && [d][1..] == [];
    assert CountGreater([c, d], k) == Indicator(c > k) + Indicator(d > k);
    assert CountEqual([c, d], k) == Indicator(c == k) + Indicator(d == k);
  }

  /** Keys like 10, 9, 9, 8 rank 1, 2, 2, 4 with tie counts 1, 2, 2, 1. */
  lemma RanksExample(top: int, mid: int, low: int)
    requires top > mid > low
    ensures Ranks([top, mid, mid, low]) == [1, 2, 2, 4]
    ensures TieCounts([top, mid, mid, low]) == [1, 2, 2, 1]
  {
    var keys := [top, mid, mid, low];
    CountsOfFour(top, mid, mid, low, top);
    CountsOfFour(top, mid, mid, low, mid);
    CountsOfFour(top, mid, mid, low, low);
    assert CountGreater(keys, top) == 0 && CountEqual(keys, top) == 1;
    assert CountGreater(keys, mid) == 1 && CountEqual(keys, mid) == 2;
    assert CountGreater(keys, low) == 3 && CountEqual(keys, low) == 1;
    RankFormula(keys, 0);
    RankFormula(keys, 1);
    RankFormula(keys, 2);
    RankFormula(keys, 3);
    Four(Ranks(keys), 1, 2, 2, 4);
    Four(TieCounts(keys), 1, 2, 2, 1);
  }

  // ---------------------------------------------------------------------
  // The selected unit's standing

  /** `sel_rank` (None when not in the ranked rows) and `sel_tied` (0 then). */
  datatype Standing = Standing(rank: Option<nat>, tied: nat)

  /** The entries of `vals` at the rows whose key is `k`: `subset[...]`. */
  function ValuesAtKey(keys: seq<int>, vals: seq<nat>, k: int): (r: seq<nat>)
    requires |vals| == |keys|
    ensures forall x :: x in r ==> exists i :: 0 <= i < |keys| && keys[i] == k && vals[i] == x
    ensures (k in keys) == (r != [])
    ensures forall i :: 0 <= i < |keys| && keys[i] == k ==> vals[i] in r
    ensures |r| == CountEqual(keys, k)
  {
    if keys == [] then []
    else
      var rest := ValuesAtKey(keys[1..], vals[1..], k);
      assert forall x :: x in rest ==> exists i :: 0 <= i < |keys| && keys[i] == k && vals[i] == x by {
        forall x | x in rest ensures exists i :: 0 <= i < |keys| && keys[i] == k && vals[i] == x {
          var i :| 0 <= i < |keys[1..]| && keys[1..][i] == k && vals[1..][i] == x;
          assert keys[i + 1] == k && vals[i + 1] == x;
        }
      }
      assert forall i :: 0 < i < |keys| ==> keys[i] == keys[1..][i - 1] && vals[i] == vals[1..][i - 1];
      (if keys[0] == k then [vals[0]] else []) + rest
  }

  function Min(s: seq<nat>): (m: nat)
    requires s != []
    ensures m in s && forall x :: x in s ==> m <= x
  {
    if |s| == 1 then s[0]
    else
      var r := Min(s[1..]);
      assert forall x :: x in s ==> x == s[0] || x in s[1..];
      if s[0] <= r then s[0] else r
  }

  function Max(s: seq<nat>): (m: nat)
    requires s != []
    ensures m in s && forall x :: x in s ==> x <= m
  {
    if |s| == 1 then s[0]
    else
      var r := Max(s[1..]);
      assert forall x :: x in s ==> x == s[0] || x in s[1..];
      if s[0] >= r then s[0] else r
  }

  /**
   * `subset = work[work["가격키"] == sel_key]`; the rank is the subset's
   * smallest rank and the tie count its largest tie count.
   */
  function SelectedStanding(keys: seq<int>, selKey: Option<int>): (r: Standing)
    ensures selKey.Some? && selKey.value in keys ==> r.rank.Some? && r.rank.value == 1 + CountGreater(keys, selKey.value)
    ensures selKey.Some? && selKey.value in keys ==> r.tied == CountEqual(keys, selKey.value)
    ensures !(selKey.Some? && selKey.value in keys) ==> r.rank == None && r.tied == 0
  {
    match selKey
    case None => Standing(None, 0)
    case Some(k) =>
      var rs := ValuesAtKey(keys, Ranks(keys), k);
      var ts := ValuesAtKey(keys, TieCounts(keys), k);
      if rs == [] then Standing(None, 0)
      else
        assert forall x :: x in rs ==> x == 1 + CountGreater(keys, k) by {
          forall x | x in rs ensures x == 1 + CountGreater(keys, k) {
            var i :| 0 <= i < |keys| && keys[i] == k && Ranks(keys)[i] == x;
            RankFormula(keys, i);
          }
        }
        assert forall x :: x in ts ==> x == CountEqual(keys, k);
        Standing(Some(Min(rs)), Max(ts))
  }

  /** The standing of a key that occurs at position `i`. */
  lemma StandingAt(keys: seq<int>, i: nat)
    requires i < |keys|
    ensures SelectedStanding(keys, Some(keys[i])).rank.Some?
    ensures SelectedStanding(keys, Some(keys[i])).rank.value == 1 + CountGreater(keys, keys[i])
    ensures SelectedStanding(keys, Some(keys[i])).tied == CountEqual(keys, keys[i]) >= 1
  {
    assert keys[i] in keys;
    CountEqualPositive(keys, i);
  }
}
