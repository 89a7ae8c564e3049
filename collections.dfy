/**
 * Sequence helpers standing in for the pandas operations the app uses:
 * column maps, boolean filters, `groupby` keys and group sizes, sums.
 */
module Collections {

  predicate NoDuplicates<T(==)>(s: seq<T>)
  {
    forall i, j :: 0 <= i < j < |s| ==> s[i] != s[j]
  }

  /** The distinct values of `s`, in order of first appearance. */
  function Distinct<T(==,!new)>(s: seq<T>): (r: seq<T>)
    ensures NoDuplicates(r)
    ensures forall x :: x in r <==> x in s
  {
    if s == [] then []
    else
      var init := s[..|s| - 1];
      var rest := Distinct(init);
      InitLast(s);
      if s[|s| - 1] in rest then rest else rest + [s[|s| - 1]]
  }

  /** One more step of a left-to-right loop over `s`. */
  lemma PrefixSnoc<T>(s: seq<T>, i: nat)
    requires i < |s|
    ensures s[..i + 1] == s[..i] + [s[i]]
  {
  }

  /** A nonempty sequence is its first `|s| - 1` elements and its last. */
  lemma InitLast<T>(s: seq<T>)
    requires s != []
    ensures s == s[..|s| - 1] + [s[|s| - 1]]
  {
  }

  /** Dropping the element just appended gives the sequence back. */
  lemma DropLast<T>(s: seq<T>, x: T)
    ensures (s + [x])[..|s|] == s
  {
  }

  /** A sequence that agrees with `b` and then ends in `x` is `b + [x]`. */
  lemma SnocPointwise<T>(a: seq<T>, b: seq<T>, x: T)
    requires |a| == |b| + 1 && a[|b|] == x
    requires forall i :: 0 <= i < |b| ==> a[i] == b[i]
    ensures a == b + [x]
  {
  }

  /** `b` split around its element at `j`. */
  lemma SplitAt<T>(b: seq<T>, j: nat)
    requires j < |b|
    ensures b == b[..j] + ([b[j]] + b[j + 1..])
  {
  }

  /** A column: `f` applied to every row. */
  function Map<T, U>(s: seq<T>, f: T -> U): (r: seq<U>)
    ensures |r| == |s|
  {
    if s == [] then [] else [f(s[0])] + Map(s[1..], f)
  }

  lemma {:induction false} MapIndex<T, U>(s: seq<T>, f: T -> U)
    ensures forall i :: 0 <= i < |s| ==> Map(s, f)[i] == f(s[i])
  {
    if s != [] {
      MapIndex(s[1..], f);
      assert forall i :: 0 < i < |s| ==> Map(s, f)[i] == Map(s[1..], f)[i - 1];
    }
  }

  /** A column of the first `n` rows has no more repeats than the whole column. */
  lemma MapPrefixNoDuplicates<T, U>(s: seq<T>, n: nat, f: T -> U)
    requires n <= |s| && NoDuplicates(Map(s, f))
    ensures NoDuplicates(Map(s[..n], f))
  {
    MapIndex(s, f);
    MapIndex(s[..n], f);
    forall a, b | 0 <= a < b < n ensures Map(s[..n], f)[a] != Map(s[..n], f)[b] {
      assert s[..n][a] == s[a] && s[..n][b] == s[b];
    }
  }

  /**
   * The distinct keys of a column, in any order: every row's key is among
   * them, and each of them is the key of some row.
   */
  lemma DistinctCoversRows<T, K(!new)>(s: seq<T>, f: T -> K, ks: seq<K>)
    requires multiset(ks) == multiset(Distinct(Map(s, f)))
    ensures forall i :: 0 <= i < |s| ==> f(s[i]) in ks
  {
    DistinctSameValues(Map(s, f), ks);
    ColumnHasRowKeys(s, f);
  }

  lemma DistinctKeysAreRows<T, K(!new)>(s: seq<T>, f: T -> K, ks: seq<K>)
    requires multiset(ks) == multiset(Distinct(Map(s, f)))
    ensures forall k :: k in ks ==> exists i :: 0 <= i < |s| && f(s[i]) == k
  {
    DistinctSameValues(Map(s, f), ks);
    ColumnValuesAreRows(s, f);
  }

  /** A reordering of the distinct values holds the same values as the column. */
  lemma DistinctSameValues<U(!new)>(col: seq<U>, ks: seq<U>)
    requires multiset(ks) == multiset(Distinct(col))
    ensures forall k :: k in ks <==> k in col
  {
    var d := Distinct(col);
    forall k ensures k in ks <==> k in col {
      assert k in ks <==> k in multiset(ks);
      assert k in d <==> k in multiset(d);
    }
  }

  lemma ColumnHasRowKeys<T, U>(s: seq<T>, f: T -> U)
    ensures forall i :: 0 <= i < |s| ==> f(s[i]) in Map(s, f)
  {
    forall i | 0 <= i < |s| ensures f(s[i]) in Map(s, f) {
      MapAt(s, f, i);
    }
  }

  lemma ColumnValuesAreRows<T, U>(s: seq<T>, f: T -> U)
    ensures forall k :: k in Map(s, f) ==> exists i :: 0 <= i < |s| && f(s[i]) == k
  {
    forall k | k in Map(s, f) ensures exists i :: 0 <= i < |s| && f(s[i]) == k {
      InColumn(s, f, k);
    }
  }

  /** A value of a column is the key of some row. */
  lemma InColumn<T, U>(s: seq<T>, f: T -> U, k: U)
    requires k in Map(s, f)
    ensures exists i :: 0 <= i < |s| && f(s[i]) == k
  {
    var i :| 0 <= i < |Map(s, f)| && Map(s, f)[i] == k;
    MapAt(s, f, i);
  }

  /** One cell of a column. */
  lemma MapAt<T, U>(s: seq<T>, f: T -> U, i: int)
    requires 0 <= i < |s|
    ensures Map(s, f)[i] == f(s[i])
  {
    MapIndex(s, f);
  }

  /** The rows whose key is `k`: `df[df[col] == k]`, order kept. */
  function Members<T, K(==)>(s: seq<T>, f: T -> K, k: K): (r: seq<T>)
    ensures |r| <= |s|
    ensures forall i :: 0 <= i < |r| ==> f(r[i]) == k && r[i] in s
    ensures forall x :: x in s && f(x) == k ==> x in r
  {
    if s == [] then []
    else
      var rest := Members(s[1..], f, k);
      assert forall i :: 0 <= i < |rest| ==> rest[i] in s by {
        forall i | 0 <= i < |rest| ensures rest[i] in s { assert rest[i] in s[1..]; }
      }
      (if f(s[0]) == k then [s[0]] else []) + rest
  }

  /** The rows satisfying `p`: `df[mask]`, order kept. */
  function Filter<T>(s: seq<T>, p: T -> bool): (r: seq<T>)
    ensures |r| <= |s|
    ensures forall i :: 0 <= i < |r| ==> p(r[i]) && r[i] in multiset(s)
    ensures forall x :: x in s && p(x) ==> x in r
  {
    if s == [] then []
    else
      var rest := Filter(s[1..], p);
      assert s == [s[0]] + s[1..];
      assert multiset(s[1..]) <= multiset(s);
      (if p(s[0]) then [s[0]] else []) + rest
  }

  /** A row with key `k` is a member of group `k`. */
  lemma {:induction false} InMembers<T, K>(s: seq<T>, f: T -> K, x: T)
    requires x in s
    ensures x in Members(s, f, f(x))
  {
    if s[0] != x {
      assert x in s[1..];
      InMembers(s[1..], f, x);
    }
  }

  /** How often a row occurs after the filter: as often as before if it passes, else never. */
  lemma {:induction false} FilterCount<T>(s: seq<T>, p: T -> bool, y: T)
    ensures multiset(Filter(s, p))[y] == if p(y) then multiset(s)[y] else 0
  {
    if s != [] {
      var x, t := s[0], s[1..];
      FilterCount(t, p, y);
      var h := if p(x) then [x] else [];
      assert Filter(s, p) == h + Filter(t, p);
      assert s == [x] + t;
    }
  }

  /** A mask and its negation split the rows, copies included: `df[m]` and `df[~m]`. */
  lemma FilterSplit<T>(s: seq<T>, p: T -> bool, q: T -> bool)
    requires forall x :: q(x) == !p(x)
    ensures multiset(Filter(s, p)) + multiset(Filter(s, q)) == multiset(s)
  {
    forall y ensures (multiset(Filter(s, p)) + multiset(Filter(s, q)))[y] == multiset(s)[y] {
      FilterCount(s, p, y);
      FilterCount(s, q, y);
    }
  }

  /** A mask and its negation split the rows: `df[m]` and `df[~m]`. */
  lemma {:induction false} FilterComplement<T>(s: seq<T>, p: T -> bool, q: T -> bool)
    requires forall x :: q(x) == !p(x)
    ensures |Filter(s, p)| + |Filter(s, q)| == |s|
  {
    if s != [] { FilterComplement(s[1..], p, q); }
  }

  function Sum<T>(s: seq<T>, f: T -> nat): nat
  {
    if s == [] then 0 else f(s[0]) + Sum(s[1..], f)
  }

  lemma {:induction false} SumConcat<T>(a: seq<T>, b: seq<T>, f: T -> nat)
    ensures Sum(a + b, f) == Sum(a, f) + Sum(b, f)
  {
    if a == [] {
      assert a + b == b;
    } else {
      assert (a + b)[1..] == a[1..] + b;
      SumConcat(a[1..], b, f);
    }
  }

  /** Where an element of `b` sits. */
  lemma Locate<T>(b: seq<T>, x: T) returns (j: nat)
    requires x in multiset(b)
    ensures j < |b| && b[j] == x
  {
    assert x in b;
    j :| 0 <= j < |b| && b[j] == x;
  }

  /** `b` with position `j` removed. */
  function Without<T>(b: seq<T>, j: nat): seq<T>
    requires j < |b|
  {
    b[..j] + b[j + 1..]
  }

  /** Removing the first element of `a` and its copy in `b` keeps them permutations. */
  lemma WithoutPermutation<T>(a: seq<T>, b: seq<T>, j: nat)
    requires multiset(a) == multiset(b) && a != [] && j < |b| && b[j] == a[0]
    ensures multiset(a[1..]) == multiset(Without(b, j))
  {
    WithoutMultiset(b, j);
    HeadMultiset(a);
  }

  lemma WithoutMultiset<T>(b: seq<T>, j: nat)
    requires j < |b|
    ensures multiset(Without(b, j)) == multiset(b) - multiset{b[j]}
  {
    SplitAt(b, j);
  }

  lemma HeadMultiset<T>(a: seq<T>)
    requires a != []
    ensures multiset(a[1..]) == multiset(a) - multiset{a[0]}
  {
    assert a == [a[0]] + a[1..];
  }

  lemma SumCons<T>(x: T, r: seq<T>, f: T -> nat)
    ensures Sum([x] + r, f) == f(x) + Sum(r, f)
  {
    assert ([x] + r)[1..] == r;
  }

  lemma SumWithout<T>(b: seq<T>, j: nat, f: T -> nat)
    requires j < |b|
    ensures Sum(b, f) == f(b[j]) + Sum(Without(b, j), f)
  {
    var l, r := b[..j], b[j + 1..];
    SplitAt(b, j);
    SumConcat(l, [b[j]] + r, f);
    SumCons(b[j], r, f);
    SumConcat(l, r, f);
  }

  /** A sum over rows does not depend on the order of the rows. */
  lemma {:induction false} SumPermutation<T>(a: seq<T>, b: seq<T>, f: T -> nat)
    requires multiset(a) == multiset(b)
    ensures Sum(a, f) == Sum(b, f)
    decreases |a|
  {
    if a == [] {
      assert |b| == |multiset(b)| == 0;
    } else {
      assert a[0] in multiset(a);
      var j := Locate(b, a[0]);
      WithoutPermutation(a, b, j);
      SumPermutation(a[1..], Without(b, j), f);
      SumWithout(b, j, f);
    }
  }

  lemma {:induction false} MapConcat<T, U>(a: seq<T>, b: seq<T>, f: T -> U)
    ensures Map(a + b, f) == Map(a, f) + Map(b, f)
  {
    if a == [] {
      assert a + b == b;
    } else {
      assert (a + b)[1..] == a[1..] + b;
      MapConcat(a[1..], b, f);
    }
  }

  lemma MapWithout<T, U>(b: seq<T>, j: nat, f: T -> U)
    requires j < |b|
    ensures multiset(Map(b, f)) == multiset{f(b[j])} + multiset(Map(Without(b, j), f))
  {
    var l, r := b[..j], b[j + 1..];
    SplitAt(b, j);
    MapConcat(l, [b[j]] + r, f);
    assert ([b[j]] + r)[1..] == r;
    assert Map([b[j]] + r, f) == [f(b[j])] + Map(r, f);
    MapConcat(l, r, f);
  }

  /** A column of a permuted table is the permuted column. */
  lemma {:induction false} MapPermutation<T, U>(a: seq<T>, b: seq<T>, f: T -> U)
    requires multiset(a) == multiset(b)
    ensures multiset(Map(a, f)) == multiset(Map(b, f))
    decreases |a|
  {
    if a == [] {
      assert |b| == |multiset(b)| == 0;
    } else {
      assert a[0] in multiset(a);
      var j := Locate(b, a[0]);
      WithoutPermutation(a, b, j);
      MapPermutation(a[1..], Without(b, j), f);
      MapWithout(b, j, f);
    }
  }

  lemma {:induction false} NoDuplicatesCounts<T>(s: seq<T>)
    requires NoDuplicates(s)
    ensures forall x :: multiset(s)[x] <= 1
  {
    if s != [] {
      NoDuplicatesCounts(s[1..]);
      assert s == [s[0]] + s[1..];
      assert s[0] !in s[1..] by {
        forall i | 0 <= i < |s[1..]| ensures s[1..][i] != s[0] { assert s[1..][i] == s[i + 1]; }
      }
    }
  }

  lemma {:induction false} CountsNoDuplicates<T>(s: seq<T>)
    requires forall x :: multiset(s)[x] <= 1
    ensures NoDuplicates(s)
  {
    if s != [] {
      assert s == [s[0]] + s[1..];
      assert multiset(s) == multiset{s[0]} + multiset(s[1..]);
      assert forall x :: multiset(s[1..])[x] <= multiset(s)[x];
      CountsNoDuplicates(s[1..]);
      assert multiset(s[1..])[s[0]] == 0;
      forall i, j | 0 <= i < j < |s| ensures s[i] != s[j] {
        if i > 0 { assert s[i] == s[1..][i - 1] && s[j] == s[1..][j - 1]; }
        else { assert s[j] in s[1..] by { assert s[j] == s[1..][j - 1]; } }
      }
    }
  }

  /** Reordering cannot create or remove duplicates. */
  lemma NoDuplicatesPermutation<T>(a: seq<T>, b: seq<T>)
    requires multiset(a) == multiset(b) && NoDuplicates(a)
    ensures NoDuplicates(b)
  {
    NoDuplicatesCounts(a);
    CountsNoDuplicates(b);
  }

  // ---------------------------------------------------------------------
  // Group sizes

  /** The size of the group with key `k`: `groupby(f).size()[k]`. */
  function CountKey<T, K(==)>(s: seq<T>, f: T -> K, k: K): (n: nat)
    ensures n == |Members(s, f, k)|
  {
    if s == [] then 0 else (if f(s[0]) == k then 1 else 0) + CountKey(s[1..], f, k)
  }

  function SumGroups<T, K(==)>(ds: seq<K>, s: seq<T>, f: T -> K): nat
  {
    if ds == [] then 0 else CountKey(s, f, ds[0]) + SumGroups(ds[1..], s, f)
  }

  lemma {:induction false} SumGroupsCons<T, K>(ds: seq<K>, x: T, s: seq<T>, f: T -> K)
    ensures SumGroups(ds, [x] + s, f) == CountKey(ds, Identity, f(x)) + SumGroups(ds, s, f)
  {
    if ds != [] {
      assert ([x] + s)[1..] == s;
      SumGroupsCons(ds[1..], x, s, f);
    }
  }

  function Identity<K>(k: K): K { k }

  lemma {:induction false} CountKeyOnce<K>(ds: seq<K>, k: K)
    requires NoDuplicates(ds) && k in ds
    ensures CountKey(ds, Identity, k) == 1
  {
    if ds[0] == k {
      CountKeyAbsent(ds[1..], k);
    } else {
      CountKeyOnce(ds[1..], k);
    }
  }

  lemma {:induction false} CountKeyAbsent<K>(ds: seq<K>, k: K)
    requires k !in ds
    ensures CountKey(ds, Identity, k) == 0
  {
    if ds != [] { CountKeyAbsent(ds[1..], k); }
  }

  lemma {:induction false} SumGroupsEmpty<T, K>(ds: seq<K>, f: T -> K)
    ensures SumGroups(ds, [], f) == 0
  {
    if ds != [] { SumGroupsEmpty(ds[1..], f); }
  }

  /**
   * Group sizes add up: summed over a duplicate-free list of keys that
   * includes every row's key, the group sizes count every row exactly once.
   */
  lemma {:induction false} GroupSizesAddUp<T, K>(ds: seq<K>, s: seq<T>, f: T -> K)
    requires NoDuplicates(ds)
    requires forall i :: 0 <= i < |s| ==> f(s[i]) in ds
    ensures SumGroups(ds, s, f) == |s|
  {
    if s == [] {
      SumGroupsEmpty(ds, f);
    } else {
      assert s == [s[0]] + s[1..];
      SumGroupsCons(ds, s[0], s[1..], f);
      CountKeyOnce(ds, f(s[0]));
      GroupSizesAddUp(ds, s[1..], f);
    }
  }
}
