/**
 * The similar-value finder: the units of the whole sheet whose valuation
 * is nearest the selected unit's, grouped by zone, building and size class,
 * each group's floors compressed into ranges, with the group's median as
 * its representative value (apgujeong_rank_app.py:505-567).
 */
module Similar {
  import opened Options
  import opened Digits
  import opened Collections
  import opened Sorting
  import opened Ranges
  import opened Units
  import opened CoRank
  import Price

  // ---------------------------------------------------------------------
  // The pool (apgujeong_rank_app.py:509-520)

  /** `np.isclose(a, b, rtol=0, atol=1e-6)`, on values scaled by 10^6. */
  const Tolerance: nat := 1

  predicate Close(a: int, b: int) { -(Tolerance as int) <= a - b <= Tolerance }

  function Abs(x: int): nat { if x < 0 then -x else x }

  /** The unit picked in the selectors, with its valuation. */
  datatype Choice = Choice(zone: string, building: string, unitNo: string, value: int)

  /** The exclusion mask: the chosen unit itself. */
  predicate IsChoice(u: Unit, ch: Choice)
  {
    u.zone == ch.zone && u.building == ch.building && u.unitNo == ch.unitNo
    && u.value.Some? && Close(u.value.value, ch.value)
  }

  predicate Eligible(u: Unit, ch: Choice) { u.value.Some? && !IsChoice(u, ch) }

  /** A row of the pool: the unit, its value, `유사도` and its row position in `df`. */
  datatype Candidate = Candidate(unit: Unit, value: int, distance: nat, position: nat)

  /**
   * The valued rows of `df` other than the chosen unit, in `df` order, each
   * with its distance from the chosen unit's value.
   */
  function Pool(df: seq<Unit>, ch: Choice): (p: seq<Candidate>)
    ensures forall k :: 0 <= k < |p| ==>
              p[k].position < |df| && p[k].unit == df[p[k].position] && Eligible(p[k].unit, ch)
              && p[k].unit.value == Some(p[k].value) && p[k].distance == Abs(p[k].value - ch.value)
    ensures forall k, l :: 0 <= k < l < |p| ==> p[k].position < p[l].position
  {
    if df == [] then []
    else
      var n := |df| - 1;
      var rest := Pool(df[..n], ch);
      assert forall k :: 0 <= k < |rest| ==> df[..n][rest[k].position] == df[rest[k].position];
      var u := df[n];
      if Eligible(u, ch) then rest + [Candidate(u, u.value.value, Abs(u.value.value - ch.value), n)] else rest
  }

  /** Every eligible row of `df` is in the pool. */
  lemma {:induction false} PoolComplete(df: seq<Unit>, ch: Choice, i: nat)
    requires i < |df| && Eligible(df[i], ch)
    ensures exists k :: 0 <= k < |Pool(df, ch)| && Pool(df, ch)[k].position == i
  {
    var n := |df| - 1;
    if i < n {
      assert df[..n][i] == df[i];
      PoolComplete(df[..n], ch, i);
      var k :| 0 <= k < |Pool(df[..n], ch)| && Pool(df[..n], ch)[k].position == i;
      assert Pool(df, ch)[k] == Pool(df[..n], ch)[k];
    } else {
      assert Pool(df, ch)[|Pool(df, ch)| - 1].position == i;
    }
  }

  // ---------------------------------------------------------------------
  // The candidates (apgujeong_rank_app.py:522)

  const MaxCandidates: nat := 1500

  /**
   * `sort_values(["유사도", "감정가_클린"], ascending=[True, False])`, a
   * stable sort: rows that tie on both keep their `df` order.
   */
  function CandidateKey(c: Candidate): seq<int> { [c.distance, -c.value, c.position] }

  /** The (at most) 1500 pool rows nearest the chosen value. */
  function Candidates(pool: seq<Candidate>): (cand: seq<Candidate>)
    ensures |cand| == if |pool| < MaxCandidates then |pool| else MaxCandidates
  {
    Take(SortBy(pool, CandidateKey), MaxCandidates)
  }

  /** Nearer first; among equally near, the higher value first. */
  predicate NearerOrSame(a: Candidate, b: Candidate)
  {
    a.distance < b.distance || (a.distance == b.distance && a.value >= b.value)
  }

  lemma KeyOrderIsNearer(a: Candidate, b: Candidate)
    requires LexLe(CandidateKey(a), CandidateKey(b))
    ensures NearerOrSame(a, b)
  {
    LexHead(a.distance, [-a.value, a.position], b.distance, [-b.value, b.position]);
    LexHead(-a.value, [a.position], -b.value, [b.position]);
  }

  /** The candidates are sorted by distance, then by value descending. */
  lemma CandidatesOrdered(pool: seq<Candidate>, i: nat, j: nat)
    requires i < j < |Candidates(pool)|
    ensures NearerOrSame(Candidates(pool)[i], Candidates(pool)[j])
  {
    var sorted := SortBy(pool, CandidateKey);
    assert Candidates(pool)[i] == sorted[i] && Candidates(pool)[j] == sorted[j];
    KeyOrderIsNearer(sorted[i], sorted[j]);
  }

  /** No pool row left out is nearer than a candidate that was kept. */
  lemma CandidatesAreNearest(pool: seq<Candidate>, c: Candidate, x: Candidate)
    requires c in Candidates(pool) && x in pool && x !in Candidates(pool)
    ensures NearerOrSame(c, x)
  {
    TakeSortedIsSmallest(pool, CandidateKey, MaxCandidates, x, c);
    KeyOrderIsNearer(c, x);
  }

  /** Every candidate is a pool row. */
  lemma CandidatesFromPool(pool: seq<Candidate>, c: Candidate)
    requires c in Candidates(pool)
    ensures c in pool
  {
    var sorted := SortBy(pool, CandidateKey);
    assert c in sorted;
    SortByMembers(pool, CandidateKey, c);
  }

  // ---------------------------------------------------------------------
  // The median (apgujeong_rank_app.py:549)

  function IntKey(x: int): seq<int> { [x] }

  /**
   * `Series.median()`: the middle value, or the mean of the two middle
   * values. It halves the group: at most half of the values lie strictly
   * below it and at most half strictly above it.
   */
  function Median(vs: seq<int>): (m: real)
    requires vs != []
    ensures 2 * Sum(vs, Below(m)) <= |vs|
    ensures 2 * Sum(vs, Above(m)) <= |vs|
  {
    var s := SortBy(vs, IntKey);
    MiddleSplits(s);
    BelowAtMost(s, Middle(s), |s| / 2);
    AboveAtMost(s, Middle(s), (|s| + 1) / 2);
    SumPermutation(vs, s, Below(Middle(s)));
    SumPermutation(vs, s, Above(Middle(s)));
    Middle(s)
  }

  function Middle(s: seq<int>): real
    requires s != []
  {
    var n := |s|;
    if n % 2 == 1 then s[n / 2] as real else (s[n / 2 - 1] + s[n / 2]) as real / 2.0
  }

  function Below(m: real): int -> nat { x => if (x as real) < m then 1 else 0 }
  function Above(m: real): int -> nat { x => if (x as real) > m then 1 else 0 }

  lemma SortedInts(s: seq<int>, i: nat, j: nat)
    requires SortedBy(s, IntKey) && i <= j < |s|
    ensures s[i] <= s[j]
  {
    if i < j {
      assert LexLe([s[i]], [s[j]]);
      LexHead(s[i], [], s[j], []);
    }
  }

  lemma {:induction false} SumAllZero(s: seq<int>, f: int -> nat)
    requires forall i :: 0 <= i < |s| ==> f(s[i]) == 0
    ensures Sum(s, f) == 0
  {
    if s != [] { SumAllZero(s[1..], f); }
  }

  lemma {:induction false} SumIndicatorAtMost(s: seq<int>, f: int -> nat)
    requires forall i :: 0 <= i < |s| ==> f(s[i]) <= 1
    ensures Sum(s, f) <= |s|
  {
    if s != [] { SumIndicatorAtMost(s[1..], f); }
  }

  /** Only the first `h` values can lie below `m` when none after them does. */
  lemma BelowAtMost(s: seq<int>, m: real, h: nat)
    requires h <= |s| && forall i :: h <= i < |s| ==> s[i] as real >= m
    ensures Sum(s, Below(m)) <= h
  {
    assert s == s[..h] + s[h..];
    SumConcat(s[..h], s[h..], Below(m));
    SumAllZero(s[h..], Below(m));
    SumIndicatorAtMost(s[..h], Below(m));
  }

  /** Only the values from `lo` on can lie above `m` when none before does. */
  lemma AboveAtMost(s: seq<int>, m: real, lo: nat)
    requires lo <= |s| && forall i :: 0 <= i < lo ==> s[i] as real <= m
    ensures Sum(s, Above(m)) <= |s| - lo
  {
    assert s == s[..lo] + s[lo..];
    SumConcat(s[..lo], s[lo..], Above(m));
    SumAllZero(s[..lo], Above(m));
    SumIndicatorAtMost(s[lo..], Above(m));
  }

  /** In a sorted sequence, the upper half is at least the middle and the lower half at most. */
  lemma MiddleSplits(s: seq<int>)
    requires s != [] && SortedBy(s, IntKey)
    ensures forall i :: |s| / 2 <= i < |s| ==> s[i] as real >= Middle(s)
    ensures forall i :: 0 <= i < (|s| + 1) / 2 ==> s[i] as real <= Middle(s)
  {
    var n := |s|;
    var m := Middle(s);
    var h, lo := n / 2, (n + 1) / 2;
    if n % 2 == 1 {
      assert lo - 1 == h && m == s[h] as real;
    } else {
      SortedInts(s, h - 1, h);
      var a, b := s[h - 1] as real, s[h] as real;
      assert lo == h && m == (a + b) / 2.0;
      assert a <= m <= b;
    }
    forall i | h <= i < n ensures s[i] as real >= m { SortedInts(s, h, i); }
    forall i | 0 <= i < lo ensures s[i] as real <= m { SortedInts(s, i, lo - 1); }
  }

  /** The median lies between the group's smallest and largest value. */
  lemma MedianWithinValues(vs: seq<int>)
    requires vs != []
    ensures exists i :: 0 <= i < |vs| && vs[i] as real <= Median(vs)
    ensures exists j :: 0 <= j < |vs| && Median(vs) <= vs[j] as real
  {
    var s := SortBy(vs, IntKey);
    MiddleSplits(s);
    assert s[0] in multiset(vs) && s[|s| - 1] in multiset(vs);
    var i :| 0 <= i < |vs| && vs[i] == s[0];
    var j :| 0 <= j < |vs| && vs[j] == s[|s| - 1];
  }

  // ---------------------------------------------------------------------
  // The groups (apgujeong_rank_app.py:524-558)

  /** `groupby(["구역", "동"])`, with "평형" when the sheet has that column. */
  function GroupKey(c: Candidate, withSize: bool): seq<string>
  {
    [c.unit.zone, c.unit.building] + (if withSize then [c.unit.size] else [])
  }

  function GroupKeyOf(withSize: bool): Candidate -> seq<string> { c => GroupKey(c, withSize) }

  function KeyLength(withSize: bool): nat { if withSize then 3 else 2 }

  predicate CandidateHasFloor(c: Candidate) { FloorOf(c.unit).Some? }
  function CandidateUnit(c: Candidate): Unit { c.unit }
  function CandidateValue(c: Candidate): int { c.value }

  /**
   * The group keys in the order `groupby` visits them, Python's tuple
   * order: no key twice, each naming a non-empty group, and every row's
   * key among them.
   */
  function GroupKeys(fl: seq<Candidate>, withSize: bool): (keys: seq<seq<string>>)
    ensures ValidKeys(keys, fl, withSize)
    ensures NoDuplicates(keys)
    ensures forall i :: 0 <= i < |fl| ==> GroupKey(fl[i], withSize) in keys
  {
    var f := GroupKeyOf(withSize);
    var d := Distinct(Map(fl, f));
    var keys := SortBy(d, EncodeTuple);
    NoDuplicatesPermutation(d, keys);
    DistinctCoversRows(fl, f, keys);
    DistinctKeysAreRows(fl, f, keys);
    assert ValidKeys(keys, fl, withSize) by {
      forall i | 0 <= i < |keys| ensures ValidKey(keys[i], fl, withSize) {
        assert keys[i] in keys;
        var m :| 0 <= m < |fl| && f(fl[m]) == keys[i];
        InMembers(fl, f, fl[m]);
      }
    }
    keys
  }

  function GroupOf(fl: seq<Candidate>, key: seq<string>, withSize: bool): seq<Candidate>
  {
    Members(fl, GroupKeyOf(withSize), key)
  }

  /** Size classes that `_dong_label` treats as missing. */
  const Placeholders: seq<string> := ["", "nan", "None"]

  /** `_dong_label(d, p)`: the building label, then the size class in parentheses. */
  function SizedLabel(building: string, size: Option<string>): (r: string)
    ensures |r| >= |BuildingLabel(building)| && r[..|BuildingLabel(building)|] == BuildingLabel(building)
    ensures r == BuildingLabel(building) <==> size.None? || Price.Strip(size.value) in Placeholders
  {
    var base := BuildingLabel(building);
    if size.Some? && Price.Strip(size.value) !in Placeholders then base + " (" + size.value + ")" else base
  }

  /** One line of the table, with the two hidden sort columns and the group key. */
  datatype SimilarRow = SimilarRow(zone: string, display: string, ranges: seq<Range>, text: string,
                                   count: nat, representative: real, zoneNum: nat, buildingNum: nat,
                                   group: seq<string>)

  function RowGroup(r: SimilarRow): seq<string> { r.group }

  /**
   * A group's line: its floor ranges are the canonical cover of exactly the
   * floors of the group's candidates, the count is the group's size, the
   * representative value is the median of the group's values, and the
   * hidden sort columns are the numbers in the zone and building.
   */
  function RowForGroup(fl: seq<Candidate>, key: seq<string>, withSize: bool): (r: SimilarRow)
    requires |key| == KeyLength(withSize) && GroupOf(fl, key, withSize) != []
    ensures var g := GroupOf(fl, key, withSize);
            && r.group == key && r.zone == key[0]
            && r.zoneNum == NameNumber(key[0]) && r.buildingNum == NameNumber(key[1])
            && Canonical(r.ranges) && r.text == JoinRanges(r.ranges)
            && r.count == CountKey(fl, GroupKeyOf(withSize), key)
            && r.representative == Median(Map(g, CandidateValue))
            && forall x :: x in Expand(r.ranges) <==> exists i :: 0 <= i < |g| && FloorOf(g[i].unit) == Some(x)
  {
    var g := GroupOf(fl, key, withSize);
    CandidateFloorsCover(g);
    var rs := Compress(SortedSet(FloorsOf(Map(g, CandidateUnit))));
    SimilarRow(key[0], SizedLabel(key[1], if withSize then Some(key[2]) else None), rs, JoinRanges(rs), |g|,
               Median(Map(g, CandidateValue)), NameNumber(key[0]), NameNumber(key[1]), key)
  }

  /** The compressed floors of a group cover exactly the floors of its candidates. */
  lemma CandidateFloorsCover(g: seq<Candidate>)
    ensures var rs := Compress(SortedSet(FloorsOf(Map(g, CandidateUnit))));
            && Canonical(rs)
            && forall x :: x in Expand(rs) <==> exists i :: 0 <= i < |g| && FloorOf(g[i].unit) == Some(x)
  {
    var us := Map(g, CandidateUnit);
    MapIndex(g, CandidateUnit);
    assert forall x :: (exists i :: 0 <= i < |us| && FloorOf(us[i]) == Some(x))
                       <==> (exists i :: 0 <= i < |g| && FloorOf(g[i].unit) == Some(x)) by {
      assert forall i :: 0 <= i < |g| ==> us[i] == g[i].unit;
    }
  }

  /** A key of the right shape naming a non-empty group. */
  predicate ValidKey(key: seq<string>, fl: seq<Candidate>, withSize: bool)
  {
    |key| == KeyLength(withSize) && GroupOf(fl, key, withSize) != []
  }

  predicate ValidKeys(keys: seq<seq<string>>, fl: seq<Candidate>, withSize: bool)
  {
    forall i :: 0 <= i < |keys| ==> ValidKey(keys[i], fl, withSize)
  }

  function RowsForGroups(keys: seq<seq<string>>, fl: seq<Candidate>, withSize: bool): (rows: seq<SimilarRow>)
    requires ValidKeys(keys, fl, withSize)
    ensures |rows| == |keys|
    ensures forall i :: 0 <= i < |keys| ==> rows[i] == RowForGroup(fl, keys[i], withSize)
  {
    seq(|keys|, i requires 0 <= i < |keys| => RowForGroup(fl, keys[i], withSize))
  }

  // ---------------------------------------------------------------------
  // The table (apgujeong_rank_app.py:560-567)

  const MaxRows: nat := 10

  /**
   * `sort_values(["_sort_zone", "_sort_dong", "세대수"], ascending=[True,
   * True, False])`, stable over the groups' `groupby` order.
   */
  function SimilarKey(r: SimilarRow): seq<int>
  {
    [r.zoneNum as int] + ([r.buildingNum as int] + ([-(r.count as int)] + EncodeTuple(r.group)))
  }

  /**
   * Every group's line, before the final sort: one line per group of the
   * floored candidates, in `groupby` order, so no group has two lines.
   */
  function AllRows(df: seq<Unit>, ch: Choice, withSize: bool): (rows: seq<SimilarRow>)
    ensures Map(rows, RowGroup) == GroupKeys(Filter(Candidates(Pool(df, ch)), CandidateHasFloor), withSize)
    ensures NoDuplicates(Map(rows, RowGroup))
  {
    var fl := Filter(Candidates(Pool(df, ch)), CandidateHasFloor);
    RowGroups(GroupKeys(fl, withSize), fl, withSize);
    RowsForGroups(GroupKeys(fl, withSize), fl, withSize)
  }

  /** The table the finder shows. */
  function SimilarOf(df: seq<Unit>, ch: Choice, withSize: bool): (r: seq<SimilarRow>)
    ensures |r| <= MaxRows
    ensures |r| == if |AllRows(df, ch, withSize)| < MaxRows then |AllRows(df, ch, withSize)| else MaxRows
    ensures forall x :: x in r ==> x in AllRows(df, ch, withSize)
  {
    var all := AllRows(df, ch, withSize);
    TakeSortedMembers(all, SimilarKey, MaxRows);
    Take(SortBy(all, SimilarKey), MaxRows)
  }

  /** The body of the groupby loop, for one group. */
  method BuildGroupRow(fl: seq<Candidate>, key: seq<string>, withSize: bool) returns (row: SimilarRow)
    requires |key| == KeyLength(withSize) && GroupOf(fl, key, withSize) != []
    ensures row == RowForGroup(fl, key, withSize)
  {
    var g := GroupOf(fl, key, withSize);
    var floors := SortedSet(FloorsOf(Map(g, CandidateUnit)));
    var ranges := ContiguousRanges(floors);
    var text := JoinRanges(ranges);
    var size := if withSize then Some(key[2]) else None;
    row := SimilarRow(key[0], SizedLabel(key[1], size), ranges, text, |g|,
                      Median(Map(g, CandidateValue)), NameNumber(key[0]), NameNumber(key[1]), key);
  }

  lemma ValidKeysSnoc(keys: seq<seq<string>>, key: seq<string>, fl: seq<Candidate>, withSize: bool)
    requires ValidKeys(keys, fl, withSize) && ValidKey(key, fl, withSize)
    ensures ValidKeys(keys + [key], fl, withSize)
  {
    var ks := keys + [key];
    forall i | 0 <= i < |ks| ensures ValidKey(ks[i], fl, withSize) {
      if i < |keys| { assert ks[i] == keys[i]; }
    }
  }

  lemma RowsForGroupsSnoc(keys: seq<seq<string>>, key: seq<string>, fl: seq<Candidate>, withSize: bool)
    requires ValidKeys(keys, fl, withSize) && ValidKey(key, fl, withSize) && ValidKeys(keys + [key], fl, withSize)
    ensures RowsForGroups(keys + [key], fl, withSize) == RowsForGroups(keys, fl, withSize) + [RowForGroup(fl, key, withSize)]
  {
    var ks := keys + [key];
    var a, b := RowsForGroups(ks, fl, withSize), RowsForGroups(keys, fl, withSize);
    forall i | 0 <= i < |b| ensures a[i] == b[i] {
      assert ks[i] == keys[i];
    }
    assert ks[|keys|] == key;
    SnocPointwise(a, b, RowForGroup(fl, key, withSize));
  }

  /** `rows2`, built group by group. */
  method BuildGroupRows(fl: seq<Candidate>, keys: seq<seq<string>>, withSize: bool) returns (rows: seq<SimilarRow>)
    requires ValidKeys(keys, fl, withSize)
    ensures rows == RowsForGroups(keys, fl, withSize)
  {
    rows := [];
    for i := 0 to |keys|
      invariant ValidKeys(keys[..i], fl, withSize)
      invariant rows == RowsForGroups(keys[..i], fl, withSize)
    {
      assert ValidKey(keys[i], fl, withSize);
      var row := BuildGroupRow(fl, keys[i], withSize);
      rows := rows + [row];
      PrefixSnoc(keys, i);
      ValidKeysSnoc(keys[..i], keys[i], fl, withSize);
      RowsForGroupsSnoc(keys[..i], keys[i], fl, withSize);
    }
    assert keys[..|keys|] == keys;
  }

  /**
   * The finder: nothing when the selected unit has no valuation, otherwise
   * the table for the selected unit (possibly empty).
   */
  method FindSimilar(df: seq<Unit>, zone: string, building: string, unitNo: string,
                     selValue: Option<int>, withSize: bool) returns (r: Option<seq<SimilarRow>>)
    ensures selValue.None? ==> r == None
    ensures selValue.Some? ==> r == Some(SimilarOf(df, Choice(zone, building, unitNo, selValue.value), withSize))
  {
    if selValue.None? {
      return None;
    }
    var ch := Choice(zone, building, unitNo, selValue.value);
    var pool := Pool(df, ch);
    var cand := Candidates(pool);
    var fl := Filter(cand, CandidateHasFloor);
    var keys := GroupKeys(fl, withSize);
    var rows := BuildGroupRows(fl, keys, withSize);
    r := Some(Take(SortBy(rows, SimilarKey), MaxRows));
  }

  // ---------------------------------------------------------------------
  // Properties of the table

  /** Zone number first, then building number, then the larger group first. */
  predicate ShownBefore(a: SimilarRow, b: SimilarRow)
  {
    a.zoneNum < b.zoneNum
    || (a.zoneNum == b.zoneNum && a.buildingNum < b.buildingNum)
    || (a.zoneNum == b.zoneNum && a.buildingNum == b.buildingNum && a.count >= b.count)
  }

  lemma KeyOrderIsShownOrder(a: SimilarRow, b: SimilarRow)
    requires LexLe(SimilarKey(a), SimilarKey(b))
    ensures ShownBefore(a, b)
  {
    ThreeColumnOrder(a.zoneNum, a.buildingNum, a.count, EncodeTuple(a.group),
                     b.zoneNum, b.buildingNum, b.count, EncodeTuple(b.group));
  }

  /** Ascending, ascending, descending: what comparing such a key decides. */
  lemma ThreeColumnOrder(z1: int, b1: int, c1: int, t1: seq<int>, z2: int, b2: int, c2: int, t2: seq<int>)
    requires LexLe([z1] + ([b1] + ([-c1] + t1)), [z2] + ([b2] + ([-c2] + t2)))
    ensures z1 < z2 || (z1 == z2 && b1 < b2) || (z1 == z2 && b1 == b2 && c1 >= c2)
  {
    LexHead(z1, [b1] + ([-c1] + t1), z2, [b2] + ([-c2] + t2));
    LexHead(b1, [-c1] + t1, b2, [-c2] + t2);
    LexHead(-c1, t1, -c2, t2);
  }

  /** The table is in (zone number, building number, count descending) order. */
  lemma SimilarOrdered(df: seq<Unit>, ch: Choice, withSize: bool, i: nat, j: nat)
    requires i < j < |SimilarOf(df, ch, withSize)|
    ensures ShownBefore(SimilarOf(df, ch, withSize)[i], SimilarOf(df, ch, withSize)[j])
  {
    var sorted := SortBy(AllRows(df, ch, withSize), SimilarKey);
    assert SimilarOf(df, ch, withSize)[i] == sorted[i] && SimilarOf(df, ch, withSize)[j] == sorted[j];
    KeyOrderIsShownOrder(sorted[i], sorted[j]);
  }

  /** The table keeps the first ten groups: no group left out precedes one shown. */
  lemma SimilarKeepsFirst(df: seq<Unit>, ch: Choice, withSize: bool, shown: SimilarRow, other: SimilarRow)
    requires shown in SimilarOf(df, ch, withSize)
    requires other in AllRows(df, ch, withSize) && other !in SimilarOf(df, ch, withSize)
    ensures ShownBefore(shown, other)
  {
    TakeSortedIsSmallest(AllRows(df, ch, withSize), SimilarKey, MaxRows, other, shown);
    KeyOrderIsShownOrder(shown, other);
  }

  lemma RowGroups(keys: seq<seq<string>>, fl: seq<Candidate>, withSize: bool)
    requires ValidKeys(keys, fl, withSize)
    ensures Map(RowsForGroups(keys, fl, withSize), RowGroup) == keys
  {
    var rows := RowsForGroups(keys, fl, withSize);
    MapIndex(rows, RowGroup);
    forall i | 0 <= i < |keys| ensures Map(rows, RowGroup)[i] == keys[i] {
      assert rows[i] == RowForGroup(fl, keys[i], withSize);
    }
  }

  /** Each group has at most one line of the table. */
  lemma SimilarGroupsDistinct(df: seq<Unit>, ch: Choice, withSize: bool)
    ensures NoDuplicates(Map(SimilarOf(df, ch, withSize), RowGroup))
  {
    var rows := AllRows(df, ch, withSize);
    var sorted := SortBy(rows, SimilarKey);
    MapPermutation(rows, sorted, RowGroup);
    NoDuplicatesPermutation(Map(rows, RowGroup), Map(sorted, RowGroup));
    var shown := SimilarOf(df, ch, withSize);
    assert shown == sorted[..|shown|];
    MapPrefixNoDuplicates(sorted, |shown|, RowGroup);
  }

}
