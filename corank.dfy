/**
 * The co-rank summary: the units of a zone that share the selected unit's
 * key, grouped by building, each building's floors compressed into ranges,
 * the buildings ordered by the number in their name
 * (apgujeong_rank_app.py:440-469).
 */
module CoRank {
  import opened Options
  import opened Digits
  import opened Collections
  import opened Sorting
  import opened Ranges
  import opened Units
  import opened Ranking

  /** One line of the summary table: 동, 층 범위 and 세대수. */
  datatype BuildingRow = BuildingRow(building: string, display: string, ranges: seq<Range>, text: string, count: nat)

  /** The units without a floor, and one line per building. */
  datatype Summary = Summary(noFloor: nat, rows: seq<BuildingRow>)

  function RowBuilding(r: BuildingRow): string { r.building }
  function RowCount(r: BuildingRow): nat { r.count }

  /**
   * The building as displayed: the name followed by "동", unless the name
   * already contains "동" (also `_dong_label`'s base in the finder).
   */
  function BuildingLabel(name: string): (r: string)
    ensures |r| == if '동' in name then |name| else |name| + 1
    ensures '동' in r && r[..|name|] == name
  {
    if '동' in name then name else name + "동"
  }

  /** Two names that differ only by a trailing "동" are displayed alike. */
  lemma LabelsMayCoincide()
    ensures BuildingLabel("1") == BuildingLabel("1동")
  {
    assert '동' !in "1";
    assert "1" + "동" == "1동";
  }

  predicate HasFloor(u: Unit) { FloorOf(u).Some? }
  predicate LacksFloor(u: Unit) { FloorOf(u).None? }

  /** `g["층"].dropna().tolist()`: the floors of the units that have one. */
  function FloorsOf(us: seq<Unit>): (fs: seq<int>)
    ensures forall x :: x in fs <==> exists i :: 0 <= i < |us| && FloorOf(us[i]) == Some(x)
  {
    if us == [] then []
    else
      var rest := FloorsOf(us[1..]);
      assert forall i :: 0 < i < |us| ==> us[i] == us[1..][i - 1];
      assert forall x :: (exists i :: 0 <= i < |us[1..]| && FloorOf(us[1..][i]) == Some(x))
                         ==> (exists i :: 0 <= i < |us| && FloorOf(us[i]) == Some(x)) by {
        forall x | exists i :: 0 <= i < |us[1..]| && FloorOf(us[1..][i]) == Some(x)
          ensures exists i :: 0 <= i < |us| && FloorOf(us[i]) == Some(x)
        {
          var i :| 0 <= i < |us[1..]| && FloorOf(us[1..][i]) == Some(x);
          assert us[i + 1] == us[1..][i];
        }
      }
      match FloorOf(us[0])
      case Some(f) => [f] + rest
      case None => rest
  }

  /**
   * The line for one building of the group: its floor ranges are the
   * canonical cover of exactly the floors of that building's units, the
   * text renders those ranges, and the count is the number of those units.
   */
  function RowFor(withFloor: seq<Unit>, name: string): (r: BuildingRow)
    ensures var g := Members(withFloor, BuildingOf, name);
            && r.building == name && r.display == BuildingLabel(name)
            && Canonical(r.ranges) && r.text == JoinRanges(r.ranges)
            && r.count == CountKey(withFloor, BuildingOf, name)
            && forall x :: x in Expand(r.ranges) <==> exists i :: 0 <= i < |g| && FloorOf(g[i]) == Some(x)
  {
    var g := Members(withFloor, BuildingOf, name);
    var fs := SortedSet(FloorsOf(g));
    var rs := Compress(fs);
    BuildingRow(name, BuildingLabel(name), rs, JoinRanges(rs), |g|)
  }

  function RowsFor(names: seq<string>, withFloor: seq<Unit>): (rows: seq<BuildingRow>)
    ensures |rows| == |names|
    ensures forall i :: 0 <= i < |names| ==> rows[i] == RowFor(withFloor, names[i])
  {
    seq(|names|, i requires 0 <= i < |names| => RowFor(withFloor, names[i]))
  }

  function NameKey(name: string): seq<int> { EncodeStr(name) }

  /** The keys of `groupby("동")`, in the order it visits them: sorted, each building of the group once. */
  function GroupNames(us: seq<Unit>): (r: seq<string>)
    ensures NoDuplicates(r)
    ensures forall i :: 0 <= i < |us| ==> us[i].building in r
    ensures forall n :: n in r ==> exists i :: 0 <= i < |us| && us[i].building == n
  {
    var d := Distinct(Map(us, BuildingOf));
    var names := SortBy(d, NameKey);
    NoDuplicatesPermutation(d, names);
    DistinctCoversRows(us, BuildingOf, names);
    DistinctKeysAreRows(us, BuildingOf, names);
    names
  }

  /**
   * `sorted(rows, key=_dong_num(r["동"]))`. The sort is stable and the rows
   * arrive in name order, so names break ties; the key says so explicitly.
   */
  function RowKey(r: BuildingRow): seq<int>
  {
    [NameNumber(r.display)] + EncodeStr(r.building)
  }

  /** `grp`: the rows of `work` whose key is the selected key, all of them. */
  function KeyGroup(work: seq<Unit>, k: int): (g: seq<Unit>)
    ensures forall i :: 0 <= i < |g| ==> g[i].value == Some(k)
    ensures forall u :: u in work && u.value == Some(k) ==> u in g
  {
    Members(work, ValueOf, Some(k))
  }

  /**
   * The group the summary describes is as large as the tie count shown
   * beside the rank (`sel_tied`): it counts the rows of `work` with the key.
   */
  lemma {:induction false} KeyGroupIsTied(work: seq<Unit>, k: int)
    requires forall i :: 0 <= i < |work| ==> work[i].value.Some?
    ensures |KeyGroup(work, k)| == CountEqual(Keys(work), k)
  {
    if work != [] {
      KeyGroupIsTied(work[1..], k);
      assert Keys(work)[1..] == Keys(work[1..]);
    }
  }

  /**
   * The summary the app shows for key `k`. No unit is lost or counted
   * twice: the units without a floor plus the per-building counts make up
   * the whole group sharing the key, and each building has one line at most.
   */
  function SummaryOf(work: seq<Unit>, k: int): (r: Summary)
    ensures r.noFloor + Sum(r.rows, RowCount) == |KeyGroup(work, k)|
    ensures NoDuplicates(Map(r.rows, RowBuilding))
  {
    var grp := KeyGroup(work, k);
    var withFloor := Filter(grp, HasFloor);
    var names := GroupNames(withFloor);
    var rows := RowsFor(names, withFloor);
    var sorted := SortBy(rows, RowKey);
    FilterComplement(grp, HasFloor, LacksFloor);
    SumPermutation(rows, sorted, RowCount);
    SumRowsIsSumGroups(names, withFloor);
    GroupSizesAddUp(names, withFloor, BuildingOf);
    RowBuildings(names, withFloor);
    MapPermutation(rows, sorted, RowBuilding);
    NoDuplicatesPermutation(names, Map(sorted, RowBuilding));
    Summary(|Filter(grp, LacksFloor)|, sorted)
  }

  // ---------------------------------------------------------------------
  // The builder loop (apgujeong_rank_app.py:454-462)

  lemma RowsForSnoc(names: seq<string>, name: string, withFloor: seq<Unit>)
    ensures RowsFor(names + [name], withFloor) == RowsFor(names, withFloor) + [RowFor(withFloor, name)]
  {
  }

  /** The body of the loop, for the building `name`. */
  method BuildRow(withFloor: seq<Unit>, name: string) returns (row: BuildingRow)
    ensures row == RowFor(withFloor, name)
  {
    var g := Members(withFloor, BuildingOf, name);
    var floors := SortedSet(FloorsOf(g));
    var ranges := ContiguousRanges(floors);
    var text := JoinRanges(ranges);
    row := BuildingRow(name, BuildingLabel(name), ranges, text, |g|);
  }

  method BuildRows(withFloor: seq<Unit>, names: seq<string>) returns (rows: seq<BuildingRow>)
    ensures rows == RowsFor(names, withFloor)
  {
    rows := [];
    for i := 0 to |names|
      invariant rows == RowsFor(names[..i], withFloor)
    {
      var row := BuildRow(withFloor, names[i]);
      rows := rows + [row];
      PrefixSnoc(names, i);
      RowsForSnoc(names[..i], names[i], withFloor);
    }
    assert names[..|names|] == names;
  }

  /**
   * The summary block: nothing when the selected unit has no rank or no
   * key, otherwise the summary for its key.
   */
  method Summarize(work: seq<Unit>, standing: Standing, selKey: Option<int>) returns (r: Option<Summary>)
    ensures standing.rank.None? || selKey.None? ==> r == None
    ensures standing.rank.Some? && selKey.Some? ==> r == Some(SummaryOf(work, selKey.value))
  {
    if standing.rank.None? || selKey.None? {
      return None;
    }
    var grp := KeyGroup(work, selKey.value);
    var noFloor := |Filter(grp, LacksFloor)|;
    var withFloor := Filter(grp, HasFloor);
    var rows := BuildRows(withFloor, GroupNames(withFloor));
    rows := SortBy(rows, RowKey);
    r := Some(Summary(noFloor, rows));
  }

  // ---------------------------------------------------------------------
  // Properties of the summary

  lemma {:induction false} SumRowsIsSumGroups(names: seq<string>, withFloor: seq<Unit>)
    ensures Sum(RowsFor(names, withFloor), RowCount) == SumGroups(names, withFloor, BuildingOf)
  {
    if names != [] {
      assert RowsFor(names, withFloor)[1..] == RowsFor(names[1..], withFloor);
      SumRowsIsSumGroups(names[1..], withFloor);
    }
  }

  lemma {:induction false} RowBuildings(names: seq<string>, withFloor: seq<Unit>)
    ensures Map(RowsFor(names, withFloor), RowBuilding) == names
  {
    if names != [] {
      assert RowsFor(names, withFloor)[1..] == RowsFor(names[1..], withFloor);
      RowBuildings(names[1..], withFloor);
    }
  }

  /** Two lines of different buildings in `RowKey` order are in display order. */
  lemma LineOrder(a: BuildingRow, b: BuildingRow)
    requires LexLe(RowKey(a), RowKey(b)) && a.building != b.building
    ensures NameNumber(a.display) < NameNumber(b.display)
            || (NameNumber(a.display) == NameNumber(b.display) && StrLt(a.building, b.building))
  {
    var na, nb := NameNumber(a.display), NameNumber(b.display);
    var ea, eb := EncodeStr(a.building), EncodeStr(b.building);
    LexHead(na, ea, nb, eb);
    if na == nb {
      assert LexLe(ea + [], eb + []) by { assert ea + [] == ea && eb + [] == eb; }
      EncodeStrOrder(a.building, b.building, [], []);
    }
  }

  /**
   * The lines are ordered by the number in the displayed building name
   * (10**9 when it has none), and lines with the same number by name.
   */
  lemma RowsOrdered(work: seq<Unit>, k: int, i: nat, j: nat)
    requires i < j < |SummaryOf(work, k).rows|
    ensures var rows := SummaryOf(work, k).rows;
            NameNumber(rows[i].display) < NameNumber(rows[j].display)
            || (NameNumber(rows[i].display) == NameNumber(rows[j].display) && StrLt(rows[i].building, rows[j].building))
  {
    var rows := SummaryOf(work, k).rows;
    MapIndex(rows, RowBuilding);
    LineOrder(rows[i], rows[j]);
  }

  /** Every line of the summary is the line of one of the group's buildings. */
  lemma RowsAreBuildingLines(work: seq<Unit>, k: int, i: nat)
    requires i < |SummaryOf(work, k).rows|
    ensures var withFloor := Filter(KeyGroup(work, k), HasFloor);
            var r := SummaryOf(work, k).rows[i];
            r == RowFor(withFloor, r.building)
            && exists u :: u in withFloor && u.building == r.building
  {
    var withFloor := Filter(KeyGroup(work, k), HasFloor);
    var names := GroupNames(withFloor);
    var rows := RowsFor(names, withFloor);
    var sorted := SortBy(rows, RowKey);
    assert SummaryOf(work, k).rows == sorted;
    var r := sorted[i];
    SortByMembers(rows, RowKey, r);
    var j :| 0 <= j < |rows| && rows[j] == r;
    assert r == RowFor(withFloor, names[j]) && r.building == names[j];
    assert names[j] in names;
    var m :| 0 <= m < |withFloor| && withFloor[m].building == names[j];
    assert withFloor[m] in withFloor;
  }

  /** Every unit of the group that has a floor is on its building's line. */
  lemma EveryFlooredUnitShown(work: seq<Unit>, k: int, u: Unit)
    requires u in KeyGroup(work, k) && HasFloor(u)
    ensures exists i :: 0 <= i < |SummaryOf(work, k).rows| && SummaryOf(work, k).rows[i].building == u.building
  {
    var grp := KeyGroup(work, k);
    var withFloor := Filter(grp, HasFloor);
    var names := GroupNames(withFloor);
    var rows := RowsFor(names, withFloor);
    var sorted := SortBy(rows, RowKey);
    assert SummaryOf(work, k).rows == sorted;
    var m :| 0 <= m < |withFloor| && withFloor[m] == u;
    var j :| 0 <= j < |names| && names[j] == u.building;
    assert rows[j].building == u.building;
    SortByMembers(rows, RowKey, rows[j]);
    var i :| 0 <= i < |sorted| && sorted[i] == rows[j];
  }
}
