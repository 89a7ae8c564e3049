/**
 * The rows of the sheet and the selection of a zone and a unit.
 *
 * After loading, every text column (구역 zone, 동 building, 호 unit label,
 * 평형 size class) is a stripped string, and every row carries the derived
 * valuation (환산감정가) or nothing. The valuation enters this model as an
 * integer key: the value already rounded to six decimals and scaled by 10^6
 * (see the Price module for how the value itself is obtained).
 */
module Units {
  import opened Options
  import opened Collections
  import opened Floors
  import opened Ranking

  datatype Unit = Unit(zone: string, building: string, unitNo: string, size: string, value: Option<int>)

  function ZoneOf(u: Unit): string { u.zone }
  function BuildingOf(u: Unit): string { u.building }
  function UnitNoOf(u: Unit): string { u.unitNo }
  function ValueOf(u: Unit): Option<int> { u.value }
  function FloorOf(u: Unit): Option<nat> { ExtractFloor(u.unitNo) }
  predicate HasValue(u: Unit) { u.value.Some? }
  predicate LacksValue(u: Unit) { u.value.None? }

  // ---------------------------------------------------------------------
  // The zone table (apgujeong_rank_app.py:243-269)

  /** `zone_df = df[df["구역"] == zone]`. */
  function ZoneRows(df: seq<Unit>, zone: string): (z: seq<Unit>)
    ensures forall i :: 0 <= i < |z| ==> z[i].zone == zone
    ensures forall u :: u in z <==> u in df && u.zone == zone
  {
    Members(df, ZoneOf, zone)
  }

  /** `work`: the zone's rows whose valuation is a number, all of them. */
  function Work(zoneRows: seq<Unit>): (w: seq<Unit>)
    ensures forall i :: 0 <= i < |w| ==> w[i].value.Some?
    ensures forall u :: u in w <==> u in zoneRows && u.value.Some?
  {
    Filter(zoneRows, HasValue)
  }

  /** `bad_rows`: the zone's rows whose valuation is not a number, all of them. */
  function BadRows(zoneRows: seq<Unit>): (b: seq<Unit>)
    ensures forall i :: 0 <= i < |b| ==> b[i].value.None?
    ensures forall u :: u in b <==> u in zoneRows && u.value.None?
  {
    Filter(zoneRows, LacksValue)
  }

  /**
   * Every row of the zone is either valid or bad, never both: the two
   * tables together hold each row of the zone exactly as often as the zone.
   */
  lemma ValidPlusBadIsAll(zoneRows: seq<Unit>)
    ensures multiset(Work(zoneRows)) + multiset(BadRows(zoneRows)) == multiset(zoneRows)
    ensures |Work(zoneRows)| + |BadRows(zoneRows)| == |zoneRows|
  {
    FilterSplit(zoneRows, HasValue, LacksValue);
    FilterComplement(zoneRows, HasValue, LacksValue);
  }

  /** The 가격키 column of `work`. */
  function Keys(w: seq<Unit>): (ks: seq<int>)
    requires forall i :: 0 <= i < |w| ==> w[i].value.Some?
    ensures |ks| == |w| && forall i :: 0 <= i < |w| ==> ks[i] == w[i].value.value
  {
    if w == [] then [] else [w[0].value.value] + Keys(w[1..])
  }

  // ---------------------------------------------------------------------
  // The selected unit (apgujeong_rank_app.py:250-286)

  /**
   * `sel_df.iloc[0]`: the first row of the zone with the chosen building
   * and unit label, or nothing (the app then stops).
   */
  function Selected(zoneRows: seq<Unit>, building: string, unitNo: string): (r: Option<Unit>)
    ensures r.Some? <==> exists i :: 0 <= i < |zoneRows| && zoneRows[i].building == building && zoneRows[i].unitNo == unitNo
    ensures r.Some? ==> r.value in zoneRows && r.value.building == building && r.value.unitNo == unitNo
    ensures r.Some? ==> exists i :: 0 <= i < |zoneRows| && zoneRows[i] == r.value
                          && forall j :: 0 <= j < i ==> !(zoneRows[j].building == building && zoneRows[j].unitNo == unitNo)
  {
    if zoneRows == [] then None
    else if zoneRows[0].building == building && zoneRows[0].unitNo == unitNo then Some(zoneRows[0])
    else
      var r := Selected(zoneRows[1..], building, unitNo);
      assert forall i :: 0 < i < |zoneRows| ==> zoneRows[i] == zoneRows[1..][i - 1];
      assert r.Some? ==> exists i :: 0 <= i < |zoneRows| && zoneRows[i] == r.value
                          && forall j :: 0 <= j < i ==> !(zoneRows[j].building == building && zoneRows[j].unitNo == unitNo) by {
        if r.Some? {
          var i :| 0 <= i < |zoneRows[1..]| && zoneRows[1..][i] == r.value
                   && forall j :: 0 <= j < i ==> !(zoneRows[1..][j].building == building && zoneRows[1..][j].unitNo == unitNo);
          assert zoneRows[i + 1] == r.value;
          forall j | 0 <= j < i + 1 ensures !(zoneRows[j].building == building && zoneRows[j].unitNo == unitNo) {
            if j > 0 { assert zoneRows[j] == zoneRows[1..][j - 1]; }
          }
        }
      }
      r
  }

  /** The selected unit's key: its valuation, or nothing. */
  function SelectedKey(sel: Option<Unit>): Option<int>
  {
    if sel.Some? then sel.value.value else None
  }

  /** The selected unit's rank and tie count within its zone. */
  function SelectedRank(zoneRows: seq<Unit>, sel: Option<Unit>): (r: Standing)
    ensures SelectedKey(sel).None? ==> r.rank.None? && r.tied == 0
    ensures var ks, key := Keys(Work(zoneRows)), SelectedKey(sel);
            key.Some? && key.value in ks ==>
              r.rank.Some? && r.rank.value == 1 + CountGreater(ks, key.value) && r.tied == CountEqual(ks, key.value)
  {
    var ks, key := Keys(Work(zoneRows)), SelectedKey(sel);
    var st := SelectedStanding(ks, key);
    assert key.Some? && key.value in ks ==> st.rank.Some? && st.rank.value == 1 + CountGreater(ks, key.value);
    st
  }

  /**
   * A selected unit whose valuation is a number always has a rank: it is
   * itself a row of `work`. The rank is one more than the number of rows of
   * the zone valued strictly higher, and the tie count counts the unit.
   */
  lemma SelectedUnitIsRanked(zoneRows: seq<Unit>, u: Unit)
    requires u in zoneRows && u.value.Some?
    ensures SelectedRank(zoneRows, Some(u)).rank.Some?
    ensures SelectedRank(zoneRows, Some(u)).rank.value == 1 + CountGreater(Keys(Work(zoneRows)), u.value.value)
    ensures SelectedRank(zoneRows, Some(u)).tied == CountEqual(Keys(Work(zoneRows)), u.value.value)
    ensures CountEqual(Keys(Work(zoneRows)), u.value.value) >= 1
  {
    var w := Work(zoneRows);
    assert u in w;
    var i :| 0 <= i < |w| && w[i] == u;
    var ks := Keys(w);
    assert ks[i] == u.value.value;
    StandingAt(ks, i);
    assert SelectedKey(Some(u)) == Some(ks[i]);
    assert SelectedRank(zoneRows, Some(u)) == SelectedStanding(ks, Some(ks[i]));
  }
}
