# Apgujeong unit ranking — a verified model of the ranking and summary core

The Apgujeong rank app reads a sheet of apartment units: zone (구역), building
(동), unit label (호), optional size class (평형), the public price and the
appraisal. From these it derives a valuation for each unit (환산감정가). That
value is the public price divided by 0.69, or the appraisal when there is no
public price. For the unit picked in the selectors, the app shows three things:

* its competition rank within its zone (공동순위, "min" ranks, highest value first)
  and the number of units tied with it;
* a co-rank summary. This covers every unit of the zone that has the same key,
  grouped by building. Each building's floors are compressed into ranges such as
  `7층~9층, 11층`. The buildings are ordered by the number in their name;
* a table of up to ten similar groups across the whole sheet. These come from the
  at most 1500 units whose value is nearest, grouped by zone, building and size
  class. Each group has its floor ranges, its size and its median value. The table
  is ordered by zone number, then building number, then group size descending.

The model works on plain sequences of records. Each pandas step becomes a
function over them:

* filtering becomes `Filter`/`Members`;
* sorting becomes `SortBy`, an insertion sort by a lexicographic integer key;
* `head(n)` becomes `Take`;
* the keys `groupby` visits become `SortBy(Distinct(..))`;
* `transform("size")` becomes a count.

The two loops of the source that build lists step by step are Dafny methods with
loop invariants, each proved equal to a specification function:

* the `contiguous_ranges` loop;
* the two row-builder loops over the groups.

Each specification function's properties are then proved as lemmas.

Modules, one per concern:

| file | module | what it models |
|---|---|---|
| options.dfy | Options | `Option`, the model of NaN / `None` |
| digits.dfy | Digits | ASCII digits, `int(...)`, `str(int)`, `re.search(r"\d+")` with the 10**9 sentinel |
| collections.dfy | Collections | filtering, mapping, distinct values, counting and summing over sequences |
| sorting.dfy | Sorting | lexicographic keys, a stable-by-key sort, `head(n)`, `sorted(set(...))`, Python string and tuple order |
| price.dfy | Price | `clean_price` and the derived valuation |
| ranking.dfy | Ranking | `rank(method="min", ascending=False)`, the tie counts, the selected unit's rank |
| units.dfy | Units | the sheet's rows, the zone table, the valid/invalid split, the selection |
| floors.dfy | Floors | `extract_floor` |
| ranges.dfy | Ranges | `contiguous_ranges`, `format_range` and the `", "` join |
| corank.dfy | CoRank | the co-rank summary and `_dong_num` |
| similar.dfy | Similar | the similar-value finder, `_zone_num`, `_dong_num`, `_dong_label` and the median |

Valuations reach the ranking, summary and finder modules as integers: the
value rounded to six decimals and scaled by 10^6, which is the rank key. The
finder in the source works on the unrounded valuation instead; "## Left out"
says what the model loses by using the key there.

The similar groups are ordered by zone number, building number and group size
descending (apgujeong_rank_app.py:564-566), not by distance; `Similar.SimilarOf`
does the same.

## Model

| member | source | states |
|---|---|---|
| Price.RemoveAllMembers | apgujeong_rank_app.py:147-152 | the removed character no longer occurs; every other character of the input survives and nothing new appears; a text without the character is unchanged |
| Price.RemoveAllConcat | apgujeong_rank_app.py:147-152 | removing a character from a concatenation concatenates the results, so the other characters keep their order |
| Price.RemoveAllLength | apgujeong_rank_app.py:147-152 | the result is shorter by exactly the number of occurrences of the removed character |
| Price.StripLeftDropsLeading | apgujeong_rank_app.py:153 | the left strip leaves a suffix of the input, everything it removed is whitespace, and the suffix does not start with whitespace |
| Price.StripRightDropsTrailing | apgujeong_rank_app.py:153 | the right strip leaves a prefix of the input, everything it removed is whitespace, and the prefix does not end with whitespace |
| Price.KeepNumeric | apgujeong_rank_app.py:155 | after the regex filter only digits, '.' and '-' remain; a text made only of them is unchanged, and a text with none of them becomes empty |
| Price.KeepNumericConcat | apgujeong_rank_app.py:155 | the filter works character by character: filtering a concatenation concatenates the filtered parts |
| Price.CleanText | apgujeong_rank_app.py:146-155 | the five replacements and the strip before the regex change nothing: the text handed to `to_numeric` is exactly the raw text's digits, dots and minus signs, in order (the filter Price.KeepNumeric) |
| Price.DotIndex | apgujeong_rank_app.py:156 | the position of the first '.', or the length when there is none |
| Price.UnsignedShapeSound | apgujeong_rank_app.py:156 | a text of the parsed shape (digits, at most one '.', some digit) has that shape character by character |
| Price.UnsignedShapeComplete | apgujeong_rank_app.py:156 | conversely, every such text has the parsed shape |
| Price.ParseUnsignedDefined | apgujeong_rank_app.py:156 | the unsigned parse is defined exactly on the unsigned decimal texts |
| Price.ParseNumber | apgujeong_rank_app.py:156 | `to_numeric(errors="coerce")` is defined exactly when the text is an optional '-' and then an unsigned decimal; any other text gives "undefined", never an error |
| Price.ParseNatText | apgujeong_rank_app.py:156 | the text of a natural number parses to that number, and with a leading '-' to its negation |
| Price.ParseDecimalText | apgujeong_rank_app.py:156 | `whole.frac` parses to whole + frac / 10^len(frac) |
| Price.CleanPrice | apgujeong_rank_app.py:144-156 | `clean_price` on a cell is defined exactly when the cell's digits, dots and minus signs, read in order, form such a number; a cell with none of them is undefined |
| Price.MissingCellIsUndefined | apgujeong_rank_app.py:146-156 | a missing cell, rendered "nan" by `astype(str)`, cleans to "undefined" |
| Price.CleanPriceExample | apgujeong_rank_app.py:144-156 | "12,3억" cleans to 123 |
| Price.CleanPriceDecimalExample | apgujeong_rank_app.py:144-156 | "50.5" cleans to 50.5 |
| Price.ConvertedValue | apgujeong_rank_app.py:195-199 | the valuation is defined iff the public price or the appraisal is; when the public price is defined the valuation times 0.69 is the public price; otherwise it is the appraisal |
| Price.ConvertedValueExamples | apgujeong_rank_app.py:195-199 | a public price of 12,3억 gives 123 / 0.69; no public price falls back to the appraisal; neither gives "undefined" |
| Units.ZoneRows | apgujeong_rank_app.py:247 | the zone table holds exactly the sheet's rows of the chosen zone (also line 235) |
| Units.Work | apgujeong_rank_app.py:264-266 | a row is kept for ranking iff it is a row of the zone with a valuation |
| Units.BadRows | apgujeong_rank_app.py:268-269 | a row is set aside iff it is a row of the zone without a valuation |
| Units.ValidPlusBadIsAll | apgujeong_rank_app.py:262-269 | the kept rows and the set-aside rows together are the zone's rows, each exactly as often as in the zone (multisets), so the counts add up |
| Units.Keys | apgujeong_rank_app.py:271 | the rank keys, one per valid row, in row order |
| Units.Selected | apgujeong_rank_app.py:256-278 | a unit is selected iff the zone has a row with the chosen building and unit label, and then it is the first such row (`iloc[0]`) |
| Units.SelectedRank | apgujeong_rank_app.py:277-286 | no rank and tie count 0 when the selected unit has no valuation; for a key among the zone's valued rows, rank 1 + the number of greater keys and tie count the number of equal keys |
| Units.SelectedUnitIsRanked | apgujeong_rank_app.py:277-286 | a selected unit with a valuation always gets a rank, namely 1 + the number of units of the zone with a greater key, and its tie count is the number of units with its key, at least 1 |
| Ranking.SortDescending | apgujeong_rank_app.py:272 | the keys in non-increasing order, a permutation of the input |
| Ranking.FirstIndex | apgujeong_rank_app.py:272 | the first position of a key that occurs |
| Ranking.MinRank | apgujeong_rank_app.py:272 | the "min" rank of a key (its first position in the descending order, plus 1) is 1 + the number of strictly greater keys |
| Ranking.Ranks | apgujeong_rank_app.py:272 | the 순위 column has one rank per row, and each row's rank is 1 + the number of rows with a strictly greater key |
| Ranking.TieCounts | apgujeong_rank_app.py:273 | the 공동세대수 column has one count per row, and each is the multiplicity of the row's key among all keys |
| Ranking.RankFormula | apgujeong_rank_app.py:272-273 | each row's rank lies between 1 and the number of valid rows, and its tie count is at least 1 |
| Ranking.RankOrder | apgujeong_rank_app.py:272-273 | equal keys get equal ranks and tie counts; a greater key gets a strictly smaller rank, smaller by at least its tie count |
| Ranking.NextDistinctRank | apgujeong_rank_app.py:272-273 | the next lower distinct key's rank is this key's rank plus its tie count |
| Ranking.RanksIgnoreRowOrder | apgujeong_rank_app.py:272-273 | ranks and tie counts depend only on the multiset of keys, not on row order |
| Ranking.CountEqualIsMultiplicity | apgujeong_rank_app.py:273 | the tie count of a key is its multiplicity |
| Ranking.TieCountsSumToTotal | apgujeong_rank_app.py:273 | the tie counts, summed once per distinct key, add up to the number of valid rows |
| Ranking.RanksExample | apgujeong_rank_app.py:272-273 | keys 10, 9, 9, 8 rank 1, 2, 2, 4 with tie counts 1, 2, 2, 1 |
| Ranking.ValuesAtKey | apgujeong_rank_app.py:282 | the column values of exactly the rows with the key: each value comes from such a row, every such row contributes its value, there are as many values as rows with the key, and none iff the key does not occur |
| Ranking.Min | apgujeong_rank_app.py:283 | the least element of a non-empty column |
| Ranking.Max | apgujeong_rank_app.py:284 | the greatest element of a non-empty column |
| Ranking.SelectedStanding | apgujeong_rank_app.py:281-286 | for a present selected key: rank 1 + the number of greater keys and tie count = its multiplicity; for a missing or absent key: no rank and tie count 0 |
| Ranking.StandingAt | apgujeong_rank_app.py:281-286 | the key of any valid row always finds a rank, with a tie count of at least 1 |
| Digits.OnlyDigits | apgujeong_rank_app.py:410 | only digits remain; empty iff the label has none; a label made of digits is unchanged |
| Digits.OnlyDigitsConcat | apgujeong_rank_app.py:410 | filtering a concatenation concatenates the filtered parts, so every digit survives in order |
| Digits.NatToString | apgujeong_rank_app.py:460 | `str(n)`: digits only, no leading zero |
| Digits.ValueOfNatToString | apgujeong_rank_app.py:410-419 | `int(str(n)) == n` |
| Digits.IntToStringInjective | apgujeong_rank_app.py:437-438 | distinct integers print differently |
| Digits.FirstDigitRun | apgujeong_rank_app.py:466-467 | `re.search(r"\d+")` finds a match iff the name has a digit |
| Digits.NameNumber | apgujeong_rank_app.py:465-467 | a name without digits gets the sentinel 10**9 (which number a name with digits gets: Digits.NameNumberOfRun) |
| Digits.NameNumberOfRun | apgujeong_rank_app.py:465-467 | for a name made of a digit-free prefix, a digit run and a rest not starting with a digit, the number is the run's value |
| Digits.NameNumberAppendNonDigit | apgujeong_rank_app.py:461-467 | appending the suffix "동" does not change the number read from a name |
| Floors.ExtractFloor | apgujeong_rank_app.py:408-419 | the floor is undefined exactly when the label has no digit |
| Floors.ExtractFloorCases | apgujeong_rank_app.py:408-419 | with d the number the label's digits spell: three digits or more give d / 100, two digits d / 10, one digit d itself; the floor of a label is the floor of its digits alone |
| Floors.FloorOfUnitNumber | apgujeong_rank_app.py:408-419 | the unit number 100·f + l (f ≥ 1, l < 100) is on floor f |
| Floors.ExtractFloorExamples | apgujeong_rank_app.py:408-419 | "1101" is on floor 11, "702" on 7, "12" on 1, "" has none |
| Floors.BasementReadsAsFirstFloor | apgujeong_rank_app.py:408-419 | letters are ignored: "B101" reads as floor 1, like "101" |
| Sorting.SortBy | apgujeong_rank_app.py:564-566 | a permutation of the input, sorted by the key (also the sorts at lines 469 and 522) |
| Sorting.Take | apgujeong_rank_app.py:522 | `head(n)`: the first min(n, length) elements (also `head(10)` at line 567) |
| Sorting.TakeSortedIsSmallest | apgujeong_rank_app.py:522 | every element `head(n)` keeps has a key no larger than any element it drops |
| Sorting.SortedSet | apgujeong_rank_app.py:456 | `sorted(set(...))`: strictly increasing with exactly the input's elements (also line 543) |
| Sorting.EncodeStrOrder | apgujeong_rank_app.py:455 | the integer encoding of names orders as Python orders strings |
| Sorting.EncodeTupleOrder | apgujeong_rank_app.py:539 | the encoding of group keys orders as Python orders tuples of strings |
| Ranges.Compress | apgujeong_rank_app.py:421-435 | a strictly increasing input compresses to a canonical cover (lo ≤ hi, e_i + 1 < s_{i+1}) whose members are exactly the input, in order; never more intervals than values, and none exactly when there are no values |
| Ranges.ContiguousRanges | apgujeong_rank_app.py:421-435 | the loop returns the compression of its input; on a strictly increasing input the intervals are non-empty, ascending, non-adjacent and cover exactly the input |
| Ranges.CompressExpand | apgujeong_rank_app.py:421-435 | compressing the members of a canonical cover gives that cover back |
| Ranges.CanonicalCoverIsUnique | apgujeong_rank_app.py:421-435 | two canonical covers of the same members are equal |
| Ranges.ExpandMembers | apgujeong_rank_app.py:421-435 | an integer is a member of a cover iff some interval contains it |
| Ranges.CompressCoversExactly | apgujeong_rank_app.py:421-435 | on a strictly increasing input, x is in the input iff some interval contains x; empty input iff no intervals |
| Ranges.CompressExample | apgujeong_rank_app.py:421-435 | 7, 8, 9, 11, 15, 16 compress to 7~9, 11, 15~16 |
| Ranges.FormatRange | apgujeong_rank_app.py:437-438 | the text of an interval has at least two characters and ends in "층" |
| Ranges.FormatRangeShape | apgujeong_rank_app.py:437-438 | the text of an interval has no comma and at least two characters, so the `", "` join can be split again; it is "s층" when s == e and "s층~e층" otherwise |
| Ranges.FormatRangeInjective | apgujeong_rank_app.py:437-438 | different intervals print differently |
| Ranges.JoinRanges | apgujeong_rank_app.py:460 | the joined text is empty exactly when there are no intervals, and otherwise ends in "층" |
| Ranges.JoinRangesShape | apgujeong_rank_app.py:460 | the joined text is empty iff there are no intervals, and has a comma iff there are two or more |
| Ranges.JoinRangesInjective | apgujeong_rank_app.py:437-460 | the joined text determines the intervals |
| CoRank.BuildingLabel | apgujeong_rank_app.py:461 | the displayed building contains "동" and starts with the name; it adds the suffix only when the name has no "동" (also `_dong_label` at line 531) |
| CoRank.LabelsMayCoincide | apgujeong_rank_app.py:461 | the buildings "1" and "1동" are displayed alike |
| CoRank.FloorsOf | apgujeong_rank_app.py:456 | the floors of exactly the units that have one (also line 543) |
| CoRank.KeyGroup | apgujeong_rank_app.py:446 | every unit of the group has the selected key, and every unit of `work` with that key is in the group |
| CoRank.KeyGroupIsTied | apgujeong_rank_app.py:446-448 | the group has as many units as the tie count shown with the rank: the number of `work` rows with the key |
| CoRank.RowFor | apgujeong_rank_app.py:455-462 | a building's line has the building, its label, a canonical cover whose members are exactly the floors of its units, that cover's text, and its unit count |
| CoRank.RowsFor | apgujeong_rank_app.py:455-462 | one line per building name, in name order |
| CoRank.BuildRow | apgujeong_rank_app.py:456-462 | the loop body computes the line its specification describes |
| CoRank.BuildRows | apgujeong_rank_app.py:454-462 | the builder loop yields one line per building name, in `groupby` order |
| CoRank.Summarize | apgujeong_rank_app.py:440-469 | no summary without a rank or a key; otherwise the summary of the selected key |
| CoRank.SummaryOf | apgujeong_rank_app.py:450-469 | the units without a floor plus the per-building unit counts make up the whole key group, and each building has at most one line |
| CoRank.GroupNames | apgujeong_rank_app.py:455 | the buildings `groupby("동")` visits have no repeats and are exactly the buildings of the group |
| CoRank.RowsOrdered | apgujeong_rank_app.py:465-469 | lines are in non-decreasing `_dong_num` of the displayed name; within equal numbers, in name order, as the stable sort leaves them |
| CoRank.RowsAreBuildingLines | apgujeong_rank_app.py:455-469 | every line of the summary is the line of a building that has floored units in the group |
| CoRank.EveryFlooredUnitShown | apgujeong_rank_app.py:455-462 | every unit of the group with a floor has its building listed |
| Similar.Pool | apgujeong_rank_app.py:508-521 | the pool is the valued rows of the sheet in sheet order, never the selected unit (same zone, building and label, value within 1e-6), each with its distance from the selected value |
| Similar.PoolComplete | apgujeong_rank_app.py:508-521 | every valued row other than the selected unit is in the pool |
| Similar.Candidates | apgujeong_rank_app.py:522 | at most 1500 candidates: all of the pool when it is smaller |
| Similar.CandidatesOrdered | apgujeong_rank_app.py:522 | candidates are in ascending distance, then descending value |
| Similar.CandidatesAreNearest | apgujeong_rank_app.py:522 | every kept candidate is at least as near (then at least as high) as every dropped pool row |
| Similar.CandidatesFromPool | apgujeong_rank_app.py:522 | every candidate is a pool row |
| Similar.Median | apgujeong_rank_app.py:549 | at most half the values lie strictly below the median and at most half strictly above |
| Similar.MedianWithinValues | apgujeong_rank_app.py:549 | the median lies between the least and the greatest value |
| Similar.SizedLabel | apgujeong_rank_app.py:530-532 | the label starts with the building label; it equals it iff there is no size or the size is blank, "nan" or "None" |
| Similar.GroupKeys | apgujeong_rank_app.py:539 | the group keys `groupby` visits have no repeats, each names a non-empty group, and every floored candidate's key is among them |
| Similar.RowsForGroups | apgujeong_rank_app.py:539-558 | one row per group key, in `groupby` order |
| Similar.BuildGroupRow | apgujeong_rank_app.py:540-558 | the loop body computes the row its specification describes |
| Similar.BuildGroupRows | apgujeong_rank_app.py:534-558 | the builder loop yields one row per group key, in `groupby` order |
| Similar.RowForGroup | apgujeong_rank_app.py:539-558 | a group's row has the group key, the zone and building numbers, a canonical cover of exactly the group's floors, its text, the group's size and its median value |
| Similar.AllRows | apgujeong_rank_app.py:534-558 | one row per group key, in `groupby` order, so no group has two rows |
| Similar.SimilarOf | apgujeong_rank_app.py:564-567 | min(10, number of groups) rows, each of them a group's row |
| Similar.FindSimilar | apgujeong_rank_app.py:505-567 | no table without a selected value; otherwise the finder's table |
| Similar.KeyOrderIsShownOrder | apgujeong_rank_app.py:564-566 | the sort key puts rows in zone number, then building number ascending, then count descending |
| Similar.SimilarOrdered | apgujeong_rank_app.py:564-567 | the shown rows are ordered by zone number, building number, then count descending |
| Similar.SimilarKeepsFirst | apgujeong_rank_app.py:564-567 | every shown row comes no later in that order than any group row not shown |
| Similar.SimilarGroupsDistinct | apgujeong_rank_app.py:539-567 | no group is shown twice |

## Left out

- Streamlit: the widgets, captions, tables, CSS and the CSV downloads. These are presentation. The selectors only supply the chosen zone, building and unit label, which enter as parameters.
- Loading: `load_data`, `read_excel`/`read_csv`, the path check, column renaming and the Google Sheets URL handling. These are file and network I/O. Rows enter as a sequence of `Units.Unit` records whose text columns are already stripped.
- Usage logging (`detect_device`, `log_simple`). These are foreign calls and network.
- Price.ConvertedValue: the division by 0.69 is exact `real` division, not IEEE-754 double arithmetic, so float rounding is not modelled.
- Rounding to six decimals: valuations enter the ranking, summary and finder modules as integers scaled by 10^6. The bridge from the `real` valuation to that integer key is not modelled. The source rounds the selected unit's key with the builtin `round` (apgujeong_rank_app.py:279) and the column with `Series.round` (line 271). On rare half-way floats these can disagree, and then the selected unit finds no rank. The model uses one integer for both, so Units.SelectedUnitIsRanked cannot see that case.
- Similar: the finder in the source excludes the selected unit, measures distances, sorts and takes medians on the unrounded valuation `감정가_클린` and `sel_price` (apgujeong_rank_app.py:514-522, 549). The model uses the rounded, scaled key there. It therefore loses the order among distances that differ by less than 10^-6, the exact boundary of `head(1500)` when such distances straddle it, and the exact exclusion test. The model's test is "keys differ by at most 1", which is not the same as `np.isclose(atol=1e-6)` on the raw values: 0.4e-6 and 1.49e-6 pass the first and fail the second.
- Similar.RowForGroup: the representative value is the exact median. The final `round(…, 2)` is not modelled.
- Units.Unit: a missing size class is carried as a string. `pd.notna(p)` on a real NaN is not modelled separately, so a NaN size is treated like the text "nan", which `_dong_label` also treats as missing.
- Digits: only ASCII '0'–'9' count as digits. Python's `isdigit` and `\d` also accept other Unicode digits, such as full-width ones.
- Price.ParseNumber: the model accepts the text `to_numeric` gets after the character filter, which can only hold digits, '.' and '-'. Exponents, "inf" and other float spellings cannot reach it.
- Ranking: the display sort at apgujeong_rank_app.py:274 only reorders the rows of `work`. Ranks, tie counts, the group filter and every count here do not depend on row order (Ranking.RanksIgnoreRowOrder), and each `groupby` revisits its keys in sorted order, so the sort is not modelled.
- Pandas' stable multi-column sorts are modelled as sorts by a composite key with a unique last component. The candidate sort ends in the sheet position; the groups' sorts end in the group's own key, the order in which `groupby` produced them. This fixes the same order the stable sort gives.
- The `if not floors: continue` branches (apgujeong_rank_app.py:457-458, 544-545) cannot be taken, because every group is non-empty and has only floored units. The model has no such branch; CoRank.RowsAreBuildingLines and Similar.GroupKeys state why.
- `groupby` with NaN keys: rows enter with string keys. `astype(str)` has already turned a missing text into "nan".
