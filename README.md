# Terrorism-incident aggregation, modelled in Dafny

Two D3 dashboards over the Global Terrorism Database (`Homework2/athejdavis/main.js` and
`Homework3/athejdavis/main.js`) draw a line chart of incidents per year, a stacked bar chart
of incidents per year and region, and a streamgraph of incidents per year and attack type.
The Homework3 dashboard's line chart also carries a brush that narrows the stacked bar chart to a
range of years. This project models the data-aggregation layer behind those charts and proves
what it computes. Rendering is not modelled.

Modules:

- `Collections`: the JavaScript idioms the aggregation is built from.
  - `Array.from(new Set(xs))` is `Distinct`, which keeps insertion order.
  - `.filter(d => d)` on strings is `NonEmpty`.
  - `Array.prototype.sort` with a year comparator is `SortBy`, a stable insertion sort.
  - An inclusive year `filter` is `InRange`.
- `D3`: `d3.rollup` and `d3.rollups` with a count reducer. A single pass appends each new key
  and bumps the count of a known one, so groups come out in first-appearance order (`Rollup`).
  The two-level form groups the first key, then rolls up the second key inside each group
  (`NestedRollup`).
- `Incidents`: the incident record, modelled as year, region and attack type; an empty string
  is a missing field. It also holds the two record filters and the reference counts that every
  aggregate is proved against: `CountYear` and `CountYearCategory`.
- `Aggregates`: the parts shared by both dashboards.
  - The per-year count pipeline `YearCounts`.
  - The year-by-category pivot `Pivot`, which loops over the nested groups, fills one row
    object per year with the categories seen that year, collects the category set and then
    sorts the rows by year.
  - The facts about selecting a year range from a pivot.
- `Homework2`: the Homework2 streamgraph. It drops records without an attack type
  and pivots the rest without back-filling missing types.
- `Homework3`: the Homework3 dashboard.
  - The stacked bar chart's module-level state becomes the class `StackedBar`, with
    `setupStackedBar`, `updateStackedBar` and `brushed` as its methods.
  - The streamgraph back-fills every attack type with 0 in every year row.
- `Scenarios`: worked examples. Three incidents, two in 2000 in Asia and one in 2001 in Europe,
  and the empty dataset.

The two dashboards compute the same year-count pipeline and the same region pivot. Homework2
fills each row with a `for...of` loop into a local `stackedData`; Homework3 uses `forEach` into
the module-level `allStackedData`. The two are equal in effect, so each is modelled once, and
each dashboard's entry points call the shared definitions.

Behaviour of the code worth stating explicitly:

- The brush and `updateStackedBar` exist only in `Homework3/athejdavis/main.js`. Homework2's
  charts are static.
- The range selection filters the precomputed rows (`Homework3/athejdavis/main.js:158`) rather
  than aggregating again. `Aggregates.PivotRange` and `Aggregates.YearCountsRange` prove that
  this equals aggregating the records of the range.
- A stacked bar row maps only the regions seen in its year, and Homework2's streamgraph does the
  same for attack types (`NoBackfill` in `Aggregates.Pivot`). Only the Homework3 streamgraph
  back-fills every attack type with 0 (`Backfilled` in `Homework3.BackfilledTypePivot`).
- The selected range is not validated. `Homework3.StackedBar.Update` accepts any pair of years,
  and an empty or inverted range shows no rows.

## Model

| member | source | states |
|---|---|---|
| `Collections.Distinct` | Homework3/athejdavis/main.js:88 | `Array.from(regionSet)`: no longer than its input and holding only input values; that it holds each value exactly once is `Collections.DistinctSpec` |
| `Collections.SortBy` | Homework2/athejdavis/main.js:165 | the year sort keeps the number of rows; ordering and permutation are `Collections.SortBySpec` |
| `Collections.InRange` | Homework3/athejdavis/main.js:158 | the filter never adds rows and every row it keeps has its year in `[start, end]`; the converse is `Collections.InRangeSpec` |
| `D3.Rollup` | Homework3/athejdavis/main.js:2 | `d3.rollup` opens at most one group per record; keys and counts are `D3.RollupSpec` |
| `D3.NestedRollup` | Homework3/athejdavis/main.js:71-76 | `d3.rollups` with two keys opens at most one outer group per record; the groups' contents are `D3.NestedRollupSpec` |
| `D3.Find` | Homework3/athejdavis/main.js:220 | `find` succeeds exactly when the year is a group key of the inner table, and then returns a count paired with that year in the table |
| `Incidents.StreamInput` | Homework2/athejdavis/main.js:147 | the attack-type filter adds no records and every record it keeps has an attack type; exact membership is `Incidents.StreamInputMembers` |
| `Aggregates.YearCounts` | Homework3/athejdavis/main.js:2-4 | `yearData` has no more entries than there are records; the entries themselves are `Aggregates.YearCountsExact` and `Aggregates.YearCountsAscending` |
| `Aggregates.Total` | Homework3/athejdavis/main.js:108-110 | the stacked height `regions.reduce`, reading an absent category as 0 (`Aggregates.At`), is at least each listed category's part |
| `Homework3.CountOrZero` | Homework3/athejdavis/main.js:220-221 | `match ? match[1] : 0` is non-zero only for a (year, count) group present in the table, and 0 when the year has no group |
| `Collections.DistinctSpec` | Homework3/athejdavis/main.js:214-215 | `Array.from(new Set(xs))` lists every element of `xs` and nothing else, each exactly once |
| `Collections.NonEmpty` | Homework3/athejdavis/main.js:214 | `.filter(d => d)` keeps exactly the non-empty strings of its input |
| `Collections.NonEmptyNoDup` | Homework3/athejdavis/main.js:214 | dropping empty strings from a duplicate-free list leaves it duplicate-free |
| `Collections.SortBySpec` | Homework2/athejdavis/main.js:165 | the year sort returns a permutation of its input ordered by year |
| `Collections.SortByStrict` | Homework3/athejdavis/main.js:215 | sorting elements with distinct years yields a strictly ascending permutation |
| `Collections.StrictlyAscendingUnique` | Homework3/athejdavis/main.js:3-4 | two strictly year-ascending lists with the same elements are equal, so a sorted output is determined by its element set |
| `Collections.InRangeSpec` | Homework3/athejdavis/main.js:158 | the year filter keeps exactly the elements whose year lies in `[start, end]`, and keeps ascending order |
| `Collections.InRangeAll` | Homework3/athejdavis/main.js:158 | a filter whose range covers every element returns the list unchanged |
| `D3.RollupSpec` | Homework3/athejdavis/main.js:2 | `d3.rollup(..., v => v.length, key)` has one group per distinct key in first-appearance order, each counting that key's occurrences |
| `D3.RollupFind` | Homework3/athejdavis/main.js:2 | looking a key up in the rollup gives its number of occurrences, and nothing for an absent key |
| `D3.RollupTotal` | Homework2/athejdavis/main.js:2 | the group counts of a rollup add up to the number of input records |
| `D3.FindSpec` | Homework3/athejdavis/main.js:220 | `yearCounts.find(([y]) => y === year)` succeeds exactly when the year is a group key, and returns that group's count |
| `D3.NestedRollupSpec` | Homework3/athejdavis/main.js:71-76 | `d3.rollups` with two keys has one outer group per distinct first key, and each inner rollup counts the second keys paired with it |
| `Incidents.YearsCount` | Homework3/athejdavis/main.js:215 | the year list `data.map(d => +d.iyear)` holds each year as many times as there are records of that year |
| `Incidents.PairsCount` | Homework3/athejdavis/main.js:71-76 | the (year, category) pairs fed to the nested rollup occur as often as records with that year and category |
| `Incidents.SwappedPairsCount` | Homework3/athejdavis/main.js:207-212 | the (attack type, year) pairs of the Homework3 streamgraph occur as often as records with that year and type |
| `Incidents.StreamInputCount` | Homework2/athejdavis/main.js:147 | after dropping records without an attack type, the (year, type) counts are unchanged for every non-empty type and 0 for the empty one |
| `Incidents.StreamInputMembers` | Homework2/athejdavis/main.js:147 | the attack-type filter keeps exactly the records that have an attack type |
| `Incidents.StreamCategories` | Homework2/athejdavis/main.js:147 | the attack types of the filtered records are exactly the non-empty attack types of all records |
| `Incidents.CategorySumIsYearCount` | Homework3/athejdavis/main.js:108-110 | summing a year's category counts over a duplicate-free list naming every record's category gives that year's record count |
| `Incidents.RecordsInRangeYearCount` | Homework3/athejdavis/main.js:157-158 | restricting records to `[start, end]` keeps a year's count inside the range and zeroes it outside |
| `Incidents.RecordsInRangeCategoryCount` | Homework3/athejdavis/main.js:157-158 | the same for (year, category) counts |
| `Incidents.CountYearPositive` | Homework3/athejdavis/main.js:215 | a year has a positive count exactly when some record has that year |
| `Incidents.CategoriesOfMembers` | Homework3/athejdavis/main.js:83 | every record's category is in the category list, and every listed category belongs to some record |
| `Aggregates.YearCountsExact` | Homework3/athejdavis/main.js:2-3 | each `{year, count}` entry counts exactly the records of its year, and every year that occurs has an entry |
| `Aggregates.YearCountsAscending` | Homework2/athejdavis/main.js:3-6 | the `{year, count}` list is strictly ascending by year, so each year appears once |
| `Aggregates.YearCountsSum` | Homework2/athejdavis/main.js:2-5 | the counts add up to the number of records |
| `Aggregates.YearCountsRange` | Homework3/athejdavis/main.js:2-4 | counting the records of a year range gives exactly the entries of that range, so selection and aggregation commute |
| `Aggregates.TotalIsCategorySum` | Homework3/athejdavis/main.js:109 | the `regions.reduce` over a pivot row, with absent entries read as 0, is the sum of that year's category counts |
| `Aggregates.RowTotal` | Homework2/athejdavis/main.js:88-90 | a row's total over the category list equals the number of records of that year |
| `Aggregates.RowFromTable` | Homework3/athejdavis/main.js:79-86 | a row filled from a year's inner rollup holds, for every category, that year's count, and has entries only for categories seen that year |
| `Aggregates.FillRow` | Homework2/athejdavis/main.js:63-66 | the `for...of` loop enters every inner group's count into the row and adds every group key to the category set, without duplicates |
| `Aggregates.Pivot` | Homework2/athejdavis/main.js:53-70 | one row per year occurring in the data, strictly ascending; each row reads each category's (year, category) count and has no zero entries; the category list names each category seen once |
| `Aggregates.NestedYears` | Homework2/athejdavis/main.js:53-58 | the outer groups of the nested rollup are the years that occur, each once |
| `Aggregates.PivotFinish` | Homework2/athejdavis/main.js:68-70 | sorting the filled rows by year gives a pivot with the properties above |
| `Aggregates.SameYearSameRow` | Homework2/athejdavis/main.js:61-67 | two rows of the same year with exact counts and no zero entries are equal |
| `Aggregates.PivotUnique` | Homework2/athejdavis/main.js:53-68 | any two lists with the pivot's properties are equal, so the pivot is determined by the records |
| `Aggregates.PivotRange` | Homework3/athejdavis/main.js:157-158 | the pivot rows whose year lies in `[start, end]` form the pivot of the records of that range |
| `Aggregates.SelectedRows` | Homework3/athejdavis/main.js:158 | each selected row counts the records of the range |
| `Aggregates.SelectedYears` | Homework3/athejdavis/main.js:158 | every year of the range that has records keeps its row |
| `Aggregates.RowInRange` | Homework3/athejdavis/main.js:158 | a row inside the range has the same counts over the range's records as over all records |
| `Homework2.AttackTypePivot` | Homework2/athejdavis/main.js:145-166 | one row per year having a record with an attack type, ascending; each row reads each non-empty type's count and has no zero entries; `attackTypes` lists each non-empty type once; each row's total is that year's count of records with an attack type |
| `Homework2.ValidAttackTypes` | Homework2/athejdavis/main.js:153-166 | the set filled from the filtered records holds exactly the non-empty attack types of all records |
| `Homework3.MinYear` | Homework3/athejdavis/main.js:154 | `d3.min(allStackedData, d => d.year)` is a row's year and no row's year is smaller |
| `Homework3.MaxYear` | Homework3/athejdavis/main.js:154 | `d3.max(allStackedData, d => d.year)` is a row's year and no row's year is larger |
| `Homework3.InitialRangeKeepsAll` | Homework3/athejdavis/main.js:154 | the first update, from the smallest to the largest year, shows every row |
| `Homework3.StackedBar.constructor` | Homework3/athejdavis/main.js:68 | before setup no records, rows or regions are held, and the state invariant holds |
| `Homework3.StackedBar.Setup` | Homework3/athejdavis/main.js:70-88 | `allStackedData` is the region pivot of the records, `regions` lists each region once, and all rows are shown |
| `Homework3.StackedBar.Update` | Homework3/athejdavis/main.js:157-158 | the shown rows are exactly the rows with year in `[start, end]` in their order, form the pivot of the records of that range, and `allStackedData`, `regions` and the records are unchanged |
| `Homework3.StackedBar.Brushed` | Homework3/athejdavis/main.js:57-63 | without a selection nothing changes; with one, the selected range is shown and the pivot is untouched |
| `Homework3.BackfillRow` | Homework3/athejdavis/main.js:219-222 | the row has an entry for every grouped attack type, holding that type's count for the year or 0 when `find` fails |
| `Homework3.BackfilledTypePivot` | Homework3/athejdavis/main.js:207-224 | one row per distinct year of the data, ascending; every row has an entry for each non-empty attack type, holding its (year, type) count or 0; `attackTypes` lists each non-empty type once; each row's total is that year's count of records with an attack type |
| `Homework3.GroupedKeys` | Homework3/athejdavis/main.js:207-212 | the outer groups of `grouped` are the non-empty attack types, each once |
| `Homework3.AttackTypeList` | Homework3/athejdavis/main.js:214 | `attackTypes` lists each non-empty attack type of the data exactly once |
| `Homework3.SortedYears` | Homework3/athejdavis/main.js:215 | `years` lists each year of the data once, strictly ascending |
| `Homework3.RowFromGrouped` | Homework3/athejdavis/main.js:217-224 | a row built from `grouped` for a year is back-filled with that year's attack-type counts |
| `Homework3.BackfilledTotal` | Homework3/athejdavis/main.js:226-230 | the stacked height of a back-filled row is that year's count of records with an attack type |
| `Scenarios.SampleYearCounts` | Homework3/athejdavis/main.js:2-4 | two incidents in 2000 and one in 2001 give `[{2000, 2}, {2001, 1}]` |
| `Scenarios.SampleRegionPivot` | Homework3/athejdavis/main.js:71-86 | the same incidents, in Asia in 2000 and Europe in 2001, pivot to `[{2000, Asia: 2}, {2001, Europe: 1}]`, with Europe absent from the 2000 row |
| `Scenarios.SampleSelection` | Homework3/athejdavis/main.js:158 | selecting `[2000, 2000]` keeps exactly the first row |
| `Scenarios.EmptyYearCounts` | Homework2/athejdavis/main.js:2-6 | no records give no per-year counts |
| `Scenarios.EmptyPivot` | Homework2/athejdavis/main.js:53-68 | no records give no pivot rows |

## Left out

- Loading the CSV file with `d3.csv(...).then(...)` is asynchronous I/O through an external parser. The records are a parameter.
- SVG and DOM work is rendering through a library: scales, axes, legends, colour scales, titles and the enter/update/exit transitions of `updateStackedBar`.
- The `d3.stack` and `d3.area` layouts compute cumulative offsets and path strings for rendering. Only the row totals they stack are modelled, by `Total`.
- The brush turns pixels into years with `xScale.invert` and `Math.round` (`Homework3/athejdavis/main.js:59-61`). That is floating-point scale arithmetic. `Homework3.StackedBar.Brushed` receives the selection already as whole years.
- Zoom and pan (`zoomed`) only transform the drawn surface.
- `stack`, `color`, `svg2`, `x2` and `y2` are module-level state that is only used for rendering and is not modelled.
- Years are integers present on every record. As a result:
  - The `d.iyear` half of the streamgraph filters always passes.
  - The `NaN` that `+undefined` would put into the year list of `Homework3/athejdavis/main.js:215` cannot arise.
  - A year read as a string key by `d3.rollup` is not told apart from its number.
- A row is a year plus a map from category to count. In JavaScript a category literally named `year` would overwrite the row's year, and that collision is not modelled.
- `Aggregates.Pivot` does not pin down the order of the category list. The order of first appearance, scanned year group by year group, only decides the stacking order.
- `Array.prototype.sort` sorts `formatted` in place (`Homework2/athejdavis/main.js:165`). That sort is modelled as the pure stable sort `SortBy` applied to the row list, so aliasing of the array is not represented.
- `Homework3.StackedBar.Setup`: with no records `d3.min` and `d3.max` give `undefined`, and every comparison with it is false. The model shows no rows directly rather than calling `Update` with undefined bounds.
