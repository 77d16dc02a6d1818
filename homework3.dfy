/**
 The Homework3 dashboard: a brushable stacked bar chart whose module-level state
 (`allStackedData`, `regions`) is set once by `setupStackedBar` and whose
 displayed rows are reselected by `updateStackedBar` on every brush, and a
 streamgraph whose year-by-attack-type rows are back-filled with 0.
 */
module Homework3 {
  import opened Collections
  import opened D3
  import opened Incidents
  import opened Aggregates

  // ---------------------------------------------------------------------------
  // Stacked bar chart with range selection
  // ---------------------------------------------------------------------------

  /** `d3.min(rows, d => d.year)` on a non-empty row list. */
  function MinYear(rows: seq<Row>): (m: int)
    requires rows != []
    ensures exists i :: 0 <= i < |rows| && rows[i].year == m
    ensures forall i :: 0 <= i < |rows| ==> m <= rows[i].year
  {
    if |rows| == 1 then rows[0].year
    else
      var rest := MinYear(rows[1..]);
      assert forall i :: 1 <= i < |rows| ==> rows[i] == rows[1..][i - 1];
      if rows[0].year <= rest then rows[0].year else rest
  }

  /** `d3.max(rows, d => d.year)` on a non-empty row list. */
  function MaxYear(rows: seq<Row>): (m: int)
    requires rows != []
    ensures exists i :: 0 <= i < |rows| && rows[i].year == m
    ensures forall i :: 0 <= i < |rows| ==> rows[i].year <= m
  {
    if |rows| == 1 then rows[0].year
    else
      var rest := MaxYear(rows[1..]);
      assert forall i :: 1 <= i < |rows| ==> rows[i] == rows[1..][i - 1];
      if rows[0].year >= rest then rows[0].year else rest
  }

  /** Selecting the full year extent keeps every row. */
  lemma {:induction false} InitialRangeKeepsAll(rows: seq<Row>)
    requires rows != []
    ensures InRange(rows, YearOfRow, MinYear(rows), MaxYear(rows)) == rows
  {
    forall x | x in rows ensures MinYear(rows) <= YearOfRow(x) <= MaxYear(rows) {
      var i :| 0 <= i < |rows| && rows[i] == x;
    }
    InRangeAll(rows, YearOfRow, MinYear(rows), MaxYear(rows));
  }

  /**
   The stacked bar chart's state: the pivot of all records by year and region,
   the region list, and the rows last handed to the stack layout. `data` is
   the record list the pivot was built from.
   */
  class StackedBar {
    var allStackedData: seq<Row>
    var regions: seq<string>
    var shown: seq<Row>
    ghost var data: seq<Incident>

    /** The pivot and the region list describe `data`. */
    ghost predicate Valid()
      reads this
    {
      && PivotRows(allStackedData, data, Region)
      && NoBackfill(allStackedData)
      && ListsCategories(regions, data, Region)
    }

    /** Before `setupStackedBar` runs, nothing is loaded and nothing is shown. */
    constructor ()
      ensures Valid()
      ensures data == [] && allStackedData == [] && regions == [] && shown == []
    {
      data := [];
      allStackedData := [];
      regions := [];
      shown := [];
      new;
      assert forall y :: CountYear([], y) == 0;
    }

    /**
     `setupStackedBar(data)`: builds the pivot and the region list, then shows
     the range from the smallest to the largest year. With no rows `d3.min`
     gives `undefined` and the filter keeps nothing.
     */
    method Setup(records: seq<Incident>)
      modifies this
      ensures data == records && Valid()
      ensures shown == allStackedData
    {
      data := records;
      allStackedData, regions := Pivot(records, Region);
      if allStackedData != [] {
        InitialRangeKeepsAll(allStackedData);
        Update(MinYear(allStackedData), MaxYear(allStackedData));
      } else {
        shown := [];
      }
    }

    /**
     `updateStackedBar([startYear, endYear])`: shows the rows whose year lies in
     the inclusive range, in their order; they form the pivot of the records
     of that range. The pivot itself is left as it is.
     */
    method Update(startYear: int, endYear: int)
      requires Valid()
      modifies this
      ensures Valid()
      ensures allStackedData == old(allStackedData) && regions == old(regions) && data == old(data)
      ensures shown == InRange(allStackedData, YearOfRow, startYear, endYear)
      ensures PivotRows(shown, RecordsInRange(data, startYear, endYear), Region) && NoBackfill(shown)
    {
      shown := InRange(allStackedData, YearOfRow, startYear, endYear);
      PivotRange(allStackedData, data, Region, startYear, endYear);
    }

    /**
     `brushed(event)`: without a selection nothing changes; otherwise the
     selection, already converted to whole years, is shown.
     */
    method Brushed(selection: Option<(int, int)>)
      requires Valid()
      modifies this
      ensures Valid()
      ensures allStackedData == old(allStackedData) && regions == old(regions) && data == old(data)
      ensures selection.None? ==> shown == old(shown)
      ensures selection.Some? ==> shown == InRange(allStackedData, YearOfRow, selection.value.0, selection.value.1)
    {
      if selection.None? {
        return;
      }
      var (year0, year1) := selection.value;
      Update(year0, year1);
    }
  }

  // ---------------------------------------------------------------------------
  // Streamgraph with back-filled attack types
  // ---------------------------------------------------------------------------

  /** `match ? match[1] : 0` for `match = yearCounts.find(([y]) => y === year)`. */
  function CountOrZero(yearCounts: seq<(int, nat)>, year: int): (r: nat)
    ensures r != 0 ==> (year, r) in yearCounts
    ensures year !in GroupKeys(yearCounts) ==> r == 0
  {
    match Find(yearCounts, year)
    case Some(n) => n
    case None => 0
  }

  /** The loop over `grouped` that sets `row[attackType]` for one year. */
  method BackfillRow(grouped: seq<(string, seq<(int, nat)>)>, year: int) returns (row: map<string, nat>)
    requires NoDup(GroupKeys(grouped))
    ensures forall t :: t in row <==> t in GroupKeys(grouped)
    ensures forall j :: 0 <= j < |grouped| ==> row[grouped[j].0] == CountOrZero(grouped[j].1, year)
  {
    row := map[];
    for j := 0 to |grouped|
      invariant forall t :: t in row <==> t in GroupKeys(grouped)[..j]
      invariant forall m :: 0 <= m < j ==> row[grouped[m].0] == CountOrZero(grouped[m].1, year)
    {
      var (attackType, yearCounts) := grouped[j];
      forall m | 0 <= m < j ensures grouped[m].0 != attackType {
        assert GroupKeys(grouped)[m] != GroupKeys(grouped)[j];
      }
      assert GroupKeys(grouped)[..j + 1] == GroupKeys(grouped)[..j] + [attackType];
      var found := Find(yearCounts, year);
      row := row[attackType := if found.Some? then found.value else 0];
    }
    assert GroupKeys(grouped)[..|grouped|] == GroupKeys(grouped);
  }

  /** A back-filled row: every non-empty attack type of the data has an entry, holding that year's count. */
  ghost predicate Backfilled(row: Row, data: seq<Incident>)
  {
    && (forall t :: t in row.counts <==> t != "" && t in CategoriesOf(data, AttackType))
    && (forall t :: At(row, t) == if t == "" then 0 else CountYearCategory(data, row.year, AttackType, t))
  }

  /**
   The Homework3 streamgraph: `grouped` by attack type then year
   over the records with an attack type, `attackTypes` the non-empty types,
   `years` every distinct year of the data ascending, and one row per year
   with an entry for every grouped type, 0 where that year has none.
   */
  method BackfilledTypePivot(data: seq<Incident>) returns (yearData: seq<Row>, attackTypes: seq<string>)
    ensures StrictlyAscending(yearData, YearOfRow)
    ensures forall y :: HasRowFor(yearData, y) <==> CountYear(data, y) > 0
    ensures forall i :: 0 <= i < |yearData| ==> Backfilled(yearData[i], data)
    ensures NoDup(attackTypes)
    ensures forall t :: t in attackTypes <==> t != "" && t in CategoriesOf(data, AttackType)
    ensures forall i :: 0 <= i < |yearData| ==>
      Total(yearData[i], attackTypes) == CountYear(StreamInput(data), yearData[i].year)
  {
    var grouped := NestedRollup(CategoryYearPairs(StreamInput(data), AttackType));
    attackTypes := NonEmpty(Distinct(CategoriesOf(data, AttackType)));
    var years := SortBy(Distinct(YearsOf(data)), (n: int) => n);
    GroupedKeys(data);
    AttackTypeList(data);
    SortedYears(data);
    yearData := [];
    for i := 0 to |years|
      invariant |yearData| == i
      invariant forall k :: 0 <= k < i ==> yearData[k].year == years[k] && Backfilled(yearData[k], data)
    {
      var row := BackfillRow(grouped, years[i]);
      RowFromGrouped(data, years[i], row);
      yearData := yearData + [Row(years[i], row)];
    }
    assert forall k :: 0 <= k < |yearData| ==> YearOfRow(yearData[k]) == years[k];
    forall y ensures HasRowFor(yearData, y) <==> CountYear(data, y) > 0 {
      if CountYear(data, y) > 0 {
        var k :| 0 <= k < |years| && years[k] == y;
        assert yearData[k].year == y;
      }
    }
    forall i | 0 <= i < |yearData|
      ensures Total(yearData[i], attackTypes) == CountYear(StreamInput(data), yearData[i].year)
    {
      BackfilledTotal(yearData[i], data, attackTypes);
    }
  }

  /** The outer keys of `grouped`: each non-empty attack type once. */
  lemma {:induction false} GroupedKeys(data: seq<Incident>)
    ensures NoDup(GroupKeys(NestedRollup(CategoryYearPairs(StreamInput(data), AttackType))))
    ensures forall t :: (t in GroupKeys(NestedRollup(CategoryYearPairs(StreamInput(data), AttackType)))
      <==> t != "" && t in CategoriesOf(data, AttackType))
  {
    var pairs := CategoryYearPairs(StreamInput(data), AttackType);
    NestedRollupSpec(pairs);
    DistinctSpec(GroupKeys(pairs));
    assert GroupKeys(pairs) == CategoriesOf(StreamInput(data), AttackType);
    StreamCategories(data);
  }

  /** `attackTypes` names each non-empty attack type once. */
  lemma {:induction false} AttackTypeList(data: seq<Incident>)
    ensures NoDup(NonEmpty(Distinct(CategoriesOf(data, AttackType))))
    ensures forall t :: t in NonEmpty(Distinct(CategoriesOf(data, AttackType))) <==> t != "" && t in CategoriesOf(data, AttackType)
  {
    DistinctSpec(CategoriesOf(data, AttackType));
    NonEmptyNoDup(Distinct(CategoriesOf(data, AttackType)));
  }

  /** `years` holds each year of the data once, ascending. */
  lemma {:induction false} SortedYears(data: seq<Incident>)
    ensures StrictlyAscending(SortBy(Distinct(YearsOf(data)), (n: int) => n), (n: int) => n)
    ensures forall y :: y in SortBy(Distinct(YearsOf(data)), (n: int) => n) <==> CountYear(data, y) > 0
  {
    var d := Distinct(YearsOf(data));
    DistinctSpec(YearsOf(data));
    assert DistinctKeys(d, (n: int) => n);
    SortByStrict(d, (n: int) => n);
    YearsCount(data);
    forall y ensures y in SortBy(d, (n: int) => n) <==> CountYear(data, y) > 0 {
      assert y in SortBy(d, (n: int) => n) <==> y in multiset(SortBy(d, (n: int) => n));
      assert y in YearsOf(data) <==> y in multiset(YearsOf(data));
    }
  }

  /** The row built by `BackfillRow` for `year` is back-filled with that year's counts. */
  lemma {:induction false} RowFromGrouped(data: seq<Incident>, year: int, row: map<string, nat>)
    requires forall t :: t in row <==> t in GroupKeys(NestedRollup(CategoryYearPairs(StreamInput(data), AttackType)))
    requires forall j :: 0 <= j < |NestedRollup(CategoryYearPairs(StreamInput(data), AttackType))| ==>
      var e := NestedRollup(CategoryYearPairs(StreamInput(data), AttackType))[j];
      row[e.0] == CountOrZero(e.1, year)
    ensures Backfilled(Row(year, row), data)
  {
    var valid := StreamInput(data);
    var pairs := CategoryYearPairs(valid, AttackType);
    var grouped := NestedRollup(pairs);
    GroupedKeys(data);
    NestedRollupSpec(pairs);
    SwappedPairsCount(valid, AttackType);
    forall t ensures At(Row(year, row), t) == if t == "" then 0 else CountYearCategory(data, year, AttackType, t) {
      StreamInputCount(data, year, t);
      if t in row {
        var j :| 0 <= j < |grouped| && GroupKeys(grouped)[j] == t;
        assert NestedTally(grouped[j], pairs);
        assert (t, year) in pairs <==> (t, year) in multiset(pairs);
      } else {
        assert (t, year) !in pairs by {
          if (t, year) in pairs {
            var k :| 0 <= k < |pairs| && pairs[k] == (t, year);
            assert GroupKeys(pairs)[k] == t;
            DistinctSpec(GroupKeys(pairs));
          }
        }
      }
    }
  }

  /** The stacked height of a back-filled row over `attackTypes` counts that year's records with an attack type. */
  lemma {:induction false} BackfilledTotal(row: Row, data: seq<Incident>, attackTypes: seq<string>)
    requires Backfilled(row, data)
    requires NoDup(attackTypes)
    requires forall t :: t in attackTypes <==> t != "" && t in CategoriesOf(data, AttackType)
    ensures Total(row, attackTypes) == CountYear(StreamInput(data), row.year)
  {
    var valid := StreamInput(data);
    forall t ensures At(row, t) == CountYearCategory(valid, row.year, AttackType, t) {
      StreamInputCount(data, row.year, t);
    }
    StreamCategories(data);
    CategoriesOfMembers(valid, AttackType);
    forall i | 0 <= i < |valid| ensures Category(valid[i], AttackType) in attackTypes {
      assert valid[i] in valid;
    }
    RowTotal(row, attackTypes, valid, AttackType);
  }
}
