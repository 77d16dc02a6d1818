/**
 The aggregations both assignments feed their charts with: the per-year count
 behind the line chart, and the year-by-category pivot behind the stacked bar
 chart and the streamgraphs, with the properties the charts rely on.
 */
module Aggregates {
  import opened Collections
  import opened D3
  import opened Incidents

  // ---------------------------------------------------------------------------
  // Per-year count (line chart)
  // ---------------------------------------------------------------------------

  datatype YearCount = YearCount(year: int, count: nat)

  function YearOfCount(e: YearCount): int
  {
    e.year
  }

  /** `Array.from(counts, ([year, count]) => ({ year: +year, count }))` */
  function ToYearCounts(es: seq<(int, nat)>): seq<YearCount>
  {
    seq(|es|, i requires 0 <= i < |es| => YearCount(es[i].0, es[i].1))
  }

  /**
   `yearData`: `d3.rollup(data, v => v.length, d => d.iyear)` turned into
   `{year, count}` rows and sorted by ascending year.
   */
  function YearCounts(records: seq<Incident>): (r: seq<YearCount>)
    ensures |r| <= |records|
  {
    SortBy(ToYearCounts(Rollup(YearsOf(records))), YearOfCount)
  }

  function SumCounts(s: seq<YearCount>): nat
  {
    if s == [] then 0 else s[0].count + SumCounts(s[1..])
  }

  /**
   Each `yearData` entry carries the number of records of its year, and every
   year that occurs in the data has its entry.
   */
  lemma {:induction false} YearCountsExact(records: seq<Incident>)
    ensures forall e :: e in YearCounts(records) ==> e.count == CountYear(records, e.year) && e.count > 0
    ensures forall y :: CountYear(records, y) > 0 ==> YearCount(y, CountYear(records, y)) in YearCounts(records)
  {
    var ys := YearsOf(records);
    var es := Rollup(ys);
    RollupSpec(ys);
    YearsCount(records);
    var u := ToYearCounts(es);
    SortBySpec(u, YearOfCount);
    forall e | e in YearCounts(records) ensures e.count == CountYear(records, e.year) && e.count > 0 {
      assert e in multiset(u);
      var i :| 0 <= i < |u| && u[i] == e;
      assert es[i].1 == multiset(ys)[es[i].0];
    }
    forall y | CountYear(records, y) > 0 ensures YearCount(y, CountYear(records, y)) in YearCounts(records) {
      assert y in multiset(ys);
      assert y in GroupKeys(es);
      var i :| 0 <= i < |es| && GroupKeys(es)[i] == y;
      assert u[i] == YearCount(y, CountYear(records, y));
      assert u[i] in multiset(YearCounts(records));
    }
  }

  /** `yearData` is strictly ascending by year: each year appears once, in order. */
  lemma {:induction false} YearCountsAscending(records: seq<Incident>)
    ensures StrictlyAscending(YearCounts(records), YearOfCount)
  {
    var es := Rollup(YearsOf(records));
    RollupSpec(YearsOf(records));
    var u := ToYearCounts(es);
    assert DistinctKeys(u, YearOfCount) by {
      forall i, j | 0 <= i < j < |u| ensures YearOfCount(u[i]) != YearOfCount(u[j]) {
        assert GroupKeys(es)[i] != GroupKeys(es)[j];
      }
    }
    SortByStrict(u, YearOfCount);
  }

  lemma {:induction false} SumInsert(x: YearCount, s: seq<YearCount>)
    ensures SumCounts(Insert(x, s, YearOfCount)) == x.count + SumCounts(s)
  {
    if s != [] && YearOfCount(x) > YearOfCount(s[0]) {
      SumInsert(x, s[1..]);
      assert Insert(x, s, YearOfCount)[1..] == Insert(x, s[1..], YearOfCount);
    } else {
      assert Insert(x, s, YearOfCount)[1..] == s;
    }
  }

  lemma {:induction false} SumSort(xs: seq<YearCount>)
    ensures SumCounts(SortBy(xs, YearOfCount)) == SumCounts(xs)
  {
    if xs != [] {
      SumSort(xs[1..]);
      SumInsert(xs[0], SortBy(xs[1..], YearOfCount));
    }
  }

  lemma {:induction false} SumToYearCounts(es: seq<(int, nat)>)
    ensures SumCounts(ToYearCounts(es)) == TotalCount(es)
  {
    if es != [] {
      SumToYearCounts(es[1..]);
      assert ToYearCounts(es)[1..] == ToYearCounts(es[1..]);
    }
  }

  /** The line chart accounts for every record exactly once: the counts sum to the number of records. */
  lemma {:induction false} YearCountsSum(records: seq<Incident>)
    ensures SumCounts(YearCounts(records)) == |records|
  {
    var es := Rollup(YearsOf(records));
    RollupTotal(YearsOf(records));
    SumToYearCounts(es);
    SumSort(ToYearCounts(es));
  }

  /**
   Selecting a year range commutes with counting: counting the records of
   `[lo, hi]` gives exactly the entries of `yearData` whose year is in `[lo, hi]`.
   */
  lemma {:induction false} YearCountsRange(records: seq<Incident>, lo: int, hi: int)
    ensures YearCounts(RecordsInRange(records, lo, hi)) == InRange(YearCounts(records), YearOfCount, lo, hi)
  {
    var sub := RecordsInRange(records, lo, hi);
    var left, right := YearCounts(sub), InRange(YearCounts(records), YearOfCount, lo, hi);
    YearCountsExact(records);
    YearCountsExact(sub);
    YearCountsAscending(records);
    YearCountsAscending(sub);
    InRangeSpec(YearCounts(records), YearOfCount, lo, hi);
    forall x ensures x in left <==> x in right {
      RecordsInRangeYearCount(records, lo, hi, x.year);
      if x in left {
        assert x == YearCount(x.year, CountYear(records, x.year));
      }
      if x in right {
        assert x == YearCount(x.year, CountYear(sub, x.year));
      }
    }
    StrictlyAscendingUnique(left, right, YearOfCount);
  }

  // ---------------------------------------------------------------------------
  // Year-by-category pivot (stacked bar chart, streamgraph)
  // ---------------------------------------------------------------------------

  /** A pivot row `{ year, [category]: count, ... }`; the categories are the keys of `counts`. */
  datatype Row = Row(year: int, counts: map<string, nat>)

  function YearOfRow(r: Row): int
  {
    r.year
  }

  /** `d[c] || 0`: a category the row has no entry for reads as 0. */
  function At(row: Row, c: string): nat
  {
    if c in row.counts then row.counts[c] else 0
  }

  /** `cats.reduce((sum, c) => sum + (d[c] || 0), 0)`: the height of a stacked bar. */
  function Total(row: Row, cats: seq<string>): (r: nat)
    ensures forall c :: c in cats ==> At(row, c) <= r
  {
    if cats == [] then 0 else At(row, cats[0]) + Total(row, cats[1..])
  }

  /** Every category reads as the number of records of the row's year in that category. */
  ghost predicate RowCounts(row: Row, records: seq<Incident>, dim: Dimension)
  {
    forall c :: At(row, c) == CountYearCategory(records, row.year, dim, c)
  }

  /** One row per year occurring in `records`, strictly ascending, each with that year's counts. */
  ghost predicate PivotRows(rows: seq<Row>, records: seq<Incident>, dim: Dimension)
  {
    && StrictlyAscending(rows, YearOfRow)
    && (forall i :: 0 <= i < |rows| ==> CountYear(records, rows[i].year) > 0 && RowCounts(rows[i], records, dim))
    && (forall y :: CountYear(records, y) > 0 ==> HasRowFor(rows, y))
  }

  /** Some row is the row of year `y`. */
  ghost predicate HasRowFor(rows: seq<Row>, y: int)
  {
    exists i :: 0 <= i < |rows| && rows[i].year == y
  }

  /** A row has entries only for the combinations that occur (no back-fill with 0). */
  ghost predicate OnlySeen(row: Row)
  {
    forall c :: c in row.counts ==> row.counts[c] > 0
  }

  ghost predicate NoBackfill(rows: seq<Row>)
  {
    forall i :: 0 <= i < |rows| ==> OnlySeen(rows[i])
  }

  /** `cats` names each category of `records` once, and nothing else. */
  ghost predicate ListsCategories(cats: seq<string>, records: seq<Incident>, dim: Dimension)
  {
    && NoDup(cats)
    && (forall c :: c in cats ==> c in CategoriesOf(records, dim))
    && (forall i :: 0 <= i < |records| ==> Category(records[i], dim) in cats)
  }

  lemma {:induction false} TotalIsCategorySum(row: Row, cats: seq<string>, records: seq<Incident>, dim: Dimension)
    requires RowCounts(row, records, dim)
    ensures Total(row, cats) == CategorySum(records, row.year, dim, cats)
  {
    if cats != [] {
      TotalIsCategorySum(row, cats[1..], records, dim);
    }
  }

  /**
   A bar's stacked height, summed over the category list, is its year's number
   of records: the categories the row lacks add 0, and each record of the year
   lies in exactly one listed category.
   */
  lemma {:induction false} RowTotal(row: Row, cats: seq<string>, records: seq<Incident>, dim: Dimension)
    requires RowCounts(row, records, dim)
    requires ListsCategories(cats, records, dim)
    ensures Total(row, cats) == CountYear(records, row.year)
  {
    TotalIsCategorySum(row, cats, records, dim);
    CategorySumIsYearCount(records, row.year, dim, cats);
  }

  /** A pair seen by the two-level rollup comes from some record. */
  lemma {:induction false} PairFromRecord(records: seq<Incident>, dim: Dimension, y: int, c: string)
    requires (y, c) in YearCategoryPairs(records, dim)
    ensures c in CategoriesOf(records, dim) && CountYear(records, y) > 0
  {
    var k :| 0 <= k < |records| && YearCategoryPairs(records, dim)[k] == (y, c);
    assert CategoriesOf(records, dim)[k] == c;
    YearsCount(records);
    assert YearsOf(records)[k] == y;
    assert y in multiset(YearsOf(records));
  }

  /** The row built from one inner table of the nested rollup holds that year's counts, and only seen ones. */
  lemma {:induction false} RowFromTable(records: seq<Incident>, dim: Dimension, e: (int, seq<(string, nat)>), row: map<string, nat>)
    requires NestedTally(e, YearCategoryPairs(records, dim))
    requires forall m :: 0 <= m < |e.1| ==> e.1[m].0 in row && row[e.1[m].0] == e.1[m].1
    requires forall c :: c in row ==> c in GroupKeys(e.1)
    ensures RowCounts(Row(e.0, row), records, dim) && OnlySeen(Row(e.0, row))
  {
    var pairs := YearCategoryPairs(records, dim);
    PairsCount(records, dim);
    forall c ensures At(Row(e.0, row), c) == CountYearCategory(records, e.0, dim, c)
                  && (c in row ==> row[c] > 0)
    {
      FindSpec(e.1, c);
      if c in row {
        var m :| 0 <= m < |e.1| && GroupKeys(e.1)[m] == c;
      } else {
        assert (e.0, c) !in multiset(pairs);
      }
    }
  }

  /**
   The callback that turns one year's inner table `[[region, count], ...]` into
   a row: each `row[region] = count` and `regionSet.add(region)`. The set is
   the insertion-ordered `categories`, which only grows.
   */
  method FillRow(table: seq<(string, nat)>, categories: seq<string>) returns (row: map<string, nat>, seen: seq<string>)
    requires NoDup(GroupKeys(table))
    requires NoDup(categories)
    ensures forall m :: 0 <= m < |table| ==> table[m].0 in row && row[table[m].0] == table[m].1
    ensures forall c :: c in row ==> c in GroupKeys(table)
    ensures NoDup(seen)
    ensures forall c :: c in seen <==> c in categories || c in GroupKeys(table)
  {
    row := map[];
    seen := categories;
    for j := 0 to |table|
      invariant forall m :: 0 <= m < j ==> table[m].0 in row && row[table[m].0] == table[m].1
      invariant forall c :: c in row ==> c in GroupKeys(table)[..j]
      invariant NoDup(seen)
      invariant forall c :: c in seen <==> c in categories || c in GroupKeys(table)[..j]
    {
      var region := table[j].0;
      forall m | 0 <= m < j ensures table[m].0 != region {
        assert GroupKeys(table)[m] != GroupKeys(table)[j];
      }
      assert GroupKeys(table)[..j + 1] == GroupKeys(table)[..j] + [region];
      row := row[region := table[j].1];
      if region !in seen {
        seen := seen + [region];
      }
    }
    assert GroupKeys(table)[..|table|] == GroupKeys(table);
  }

  /**
   The region pivot (`d3.rollups` by year then region, one row object per year,
   sorted by year, plus the set of regions met on the way). `dim` selects the
   category column; the Homework2 streamgraph runs the same
   pivot on attack types.
   */
  method Pivot(records: seq<Incident>, dim: Dimension) returns (rows: seq<Row>, categories: seq<string>)
    ensures PivotRows(rows, records, dim)
    ensures NoBackfill(rows)
    ensures ListsCategories(categories, records, dim)
  {
    var nested := NestedRollup(YearCategoryPairs(records, dim));
    NestedRollupSpec(YearCategoryPairs(records, dim));
    var unsorted: seq<Row> := [];
    categories := [];
    for i := 0 to |nested|
      invariant Filled(records, dim, nested, i, unsorted, categories)
    {
      assert NestedTally(nested[i], YearCategoryPairs(records, dim));
      var row, seen := FillRow(nested[i].1, categories);
      FillStep(records, dim, nested, i, unsorted, categories, row, seen);
      categories := seen;
      unsorted := unsorted + [Row(nested[i].0, row)];
    }
    rows := SortBy(unsorted, YearOfRow);
    PivotFinish(records, dim, nested, unsorted, categories, rows);
  }

  /**
   The state of `Pivot` after the first `i` year groups: one row per group so
   far, each with exact counts and no zero entries, and a duplicate-free
   category list holding every category of those groups.
   */
  ghost predicate Filled(records: seq<Incident>, dim: Dimension, nested: seq<(int, seq<(string, nat)>)>,
                         i: int, unsorted: seq<Row>, categories: seq<string>)
  {
    && 0 <= i <= |nested|
    && |unsorted| == i
    && (forall k :: 0 <= k < i ==>
          unsorted[k].year == nested[k].0 && RowCounts(unsorted[k], records, dim) && OnlySeen(unsorted[k]))
    && NoDup(categories)
    && (forall c :: c in categories ==> c in CategoriesOf(records, dim))
    && (forall k, c :: 0 <= k < i && c in GroupKeys(nested[k].1) ==> c in categories)
  }

  /** Filling the row of group `i` and adding its categories extends the state by one group. */
  lemma {:induction false} FillStep(records: seq<Incident>, dim: Dimension, nested: seq<(int, seq<(string, nat)>)>,
                  i: int, unsorted: seq<Row>, categories: seq<string>, row: map<string, nat>, seen: seq<string>)
    requires 0 <= i < |nested|
    requires NestedTally(nested[i], YearCategoryPairs(records, dim))
    requires Filled(records, dim, nested, i, unsorted, categories)
    requires forall m :: 0 <= m < |nested[i].1| ==> nested[i].1[m].0 in row && row[nested[i].1[m].0] == nested[i].1[m].1
    requires forall c :: c in row ==> c in GroupKeys(nested[i].1)
    requires NoDup(seen)
    requires forall c :: c in seen <==> c in categories || c in GroupKeys(nested[i].1)
    ensures Filled(records, dim, nested, i + 1, unsorted + [Row(nested[i].0, row)], seen)
  {
    TableKeysSeen(records, dim, nested[i]);
    RowFromTable(records, dim, nested[i], row);
    var u := unsorted + [Row(nested[i].0, row)];
    assert forall k :: 0 <= k < i ==> u[k] == unsorted[k];
  }

  /** The categories of an inner table of the nested rollup are categories of some record. */
  lemma {:induction false} TableKeysSeen(records: seq<Incident>, dim: Dimension, e: (int, seq<(string, nat)>))
    requires NestedTally(e, YearCategoryPairs(records, dim))
    ensures forall c :: c in GroupKeys(e.1) ==> c in CategoriesOf(records, dim)
  {
    forall c | c in GroupKeys(e.1) ensures c in CategoriesOf(records, dim) {
      FindSpec(e.1, c);
      PairFromRecord(records, dim, e.0, c);
    }
  }

  /** The outer keys of the year-by-category rollup: each year of `records` once. */
  lemma {:induction false} NestedYears(records: seq<Incident>, dim: Dimension)
    ensures NoDup(GroupKeys(NestedRollup(YearCategoryPairs(records, dim))))
    ensures forall y :: y in GroupKeys(NestedRollup(YearCategoryPairs(records, dim))) <==> CountYear(records, y) > 0
  {
    var pairs := YearCategoryPairs(records, dim);
    NestedRollupSpec(pairs);
    DistinctSpec(GroupKeys(pairs));
    YearsCount(records);
    assert GroupKeys(pairs) == YearsOf(records);
    forall y ensures y in YearsOf(records) <==> CountYear(records, y) > 0 {
      assert y in YearsOf(records) <==> y in multiset(YearsOf(records));
    }
  }

  /** The rows built in rollup order carry distinct years. */
  lemma {:induction false} UnsortedDistinct(records: seq<Incident>, dim: Dimension, nested: seq<(int, seq<(string, nat)>)>, unsorted: seq<Row>)
    requires nested == NestedRollup(YearCategoryPairs(records, dim))
    requires |unsorted| == |nested|
    requires forall k :: 0 <= k < |nested| ==> unsorted[k].year == nested[k].0
    ensures DistinctKeys(unsorted, YearOfRow)
  {
    NestedYears(records, dim);
    forall i, j | 0 <= i < j < |unsorted| ensures YearOfRow(unsorted[i]) != YearOfRow(unsorted[j]) {
      assert GroupKeys(nested)[i] != GroupKeys(nested)[j];
    }
  }

  /** Every record's category is a key of the inner table of its year. */
  lemma {:induction false} CategoryInTable(records: seq<Incident>, dim: Dimension, r: int)
    requires 0 <= r < |records|
    ensures exists k :: (0 <= k < |NestedRollup(YearCategoryPairs(records, dim))|
      && NestedRollup(YearCategoryPairs(records, dim))[k].0 == records[r].year
      && Category(records[r], dim) in GroupKeys(NestedRollup(YearCategoryPairs(records, dim))[k].1))
  {
    var pairs := YearCategoryPairs(records, dim);
    var nested := NestedRollup(pairs);
    NestedRollupSpec(pairs);
    NestedYears(records, dim);
    var y, c := records[r].year, Category(records[r], dim);
    assert pairs[r] == (y, c);
    YearsCount(records);
    assert YearsOf(records)[r] == y;
    assert y in multiset(YearsOf(records));
    assert y in GroupKeys(nested);
    var k :| 0 <= k < |nested| && GroupKeys(nested)[k] == y;
    assert NestedTally(nested[k], pairs);
    FindSpec(nested[k].1, c);
  }

  /** What the loops of `Pivot` leave behind, sorted, is the pivot. */
  lemma {:induction false} PivotFinish(records: seq<Incident>, dim: Dimension, nested: seq<(int, seq<(string, nat)>)>,
                    unsorted: seq<Row>, categories: seq<string>, rows: seq<Row>)
    requires nested == NestedRollup(YearCategoryPairs(records, dim))
    requires Filled(records, dim, nested, |nested|, unsorted, categories)
    requires rows == SortBy(unsorted, YearOfRow)
    ensures PivotRows(rows, records, dim)
    ensures NoBackfill(rows)
    ensures ListsCategories(categories, records, dim)
  {
    NestedYears(records, dim);
    UnsortedDistinct(records, dim, nested, unsorted);
    SortByStrict(unsorted, YearOfRow);
    forall i | 0 <= i < |rows|
      ensures CountYear(records, rows[i].year) > 0 && RowCounts(rows[i], records, dim) && OnlySeen(rows[i])
    {
      assert rows[i] in multiset(unsorted);
      var k :| 0 <= k < |unsorted| && unsorted[k] == rows[i];
      assert GroupKeys(nested)[k] == rows[i].year;
    }
    forall y | CountYear(records, y) > 0 ensures HasRowFor(rows, y) {
      var k :| 0 <= k < |nested| && GroupKeys(nested)[k] == y;
      assert unsorted[k] in multiset(rows);
      var i :| 0 <= i < |rows| && rows[i] == unsorted[k];
    }
    forall r | 0 <= r < |records| ensures Category(records[r], dim) in categories {
      CategoryInTable(records, dim, r);
    }
  }

  /**
   Two pivots of the same records agree: the rows are fixed by their years and
   their counts, so a sequence meeting `PivotRows` without back-fill is the
   pivot.
   */
  lemma {:induction false} PivotUnique(a: seq<Row>, b: seq<Row>, records: seq<Incident>, dim: Dimension)
    requires PivotRows(a, records, dim) && NoBackfill(a)
    requires PivotRows(b, records, dim) && NoBackfill(b)
    ensures a == b
  {
    forall x ensures x in a ==> x in b {
      if x in a {
        var i :| 0 <= i < |a| && a[i] == x;
        var j :| 0 <= j < |b| && b[j].year == x.year;
        SameYearSameRow(a[i], b[j], records, dim);
      }
    }
    forall x ensures x in b ==> x in a {
      if x in b {
        var j :| 0 <= j < |b| && b[j] == x;
        var i :| 0 <= i < |a| && a[i].year == x.year;
        SameYearSameRow(a[i], b[j], records, dim);
      }
    }
    StrictlyAscendingUnique(a, b, YearOfRow);
  }

  lemma {:induction false} SameYearSameRow(r: Row, s: Row, records: seq<Incident>, dim: Dimension)
    requires r.year == s.year
    requires RowCounts(r, records, dim) && OnlySeen(r)
    requires RowCounts(s, records, dim) && OnlySeen(s)
    ensures r == s
  {
    forall c ensures (c in r.counts <==> c in s.counts) && (c in r.counts ==> r.counts[c] == s.counts[c]) {
      assert At(r, c) == At(s, c);
    }
    assert r.counts == s.counts;
  }

  /**
   Selecting the pivot rows whose year is in `[lo, hi]` gives the pivot of the
   records of `[lo, hi]`: filtering the rows commutes with pivoting.
   */
  lemma {:induction false} PivotRange(rows: seq<Row>, records: seq<Incident>, dim: Dimension, lo: int, hi: int)
    requires PivotRows(rows, records, dim) && NoBackfill(rows)
    ensures PivotRows(InRange(rows, YearOfRow, lo, hi), RecordsInRange(records, lo, hi), dim)
    ensures NoBackfill(InRange(rows, YearOfRow, lo, hi))
  {
    var sel := InRange(rows, YearOfRow, lo, hi);
    InRangeSpec(rows, YearOfRow, lo, hi);
    assert StrictlyAscending(sel, YearOfRow);
    SelectedRows(rows, records, dim, lo, hi);
    SelectedYears(rows, records, dim, lo, hi);
  }

  lemma {:induction false} SelectedRows(rows: seq<Row>, records: seq<Incident>, dim: Dimension, lo: int, hi: int)
    requires forall i :: 0 <= i < |rows| ==> CountYear(records, rows[i].year) > 0 && RowCounts(rows[i], records, dim)
    requires NoBackfill(rows)
    ensures forall i :: 0 <= i < |InRange(rows, YearOfRow, lo, hi)| ==>
      var r := InRange(rows, YearOfRow, lo, hi)[i];
      CountYear(RecordsInRange(records, lo, hi), r.year) > 0 && RowCounts(r, RecordsInRange(records, lo, hi), dim)
    ensures NoBackfill(InRange(rows, YearOfRow, lo, hi))
  {
    var sel := InRange(rows, YearOfRow, lo, hi);
    InRangeSpec(rows, YearOfRow, lo, hi);
    forall i | 0 <= i < |sel|
      ensures CountYear(RecordsInRange(records, lo, hi), sel[i].year) > 0
      ensures RowCounts(sel[i], RecordsInRange(records, lo, hi), dim) && OnlySeen(sel[i])
    {
      assert sel[i] in sel;
      var k :| 0 <= k < |rows| && rows[k] == sel[i];
      RowInRange(sel[i], records, dim, lo, hi);
    }
  }

  lemma {:induction false} SelectedYears(rows: seq<Row>, records: seq<Incident>, dim: Dimension, lo: int, hi: int)
    requires forall y :: CountYear(records, y) > 0 ==> HasRowFor(rows, y)
    ensures forall y :: CountYear(RecordsInRange(records, lo, hi), y) > 0 ==> HasRowFor(InRange(rows, YearOfRow, lo, hi), y)
  {
    var sel := InRange(rows, YearOfRow, lo, hi);
    InRangeSpec(rows, YearOfRow, lo, hi);
    forall y | CountYear(RecordsInRange(records, lo, hi), y) > 0
      ensures HasRowFor(sel, y)
    {
      RecordsInRangeYearCount(records, lo, hi, y);
      var k :| 0 <= k < |rows| && rows[k].year == y;
      assert rows[k] in sel;
      var i :| 0 <= i < |sel| && sel[i] == rows[k];
      assert sel[i].year == y;
    }
  }

  /** A row of a year inside `[lo, hi]` also holds the counts of the records of `[lo, hi]`. */
  lemma {:induction false} RowInRange(row: Row, records: seq<Incident>, dim: Dimension, lo: int, hi: int)
    requires lo <= row.year <= hi
    requires CountYear(records, row.year) > 0 && RowCounts(row, records, dim)
    ensures CountYear(RecordsInRange(records, lo, hi), row.year) > 0
    ensures RowCounts(row, RecordsInRange(records, lo, hi), dim)
  {
    RecordsInRangeYearCount(records, lo, hi, row.year);
    forall c ensures At(row, c) == CountYearCategory(RecordsInRange(records, lo, hi), row.year, dim, c) {
      RecordsInRangeCategoryCount(records, lo, hi, row.year, dim, c);
    }
  }
}
