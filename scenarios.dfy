/**
 Worked examples: three incidents, two in 2000 in Asia and one in 2001 in
 Europe, and the empty dataset.
 */
module Scenarios {
  import opened Collections
  import opened Incidents
  import opened Aggregates

  function Sample(): seq<Incident>
  {
    [Incident(2000, "Asia", "Bombing"), Incident(2000, "Asia", "Bombing"), Incident(2001, "Europe", "Assault")]
  }

  /** The region pivot of the sample: Asia only in 2000, Europe only in 2001. */
  function SamplePivot(): seq<Row>
  {
    [Row(2000, map["Asia" := 2]), Row(2001, map["Europe" := 1])]
  }

  lemma {:induction false} SampleCounts(y: int, c: string)
    ensures CountYear(Sample(), y) == if y == 2000 then 2 else if y == 2001 then 1 else 0
    ensures CountYearCategory(Sample(), y, Region, c)
         == if y == 2000 && c == "Asia" then 2 else if y == 2001 && c == "Europe" then 1 else 0
  {
    var s := Sample();
    assert s[..|s| - 1] == s[..2];
    assert s[..2][..1] == s[..1];
    assert s[..1][..0] == [];
    assert CountYear(s[..1], y) == if y == 2000 then 1 else 0;
    assert CountYear(s[..2], y) == if y == 2000 then 2 else 0;
    assert CountYearCategory(s[..1], y, Region, c) == if y == 2000 && c == "Asia" then 1 else 0;
    assert CountYearCategory(s[..2], y, Region, c) == if y == 2000 && c == "Asia" then 2 else 0;
  }

  /** The per-year counts of the sample are 2 for 2000 and 1 for 2001. */
  lemma {:induction false} SampleYearCounts()
    ensures YearCounts(Sample()) == [YearCount(2000, 2), YearCount(2001, 1)]
  {
    var expected := [YearCount(2000, 2), YearCount(2001, 1)];
    YearCountsExact(Sample());
    YearCountsAscending(Sample());
    forall x ensures x in YearCounts(Sample()) <==> x in expected {
      SampleCounts(x.year, "");
      if x in expected {
        assert x == YearCount(x.year, CountYear(Sample(), x.year));
      }
    }
    StrictlyAscendingUnique(YearCounts(Sample()), expected, YearOfCount);
  }

  /** `SamplePivot()` holds exactly the counts of the sample. */
  lemma {:induction false} SamplePivotRows()
    ensures PivotRows(SamplePivot(), Sample(), Region) && NoBackfill(SamplePivot())
  {
    var p := SamplePivot();
    assert StrictlyAscending(p, YearOfRow) by {
      assert |p| == 2 && YearOfRow(p[0]) < YearOfRow(p[1]);
    }
    assert OnlySeen(p[0]) && OnlySeen(p[1]);
    SampleRowCounts(0);
    SampleRowCounts(1);
    forall y | CountYear(Sample(), y) > 0 ensures HasRowFor(p, y) {
      SampleCounts(y, "");
      assert y == 2000 ==> p[0].year == y;
      assert y == 2001 ==> p[1].year == y;
    }
  }

  lemma {:induction false} SampleRowCounts(i: int)
    requires 0 <= i < 2
    ensures CountYear(Sample(), SamplePivot()[i].year) > 0 && RowCounts(SamplePivot()[i], Sample(), Region)
  {
    var row := SamplePivot()[i];
    SampleCounts(row.year, "");
    forall c ensures At(row, c) == CountYearCategory(Sample(), row.year, Region, c) {
      SampleCounts(row.year, c);
    }
  }

  /** Every pivot of the sample by region is `SamplePivot()`: Europe is absent from the 2000 row. */
  lemma {:induction false} SampleRegionPivot(rows: seq<Row>)
    requires PivotRows(rows, Sample(), Region) && NoBackfill(rows)
    ensures rows == SamplePivot()
  {
    SamplePivotRows();
    PivotUnique(rows, SamplePivot(), Sample(), Region);
  }

  /** Selecting `[2000, 2000]` keeps exactly the first row. */
  lemma {:induction false} SampleSelection()
    ensures InRange(SamplePivot(), YearOfRow, 2000, 2000) == [SamplePivot()[0]]
  {
    var p := SamplePivot();
    assert p[1..][1..] == [];
  }

  /** The empty dataset has no per-year counts. */
  lemma {:induction false} EmptyYearCounts()
    ensures YearCounts([]) == []
  {
    YearCountsSum([]);
  }

  lemma {:induction false} NoRecordsNoYear(y: int)
    ensures CountYear([], y) == 0
  {
  }

  /** The empty dataset pivots to no rows. */
  lemma {:induction false} EmptyPivot(rows: seq<Row>, dim: Dimension)
    requires PivotRows(rows, [], dim)
    ensures rows == []
  {
    if rows != [] {
      NoRecordsNoYear(rows[0].year);
      assert false;
    }
  }
}
