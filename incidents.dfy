/**
 One row of the incident dataset, reduced to the three columns the charts use
 (`iyear`, `region_txt`, `attacktype1_txt`), and the counts every aggregate is
 measured against. An empty string stands for a missing (falsy) text field.
 */
module Incidents {
  import opened Collections

  datatype Incident = Incident(year: int, region: string, attackType: string)

  /** The secondary grouping column of a pivot. */
  datatype Dimension = Region | AttackType

  function Category(r: Incident, dim: Dimension): string
  {
    match dim
    case Region => r.region
    case AttackType => r.attackType
  }

  /** `data.map(d => +d.iyear)` */
  function YearsOf(records: seq<Incident>): seq<int>
  {
    seq(|records|, i requires 0 <= i < |records| => records[i].year)
  }

  /** `data.map(d => d.region_txt)` or `data.map(d => d.attacktype1_txt)` */
  function CategoriesOf(records: seq<Incident>, dim: Dimension): seq<string>
  {
    seq(|records|, i requires 0 <= i < |records| => Category(records[i], dim))
  }

  /** The (year, category) keys a two-level rollup by year then category groups on. */
  function YearCategoryPairs(records: seq<Incident>, dim: Dimension): seq<(int, string)>
  {
    seq(|records|, i requires 0 <= i < |records| => (records[i].year, Category(records[i], dim)))
  }

  /** The (category, year) keys a two-level rollup by category then year groups on. */
  function CategoryYearPairs(records: seq<Incident>, dim: Dimension): seq<(string, int)>
  {
    seq(|records|, i requires 0 <= i < |records| => (Category(records[i], dim), records[i].year))
  }

  /** The streamgraph's `d => d.attacktype1_txt && d.iyear`; a year is always present here. */
  predicate HasAttackType(r: Incident)
  {
    r.attackType != ""
  }

  /** `data.filter(d => d.attacktype1_txt && d.iyear)` */
  function StreamInput(records: seq<Incident>): (r: seq<Incident>)
    ensures |r| <= |records|
    ensures forall i :: 0 <= i < |r| ==> HasAttackType(r[i])
  {
    if records == [] then []
    else
      var last := records[|records| - 1];
      StreamInput(records[..|records| - 1]) + (if HasAttackType(last) then [last] else [])
  }

  /** The records whose year lies in `[lo, hi]`, in their original order. */
  function RecordsInRange(records: seq<Incident>, lo: int, hi: int): seq<Incident>
  {
    if records == [] then []
    else
      var last := records[|records| - 1];
      RecordsInRange(records[..|records| - 1], lo, hi) + (if lo <= last.year <= hi then [last] else [])
  }

  // ---------------------------------------------------------------------------
  // Reference counts
  // ---------------------------------------------------------------------------

  /** The number of records of year `y`. */
  function CountYear(records: seq<Incident>, y: int): nat
  {
    if records == [] then 0
    else CountYear(records[..|records| - 1], y) + (if records[|records| - 1].year == y then 1 else 0)
  }

  /** The number of records of year `y` whose category along `dim` is `c`. */
  function CountYearCategory(records: seq<Incident>, y: int, dim: Dimension, c: string): nat
  {
    if records == [] then 0
    else
      var last := records[|records| - 1];
      CountYearCategory(records[..|records| - 1], y, dim, c)
        + (if last.year == y && Category(last, dim) == c then 1 else 0)
  }

  /** `cats.reduce((sum, c) => sum + count(y, c), 0)` over the reference counts. */
  function CategorySum(records: seq<Incident>, y: int, dim: Dimension, cats: seq<string>): nat
  {
    if cats == [] then 0
    else CountYearCategory(records, y, dim, cats[0]) + CategorySum(records, y, dim, cats[1..])
  }

  // ---------------------------------------------------------------------------
  // The keys handed to the rollups count the same records
  // ---------------------------------------------------------------------------

  lemma {:induction false} YearsCount(records: seq<Incident>)
    ensures forall y :: multiset(YearsOf(records))[y] == CountYear(records, y)
  {
    if records != [] {
      var init := records[..|records| - 1];
      YearsCount(init);
      assert YearsOf(records) == YearsOf(init) + [records[|records| - 1].year];
    }
  }

  lemma {:induction false} PairsCount(records: seq<Incident>, dim: Dimension)
    ensures forall y, c :: multiset(YearCategoryPairs(records, dim))[(y, c)] == CountYearCategory(records, y, dim, c)
  {
    if records != [] {
      var init, last := records[..|records| - 1], records[|records| - 1];
      PairsCount(init, dim);
      var ps := YearCategoryPairs(init, dim);
      assert YearCategoryPairs(records, dim) == ps + [(last.year, Category(last, dim))];
      forall y, c ensures multiset(YearCategoryPairs(records, dim))[(y, c)] == CountYearCategory(records, y, dim, c) {
        assert multiset(ps + [(last.year, Category(last, dim))]) == multiset(ps) + multiset{(last.year, Category(last, dim))};
      }
    }
  }

  lemma {:induction false} SwappedPairsCount(records: seq<Incident>, dim: Dimension)
    ensures forall y, c :: multiset(CategoryYearPairs(records, dim))[(c, y)] == CountYearCategory(records, y, dim, c)
  {
    if records != [] {
      var init, last := records[..|records| - 1], records[|records| - 1];
      SwappedPairsCount(init, dim);
      var ps := CategoryYearPairs(init, dim);
      assert CategoryYearPairs(records, dim) == ps + [(Category(last, dim), last.year)];
      forall y, c ensures multiset(CategoryYearPairs(records, dim))[(c, y)] == CountYearCategory(records, y, dim, c) {
        assert multiset(ps + [(Category(last, dim), last.year)]) == multiset(ps) + multiset{(Category(last, dim), last.year)};
      }
    }
  }

  lemma {:induction false} CategorySumSnoc(records: seq<Incident>, r: Incident, y: int, dim: Dimension, cats: seq<string>)
    requires NoDup(cats)
    ensures CategorySum(records + [r], y, dim, cats)
         == CategorySum(records, y, dim, cats) + (if r.year == y && Category(r, dim) in cats then 1 else 0)
  {
    assert (records + [r])[..|records|] == records;
    if cats != [] {
      var rest := cats[1..];
      assert NoDup(rest) by {
        forall i, j | 0 <= i < j < |rest| ensures rest[i] != rest[j] {
          assert rest[i] == cats[i + 1] && rest[j] == cats[j + 1];
        }
      }
      CategorySumSnoc(records, r, y, dim, rest);
      assert Category(r, dim) in cats <==> Category(r, dim) == cats[0] || Category(r, dim) in rest;
      if Category(r, dim) == cats[0] {
        assert cats[0] !in rest by {
          forall k | 0 <= k < |rest| ensures rest[k] != cats[0] {
            assert rest[k] == cats[k + 1];
          }
        }
      }
    }
  }

  /**
   Summing a year's per-category counts over a list that names every category
   once gives the year's record count: no record is dropped or counted twice.
   */
  lemma {:induction false} CategorySumIsYearCount(records: seq<Incident>, y: int, dim: Dimension, cats: seq<string>)
    requires NoDup(cats)
    requires forall i :: 0 <= i < |records| ==> Category(records[i], dim) in cats
    ensures CategorySum(records, y, dim, cats) == CountYear(records, y)
  {
    if records == [] {
      CategorySumEmpty(y, dim, cats);
    } else {
      var init, last := records[..|records| - 1], records[|records| - 1];
      CategorySumIsYearCount(init, y, dim, cats);
      assert records == init + [last];
      CategorySumSnoc(init, last, y, dim, cats);
    }
  }

  lemma {:induction false} CategorySumEmpty(y: int, dim: Dimension, cats: seq<string>)
    ensures CategorySum([], y, dim, cats) == 0
  {
    if cats != [] {
      CategorySumEmpty(y, dim, cats[1..]);
    }
  }

  // ---------------------------------------------------------------------------
  // Filters
  // ---------------------------------------------------------------------------

  /**
   The streamgraph filter: a record without an attack type counts for no
   (year, attack type) pair, and every record that has one keeps counting.
   */
  lemma {:induction false} StreamInputCount(records: seq<Incident>, y: int, t: string)
    ensures CountYearCategory(StreamInput(records), y, AttackType, t)
         == if t == "" then 0 else CountYearCategory(records, y, AttackType, t)
  {
    if records != [] {
      var init, last := records[..|records| - 1], records[|records| - 1];
      StreamInputCount(init, y, t);
      var s := StreamInput(init);
      if HasAttackType(last) {
        assert (s + [last])[..|s|] == s;
      } else {
        assert s + [] == s;
      }
    }
  }

  /** The filter keeps exactly the records with an attack type. */
  lemma {:induction false} StreamInputMembers(records: seq<Incident>)
    ensures forall r :: r in StreamInput(records) ==> r in records && HasAttackType(r)
    ensures forall r :: r in records && HasAttackType(r) ==> r in StreamInput(records)
  {
    if records != [] {
      var init := records[..|records| - 1];
      StreamInputMembers(init);
      assert records == init + [records[|records| - 1]];
    }
  }

  /** Restricting the records to `[lo, hi]` keeps the counts of the years inside and zeroes the rest. */
  lemma {:induction false} RecordsInRangeYearCount(records: seq<Incident>, lo: int, hi: int, y: int)
    ensures CountYear(RecordsInRange(records, lo, hi), y) == if lo <= y <= hi then CountYear(records, y) else 0
  {
    if records != [] {
      var init, last := records[..|records| - 1], records[|records| - 1];
      RecordsInRangeYearCount(init, lo, hi, y);
      var s := RecordsInRange(init, lo, hi);
      if lo <= last.year <= hi {
        assert RecordsInRange(records, lo, hi) == s + [last];
        assert (s + [last])[..|s|] == s;
      } else {
        assert RecordsInRange(records, lo, hi) == s;
      }
    }
  }

  lemma {:induction false} RecordsInRangeCategoryCount(records: seq<Incident>, lo: int, hi: int, y: int, dim: Dimension, c: string)
    ensures CountYearCategory(RecordsInRange(records, lo, hi), y, dim, c)
         == if lo <= y <= hi then CountYearCategory(records, y, dim, c) else 0
  {
    if records != [] {
      var init, last := records[..|records| - 1], records[|records| - 1];
      RecordsInRangeCategoryCount(init, lo, hi, y, dim, c);
      var s := RecordsInRange(init, lo, hi);
      if lo <= last.year <= hi {
        assert RecordsInRange(records, lo, hi) == s + [last];
        assert (s + [last])[..|s|] == s;
      } else {
        assert RecordsInRange(records, lo, hi) == s;
      }
    }
  }

  // ---------------------------------------------------------------------------
  // Counts and membership
  // ---------------------------------------------------------------------------

  /** A year has records exactly when some record carries it. */
  lemma {:induction false} CountYearPositive(records: seq<Incident>, y: int)
    ensures CountYear(records, y) > 0 <==> exists r :: r in records && r.year == y
  {
    if records != [] {
      var init, last := records[..|records| - 1], records[|records| - 1];
      CountYearPositive(init, y);
      assert records == init + [last];
      if exists r :: r in records && r.year == y {
        var r :| r in records && r.year == y;
        assert r in init || r == last;
      }
    }
  }

  /** The category column holds exactly the categories of the records. */
  lemma {:induction false} CategoriesOfMembers(records: seq<Incident>, dim: Dimension)
    ensures forall r :: r in records ==> Category(r, dim) in CategoriesOf(records, dim)
    ensures forall c :: c in CategoriesOf(records, dim) ==> exists r :: r in records && Category(r, dim) == c
  {
    forall r | r in records ensures Category(r, dim) in CategoriesOf(records, dim) {
      var k :| 0 <= k < |records| && records[k] == r;
      assert CategoriesOf(records, dim)[k] == Category(r, dim);
    }
    forall c | c in CategoriesOf(records, dim) ensures exists r :: r in records && Category(r, dim) == c {
      var k :| 0 <= k < |records| && CategoriesOf(records, dim)[k] == c;
      assert records[k] in records;
    }
  }

  /** The attack types of the filtered records are the non-empty attack types of all records. */
  lemma {:induction false} StreamCategories(records: seq<Incident>)
    ensures forall t :: t in CategoriesOf(StreamInput(records), AttackType) <==> t != "" && t in CategoriesOf(records, AttackType)
  {
    var valid := StreamInput(records);
    StreamInputMembers(records);
    CategoriesOfMembers(records, AttackType);
    CategoriesOfMembers(valid, AttackType);
    forall t ensures t in CategoriesOf(valid, AttackType) ==> t != "" && t in CategoriesOf(records, AttackType) {
      if t in CategoriesOf(valid, AttackType) {
        var r :| r in valid && Category(r, AttackType) == t;
      }
    }
    forall t | t != "" && t in CategoriesOf(records, AttackType) ensures t in CategoriesOf(valid, AttackType) {
      var r :| r in records && Category(r, AttackType) == t;
      assert r in valid;
    }
  }
}
