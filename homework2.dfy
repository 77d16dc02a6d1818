/**
 The Homework2 streamgraph: records without an attack type are
 dropped, the rest are grouped by year then attack type, one row object is
 pushed per year holding only the attack types seen that year, the rows are
 sorted by year, and the attack types met are collected in a set. The line
 chart and the stacked bar chart of this assignment use the shared
 `Aggregates.YearCounts` and `Aggregates.Pivot`.
 */
module Homework2 {
  import opened Collections
  import opened D3
  import opened Incidents
  import opened Aggregates

  /** Some record of year `y` survives the attack-type filter. */
  ghost predicate ValidYear(data: seq<Incident>, y: int)
  {
    exists r :: r in data && r.year == y && HasAttackType(r)
  }

  /**
   `grouped = d3.rollups(data.filter(...), v => v.length, d => d.iyear, d => d.attacktype1_txt)`,
   the `forEach` that pushes one row per year into `formatted` while adding
   each type to `attackTypesSet`, then `formatted.sort(...)` and
   `Array.from(attackTypesSet)`.
   */
  method AttackTypePivot(data: seq<Incident>) returns (formatted: seq<Row>, attackTypes: seq<string>)
    ensures StrictlyAscending(formatted, YearOfRow)
    ensures forall y :: HasRowFor(formatted, y) <==> ValidYear(data, y)
    ensures forall i, t :: 0 <= i < |formatted| ==>
      At(formatted[i], t) == if t == "" then 0 else CountYearCategory(data, formatted[i].year, AttackType, t)
    ensures NoBackfill(formatted)
    ensures NoDup(attackTypes)
    ensures forall t :: t in attackTypes <==> t != "" && t in CategoriesOf(data, AttackType)
    ensures forall i :: 0 <= i < |formatted| ==>
      Total(formatted[i], attackTypes) == CountYear(StreamInput(data), formatted[i].year)
  {
    var valid := StreamInput(data);
    formatted, attackTypes := Pivot(valid, AttackType);
    StreamInputMembers(data);
    forall y ensures HasRowFor(formatted, y) <==> ValidYear(data, y) {
      CountYearPositive(valid, y);
      if HasRowFor(formatted, y) {
        var i :| 0 <= i < |formatted| && formatted[i].year == y;
        assert CountYear(valid, formatted[i].year) > 0;
      }
    }
    forall i, t | 0 <= i < |formatted|
      ensures At(formatted[i], t) == if t == "" then 0 else CountYearCategory(data, formatted[i].year, AttackType, t)
    {
      assert RowCounts(formatted[i], valid, AttackType);
      StreamInputCount(data, formatted[i].year, t);
    }
    ValidAttackTypes(data, attackTypes);
    forall i | 0 <= i < |formatted|
      ensures Total(formatted[i], attackTypes) == CountYear(valid, formatted[i].year)
    {
      RowTotal(formatted[i], attackTypes, valid, AttackType);
    }
  }

  /** A list of the categories of the filtered records is the list of the non-empty attack types of all records. */
  lemma {:induction false} ValidAttackTypes(data: seq<Incident>, attackTypes: seq<string>)
    requires ListsCategories(attackTypes, StreamInput(data), AttackType)
    ensures forall t :: t in attackTypes <==> t != "" && t in CategoriesOf(data, AttackType)
  {
    var valid := StreamInput(data);
    StreamCategories(data);
    CategoriesOfMembers(valid, AttackType);
    forall t | t in CategoriesOf(valid, AttackType) ensures t in attackTypes {
      var r :| r in valid && Category(r, AttackType) == t;
      var k :| 0 <= k < |valid| && valid[k] == r;
    }
  }
}
