/**
 The grouping primitives of the charting library that the aggregation code calls:
 `d3.rollup(data, v => v.length, key)` and the nested
 `d3.rollups(data, v => v.length, key1, key2)`. Both walk the data once, open a
 group the first time a key is seen (so groups come out in first-appearance
 order) and report each group's size. Records are represented here by the key
 they are grouped on (or the pair of keys for the nested form).
 */
module D3 {
  import opened Collections

  /** The keys of a grouped result, in order. */
  function GroupKeys<K, V>(es: seq<(K, V)>): (ks: seq<K>)
    ensures |ks| == |es|
    ensures forall i :: 0 <= i < |es| ==> ks[i] == es[i].0
  {
    seq(|es|, i requires 0 <= i < |es| => es[i].0)
  }

  /** Counts one more record with key `k`: bumps its group, or opens a new one at the end. */
  function Bump<K(==)>(es: seq<(K, nat)>, k: K): (r: seq<(K, nat)>)
    ensures |es| <= |r| <= |es| + 1
  {
    if es == [] then [(k, 1)]
    else if es[0].0 == k then [(k, es[0].1 + 1)] + es[1..]
    else [es[0]] + Bump(es[1..], k)
  }

  /** `d3.rollup(data, v => v.length, key)`, given the key of every record in order. */
  function Rollup<K(==)>(ks: seq<K>): (r: seq<(K, nat)>)
    ensures |r| <= |ks|
  {
    if ks == [] then [] else Bump(Rollup(ks[..|ks| - 1]), ks[|ks| - 1])
  }

  /** `entries.find(([k]) => k === key)`: the count of the first group with that key. */
  function Find<K(==)>(es: seq<(K, nat)>, k: K): (r: Option<nat>)
    ensures r.Some? <==> k in GroupKeys(es)
    ensures r.Some? ==> (k, r.value) in es
  {
    if es == [] then None
    else if es[0].0 == k then Some(es[0].1)
    else Find(es[1..], k)
  }

  /** `es` holds one group per distinct value of `m`, each with its multiplicity. */
  ghost predicate Tallies<K>(es: seq<(K, nat)>, m: multiset<K>)
  {
    && NoDup(GroupKeys(es))
    && (forall i :: 0 <= i < |es| ==> es[i].1 == m[es[i].0] && es[i].1 > 0)
    && (forall k :: k in m ==> k in GroupKeys(es))
  }

  lemma {:induction false} BumpSpec<K>(es: seq<(K, nat)>, k: K)
    requires NoDup(GroupKeys(es))
    ensures k in GroupKeys(es) ==> |Bump(es, k)| == |es|
    ensures k !in GroupKeys(es) ==> |Bump(es, k)| == |es| + 1 && Bump(es, k)[|es|] == (k, 1)
    ensures forall i :: 0 <= i < |es| ==>
      Bump(es, k)[i] == (es[i].0, es[i].1 + (if es[i].0 == k then 1 else 0))
  {
    if es != [] && es[0].0 != k {
      var rest := es[1..];
      assert NoDup(GroupKeys(rest)) by {
        forall i, j | 0 <= i < j < |rest| ensures GroupKeys(rest)[i] != GroupKeys(rest)[j] {
          assert GroupKeys(es)[i + 1] != GroupKeys(es)[j + 1];
        }
      }
      BumpSpec(rest, k);
      assert k in GroupKeys(es) <==> k in GroupKeys(rest) by {
        if k in GroupKeys(es) {
          var i :| 0 <= i < |es| && GroupKeys(es)[i] == k;
          assert GroupKeys(rest)[i - 1] == k;
        }
        if k in GroupKeys(rest) {
          var i :| 0 <= i < |rest| && GroupKeys(rest)[i] == k;
          assert GroupKeys(es)[i + 1] == k;
        }
      }
    } else if es != [] {
      assert k in GroupKeys(es) by {
        assert GroupKeys(es)[0] == k;
      }
      forall i | 1 <= i < |es| ensures es[i].0 != k {
        assert GroupKeys(es)[0] != GroupKeys(es)[i];
      }
    }
  }

  /**
   The rollup opens its groups in first-appearance order (the order of
   `Array.from(new Set(keys))`) and gives each group the number of records that
   carry its key.
   */
  lemma {:induction false} RollupSpec<K>(ks: seq<K>)
    ensures GroupKeys(Rollup(ks)) == Distinct(ks)
    ensures Tallies(Rollup(ks), multiset(ks))
  {
    if ks != [] {
      var init, k := ks[..|ks| - 1], ks[|ks| - 1];
      RollupSpec(init);
      assert ks == init + [k];
      BumpKeys(Rollup(init), init, k);
      BumpTallies(Rollup(init), multiset(init), k);
    }
  }

  /** Counting one more key `k` appends it to the keys when it is new, as the set does. */
  lemma {:induction false} BumpKeys<K>(es: seq<(K, nat)>, init: seq<K>, k: K)
    requires GroupKeys(es) == Distinct(init) && NoDup(GroupKeys(es))
    ensures GroupKeys(Bump(es, k)) == Distinct(init + [k])
  {
    DistinctSpec(init);
    BumpSpec(es, k);
    var b := Bump(es, k);
    assert (init + [k])[..|init + [k]| - 1] == init;
    if k in init {
      assert GroupKeys(b) == GroupKeys(es);
    } else {
      assert GroupKeys(b) == GroupKeys(es) + [k];
    }
  }

  /** Counting one more key `k` keeps the table a tally of the keys seen. */
  lemma {:induction false} BumpTallies<K>(es: seq<(K, nat)>, m: multiset<K>, k: K)
    requires Tallies(es, m)
    ensures Tallies(Bump(es, k), m + multiset{k})
  {
    BumpSpec(es, k);
    var b := Bump(es, k);
    assert k in GroupKeys(es) <==> k in m;
    if k in m {
      assert GroupKeys(b) == GroupKeys(es);
    } else {
      assert GroupKeys(b) == GroupKeys(es) + [k];
    }
    forall i | 0 <= i < |b| ensures b[i].1 == (m + multiset{k})[b[i].0] && b[i].1 > 0 {
      if i == |es| {
        assert m[k] == 0;
      }
    }
  }

  /** In a table of distinct keys, `find` returns the count of the key's only group. */
  lemma {:induction false} FindSpec<K>(es: seq<(K, nat)>, k: K)
    requires NoDup(GroupKeys(es))
    ensures Find(es, k).Some? <==> k in GroupKeys(es)
    ensures forall i :: 0 <= i < |es| && es[i].0 == k ==> Find(es, k) == Some(es[i].1)
  {
    if es != [] {
      var rest := es[1..];
      assert NoDup(GroupKeys(rest)) by {
        forall i, j | 0 <= i < j < |rest| ensures GroupKeys(rest)[i] != GroupKeys(rest)[j] {
          assert GroupKeys(es)[i + 1] != GroupKeys(es)[j + 1];
        }
      }
      FindSpec(rest, k);
      if es[0].0 == k {
        assert GroupKeys(es)[0] == k;
        forall i | 1 <= i < |es| ensures es[i].0 != k {
          assert GroupKeys(es)[0] != GroupKeys(es)[i];
        }
      } else {
        assert k in GroupKeys(es) <==> k in GroupKeys(rest) by {
          if k in GroupKeys(es) {
            var i :| 0 <= i < |es| && GroupKeys(es)[i] == k;
            assert GroupKeys(rest)[i - 1] == k;
          }
          if k in GroupKeys(rest) {
            var i :| 0 <= i < |rest| && GroupKeys(rest)[i] == k;
            assert GroupKeys(es)[i + 1] == k;
          }
        }
        forall i | 0 <= i < |es| && es[i].0 == k ensures Find(es, k) == Some(es[i].1) {
          assert rest[i - 1] == es[i];
        }
      }
    }
  }

  /** Looking a key up in a tally gives its multiplicity, and nothing for an unseen key. */
  lemma {:induction false} TalliesFind<K>(es: seq<(K, nat)>, m: multiset<K>, k: K)
    requires Tallies(es, m)
    ensures Find(es, k) == if k in m then Some(m[k]) else None
  {
    FindSpec(es, k);
    if k in GroupKeys(es) {
      var i :| 0 <= i < |es| && GroupKeys(es)[i] == k;
    }
  }

  /** A rollup looked up by key: the number of records with that key, or nothing. */
  lemma {:induction false} RollupFind<K>(ks: seq<K>, k: K)
    ensures Find(Rollup(ks), k) == if k in ks then Some(multiset(ks)[k]) else None
  {
    RollupSpec(ks);
    TalliesFind(Rollup(ks), multiset(ks), k);
  }

  /** The sum of the counts of a grouped result. */
  function TotalCount<K>(es: seq<(K, nat)>): nat
  {
    if es == [] then 0 else es[0].1 + TotalCount(es[1..])
  }

  lemma {:induction false} BumpTotal<K>(es: seq<(K, nat)>, k: K)
    ensures TotalCount(Bump(es, k)) == TotalCount(es) + 1
  {
    if es != [] && es[0].0 == k {
      assert Bump(es, k)[1..] == es[1..];
    } else if es != [] {
      BumpTotal(es[1..], k);
      assert Bump(es, k)[1..] == Bump(es[1..], k);
    }
  }

  /** No record is lost or counted twice: the counts add up to the number of records. */
  lemma {:induction false} RollupTotal<K>(ks: seq<K>)
    ensures TotalCount(Rollup(ks)) == |ks|
  {
    if ks != [] {
      RollupTotal(ks[..|ks| - 1]);
      BumpTotal(Rollup(ks[..|ks| - 1]), ks[|ks| - 1]);
    }
  }

  // ---------------------------------------------------------------------------
  // Two-level grouping
  // ---------------------------------------------------------------------------

  /** The second keys of the records whose first key is `a`, in record order. */
  function SecondsWhere<A(==), B>(pairs: seq<(A, B)>, a: A): seq<B>
  {
    if pairs == [] then []
    else
      var last := pairs[|pairs| - 1];
      SecondsWhere(pairs[..|pairs| - 1], a) + (if last.0 == a then [last.1] else [])
  }

  lemma {:induction false} SecondsWhereCount<A, B>(pairs: seq<(A, B)>, a: A)
    ensures forall b :: multiset(SecondsWhere(pairs, a))[b] == multiset(pairs)[(a, b)]
  {
    if pairs != [] {
      var init := pairs[..|pairs| - 1];
      SecondsWhereCount(init, a);
      assert pairs == init + [pairs[|pairs| - 1]];
    }
  }

  /**
   `d3.rollups(data, v => v.length, key1, key2)`: one entry per first key (in
   first-appearance order), each holding the rollup by second key of the records
   in that group.
   */
  function NestedRollup<A(==), B(==)>(pairs: seq<(A, B)>): (r: seq<(A, seq<(B, nat)>)>)
    ensures |r| <= |pairs|
  {
    var outer := Rollup(GroupKeys(pairs));
    seq(|outer|, i requires 0 <= i < |outer| => (outer[i].0, Rollup(SecondsWhere(pairs, outer[i].0))))
  }

  /**
   The nested rollup has one entry per distinct first key, in first-appearance
   order; the inner table of first key `a` counts, for each second key `b`, the
   records carrying the pair `(a, b)`, and has no entry for pairs never seen.
   */
  lemma {:induction false} NestedRollupSpec<A, B(!new)>(pairs: seq<(A, B)>)
    ensures GroupKeys(NestedRollup(pairs)) == Distinct(GroupKeys(pairs))
    ensures forall i :: 0 <= i < |NestedRollup(pairs)| ==>
      NestedTally(NestedRollup(pairs)[i], pairs)
  {
    var outer := Rollup(GroupKeys(pairs));
    RollupSpec(GroupKeys(pairs));
    var n := NestedRollup(pairs);
    assert GroupKeys(n) == GroupKeys(outer);
    forall i | 0 <= i < |n| ensures NestedTally(n[i], pairs) {
      var a := n[i].0;
      RollupSpec(SecondsWhere(pairs, a));
      SecondsWhereCount(pairs, a);
      forall b ensures Find(n[i].1, b) == if (a, b) in pairs then Some(multiset(pairs)[(a, b)]) else None {
        RollupFind(SecondsWhere(pairs, a), b);
        assert b in SecondsWhere(pairs, a) <==> b in multiset(SecondsWhere(pairs, a));
      }
    }
  }

  /** Entry `e` of a nested rollup of `pairs`: its inner table has distinct keys and counts the pairs `(e.0, b)`. */
  ghost predicate NestedTally<A, B(!new)>(e: (A, seq<(B, nat)>), pairs: seq<(A, B)>)
  {
    && NoDup(GroupKeys(e.1))
    && forall b :: Find(e.1, b) == if (e.0, b) in pairs then Some(multiset(pairs)[(e.0, b)]) else None
  }
}
