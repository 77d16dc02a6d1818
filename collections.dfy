/**
 Generic sequence helpers the aggregation code relies on: the insertion-ordered
 set of JavaScript (`Array.from(new Set(xs))`), the stable comparison sort of
 `Array.prototype.sort` with a numeric comparator, and the order-preserving
 `filter` used for the year-range selection.
 */
module Collections {

  datatype Option<T> = None | Some(value: T)

  /** No element occurs twice. */
  ghost predicate NoDup<T>(s: seq<T>)
  {
    forall i, j :: 0 <= i < j < |s| ==> s[i] != s[j]
  }

  // ---------------------------------------------------------------------------
  // Insertion-ordered set
  // ---------------------------------------------------------------------------

  /** `Array.from(new Set(xs))`: each value once, at its first appearance. */
  function Distinct<T(==)>(xs: seq<T>): (r: seq<T>)
    ensures |r| <= |xs|
    ensures forall x :: x in r ==> x in xs
  {
    if xs == [] then []
    else
      var d := Distinct(xs[..|xs| - 1]);
      if xs[|xs| - 1] in d then d else d + [xs[|xs| - 1]]
  }

  /** The set holds every value of the input exactly once and nothing else. */
  lemma {:induction false} DistinctSpec<T>(xs: seq<T>)
    ensures NoDup(Distinct(xs))
    ensures forall x :: x in Distinct(xs) <==> x in xs
  {
    if xs != [] {
      var init := xs[..|xs| - 1];
      DistinctSpec(init);
      assert xs == init + [xs[|xs| - 1]];
    }
  }

  /** `.filter(d => d)` on strings: drops the empty (falsy) string. */
  function NonEmpty(xs: seq<string>): (r: seq<string>)
    ensures forall x :: x in r <==> x in xs && x != ""
  {
    if xs == [] then []
    else if xs[0] == "" then NonEmpty(xs[1..])
    else [xs[0]] + NonEmpty(xs[1..])
  }

  /** Dropping the empty string keeps the values distinct. */
  lemma {:induction false} NonEmptyNoDup(xs: seq<string>)
    requires NoDup(xs)
    ensures NoDup(NonEmpty(xs))
  {
    if xs != [] {
      assert NoDup(xs[1..]) by {
        forall i, j | 0 <= i < j < |xs[1..]| ensures xs[1..][i] != xs[1..][j] {
          assert xs[1..][i] == xs[i + 1] && xs[1..][j] == xs[j + 1];
        }
      }
      NonEmptyNoDup(xs[1..]);
      assert xs[0] !in xs[1..] by {
        forall k | 0 <= k < |xs[1..]| ensures xs[1..][k] != xs[0] {
          assert xs[1..][k] == xs[k + 1];
        }
      }
    }
  }

  // ---------------------------------------------------------------------------
  // Ordering by an integer key
  // ---------------------------------------------------------------------------

  ghost predicate SortedBy<T>(s: seq<T>, key: T -> int)
  {
    forall i, j :: 0 <= i < j < |s| ==> key(s[i]) <= key(s[j])
  }

  ghost predicate StrictlyAscending<T>(s: seq<T>, key: T -> int)
  {
    forall i, j :: 0 <= i < j < |s| ==> key(s[i]) < key(s[j])
  }

  /** No two elements share a key. */
  ghost predicate DistinctKeys<T>(s: seq<T>, key: T -> int)
  {
    forall i, j :: 0 <= i < j < |s| ==> key(s[i]) != key(s[j])
  }

  /** Places `x` before the first element whose key is not smaller (stable). */
  function Insert<T>(x: T, s: seq<T>, key: T -> int): (r: seq<T>)
    ensures |r| == |s| + 1
  {
    if s == [] || key(x) <= key(s[0]) then [x] + s
    else [s[0]] + Insert(x, s[1..], key)
  }

  /** `xs.sort((a, b) => key(a) - key(b))`: a stable sort by ascending key. */
  function SortBy<T>(xs: seq<T>, key: T -> int): (r: seq<T>)
    ensures |r| == |xs|
  {
    if xs == [] then [] else Insert(xs[0], SortBy(xs[1..], key), key)
  }

  lemma {:induction false} InsertPerm<T>(x: T, s: seq<T>, key: T -> int)
    ensures multiset(Insert(x, s, key)) == multiset(s) + multiset{x}
  {
    if s != [] && key(x) > key(s[0]) {
      InsertPerm(x, s[1..], key);
      assert s == [s[0]] + s[1..];
    }
  }

  lemma {:induction false} InsertSpec<T>(x: T, s: seq<T>, key: T -> int)
    requires SortedBy(s, key)
    ensures SortedBy(Insert(x, s, key), key)
    ensures multiset(Insert(x, s, key)) == multiset(s) + multiset{x}
  {
    InsertPerm(x, s, key);
    if s == [] {
    } else if key(x) <= key(s[0]) {
      forall y | y in s ensures key(x) <= key(y) {
        var k :| 0 <= k < |s| && s[k] == y;
      }
      SortedCons(x, s, key);
    } else {
      var rest := s[1..];
      assert SortedBy(rest, key) by {
        forall i, j | 0 <= i < j < |rest| ensures key(rest[i]) <= key(rest[j]) {
          assert rest[i] == s[i + 1] && rest[j] == s[j + 1];
        }
      }
      InsertSpec(x, rest, key);
      var t := Insert(x, rest, key);
      forall y | y in t ensures key(s[0]) <= key(y) {
        assert y in multiset(t);
        if y != x {
          assert y in rest;
          var k :| 0 <= k < |rest| && rest[k] == y;
          assert rest[k] == s[k + 1];
        }
      }
      SortedCons(s[0], t, key);
    }
  }

  lemma {:induction false} SortedCons<T>(x: T, t: seq<T>, key: T -> int)
    requires SortedBy(t, key)
    requires forall y :: y in t ==> key(x) <= key(y)
    ensures SortedBy([x] + t, key)
  {
    forall i, j | 0 <= i < j < |[x] + t| ensures key(([x] + t)[i]) <= key(([x] + t)[j]) {
      assert ([x] + t)[j] == t[j - 1];
      if i > 0 {
        assert ([x] + t)[i] == t[i - 1];
      } else {
        assert t[j - 1] in t;
      }
    }
  }

  lemma {:induction false} InsertStrict<T>(x: T, s: seq<T>, key: T -> int)
    requires StrictlyAscending(s, key)
    requires forall y :: y in s ==> key(y) != key(x)
    ensures StrictlyAscending(Insert(x, s, key), key)
  {
    if s != [] && key(x) > key(s[0]) {
      var rest := s[1..];
      assert StrictlyAscending(rest, key) by {
        forall i, j | 0 <= i < j < |rest| ensures key(rest[i]) < key(rest[j]) {
          assert rest[i] == s[i + 1] && rest[j] == s[j + 1];
        }
      }
      assert forall y :: y in rest ==> y in s;
      InsertStrict(x, rest, key);
      InsertPerm(x, rest, key);
      var t := Insert(x, rest, key);
      forall y | y in t ensures key(s[0]) < key(y) {
        assert y in multiset(t);
        if y != x {
          assert y in rest;
          var i :| 0 <= i < |rest| && rest[i] == y;
          assert s[i + 1] == y;
        }
      }
      StrictCons(s[0], t, key);
      assert Insert(x, s, key) == [s[0]] + t;
    } else {
      forall y | y in s ensures key(x) < key(y) {
        var i :| 0 <= i < |s| && s[i] == y;
        assert key(s[0]) <= key(s[i]);
      }
      StrictCons(x, s, key);
    }
  }

  /** The sort orders by key and is a permutation of its input. */
  lemma {:induction false} SortBySpec<T>(xs: seq<T>, key: T -> int)
    ensures SortedBy(SortBy(xs, key), key)
    ensures multiset(SortBy(xs, key)) == multiset(xs)
  {
    if xs != [] {
      SortBySpec(xs[1..], key);
      InsertSpec(xs[0], SortBy(xs[1..], key), key);
      assert xs == [xs[0]] + xs[1..];
    }
  }

  /** With pairwise distinct keys the sorted result is strictly ascending. */
  lemma {:induction false} SortByStrict<T>(xs: seq<T>, key: T -> int)
    requires DistinctKeys(xs, key)
    ensures StrictlyAscending(SortBy(xs, key), key)
    ensures multiset(SortBy(xs, key)) == multiset(xs)
  {
    SortBySpec(xs, key);
    if xs != [] {
      var rest := SortBy(xs[1..], key);
      SortByStrict(xs[1..], key);
      forall y | y in rest ensures key(y) != key(xs[0]) {
        assert y in multiset(rest);
        var k :| 1 <= k < |xs| && xs[k] == y;
      }
      InsertStrict(xs[0], rest, key);
    }
  }

  /** Two strictly ascending sequences holding the same elements are equal. */
  lemma {:induction false} StrictlyAscendingUnique<T>(s: seq<T>, t: seq<T>, key: T -> int)
    requires StrictlyAscending(s, key) && StrictlyAscending(t, key)
    requires forall x :: x in s <==> x in t
    ensures s == t
  {
    assert s != [] ==> s[0] in t;
    assert t != [] ==> t[0] in s;
    if s != [] {
      var k :| 0 <= k < |t| && t[k] == s[0];
      var m :| 0 <= m < |s| && s[m] == t[0];
      assert forall i :: 0 <= i < |s| ==> key(s[0]) <= key(s[i]);
      assert key(s[0]) <= key(t[0]);
      assert k == 0;
      forall x ensures x in s[1..] <==> x in t[1..] {
        if x in s[1..] {
          var i :| 1 <= i < |s| && s[i] == x;
          assert key(s[0]) < key(x);
          assert x in t;
        }
        if x in t[1..] {
          var i :| 1 <= i < |t| && t[i] == x;
          assert key(t[0]) < key(x);
          assert x in s;
        }
      }
      StrictlyAscendingUnique(s[1..], t[1..], key);
      assert s == [s[0]] + s[1..];
      assert t == [t[0]] + t[1..];
    }
  }

  // ---------------------------------------------------------------------------
  // Inclusive range selection
  // ---------------------------------------------------------------------------

  /** `s.filter(d => key(d) >= lo && key(d) <= hi)`. */
  function InRange<T>(s: seq<T>, key: T -> int, lo: int, hi: int): (r: seq<T>)
    ensures |r| <= |s|
    ensures forall i :: 0 <= i < |r| ==> lo <= key(r[i]) <= hi
  {
    if s == [] then []
    else if lo <= key(s[0]) <= hi then [s[0]] + InRange(s[1..], key, lo, hi)
    else InRange(s[1..], key, lo, hi)
  }

  /** The selection keeps exactly the elements inside `[lo, hi]`, and keeps an ascending order. */
  lemma {:induction false} InRangeSpec<T>(s: seq<T>, key: T -> int, lo: int, hi: int)
    ensures forall x :: x in InRange(s, key, lo, hi) ==> x in s && lo <= key(x) <= hi
    ensures forall x :: x in s && lo <= key(x) <= hi ==> x in InRange(s, key, lo, hi)
    ensures StrictlyAscending(s, key) ==> StrictlyAscending(InRange(s, key, lo, hi), key)
  {
    if s != [] {
      var rest := s[1..];
      InRangeSpec(rest, key, lo, hi);
      var r := InRange(rest, key, lo, hi);
      assert s == [s[0]] + rest;
      if StrictlyAscending(s, key) {
        assert StrictlyAscending(rest, key) by {
          forall i, j | 0 <= i < j < |rest| ensures key(rest[i]) < key(rest[j]) {
            assert rest[i] == s[i + 1] && rest[j] == s[j + 1];
          }
        }
        forall x | x in r ensures key(s[0]) < key(x) {
          assert x in rest;
          var i :| 0 <= i < |rest| && rest[i] == x;
          assert s[i + 1] == x;
        }
        StrictCons(s[0], r, key);
      }
    }
  }

  lemma {:induction false} StrictCons<T>(x: T, t: seq<T>, key: T -> int)
    requires StrictlyAscending(t, key)
    requires forall y :: y in t ==> key(x) < key(y)
    ensures StrictlyAscending([x] + t, key)
  {
    forall i, j | 0 <= i < j < |[x] + t| ensures key(([x] + t)[i]) < key(([x] + t)[j]) {
      assert ([x] + t)[j] == t[j - 1];
      if i > 0 {
        assert ([x] + t)[i] == t[i - 1];
      } else {
        assert t[j - 1] in t;
      }
    }
  }

  /** A selection that covers every key keeps the whole sequence. */
  lemma {:induction false} InRangeAll<T>(s: seq<T>, key: T -> int, lo: int, hi: int)
    requires forall x :: x in s ==> lo <= key(x) <= hi
    ensures InRange(s, key, lo, hi) == s
  {
    if s != [] {
      assert s[0] in s;
      forall x | x in s[1..] ensures lo <= key(x) <= hi {
        assert x in s;
      }
      InRangeAll(s[1..], key, lo, hi);
    }
  }
}
