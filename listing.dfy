/** The query shapes the handlers build on: the rows of a table in id order, a filter,
    an ordering by a column, and `.first()` (the matching row with the lowest id). */
module Listing {
  import opened Common

  /** The rows of a table whose ids lie below `bound`, in increasing id order. */
  function Rows<T>(m: map<nat, T>, bound: nat): (r: seq<T>)
    ensures |r| <= bound
    ensures forall x :: x in r ==> exists k :: k in m && k < bound && m[k] == x
    ensures forall k :: k in m && k < bound ==> m[k] in r
    decreases bound
  {
    if bound == 0 then []
    else
      var rest := Rows(m, bound - 1);
      if bound - 1 in m then rest + [m[bound - 1]] else rest
  }

  /** The elements of `xs` that satisfy `p`, in their order. */
  function Filter<T(!new)>(xs: seq<T>, p: T -> bool): (r: seq<T>)
    ensures |r| <= |xs|
    ensures forall x :: x in r <==> x in xs && p(x)
    ensures multiset(r) <= multiset(xs)
  {
    if |xs| == 0 then []
    else
      var rest := Filter(xs[1..], p);
      assert xs == [xs[0]] + xs[1..];
      if p(xs[0]) then [xs[0]] + rest else rest
  }

  predicate SortedBy<T>(xs: seq<T>, key: T -> int)
  {
    forall i, j :: 0 <= i < j < |xs| ==> key(xs[i]) <= key(xs[j])
  }

  /** `xs` with `x` put before the first element whose key is not smaller. */
  function Insert<T>(x: T, xs: seq<T>, key: T -> int): (r: seq<T>)
    requires SortedBy(xs, key)
    ensures SortedBy(r, key)
    ensures multiset(r) == multiset(xs) + multiset{x}
  {
    if |xs| == 0 then [x]
    else if key(x) <= key(xs[0]) then [x] + xs
    else
      var rest := Insert(x, xs[1..], key);
      assert xs == [xs[0]] + xs[1..];
      assert forall y :: y in rest ==> key(xs[0]) <= key(y) by {
        forall y | y in rest ensures key(xs[0]) <= key(y) {
          assert y in multiset(rest);
          if y != x {
            assert y in multiset(xs[1..]);
          }
        }
      }
      [xs[0]] + rest
  }

  /** `ORDER BY key`: a rearrangement of `xs` in which the keys never decrease. Rows with
      equal keys come in no particular order. */
  function SortBy<T>(xs: seq<T>, key: T -> int): (r: seq<T>)
    ensures SortedBy(r, key)
    ensures multiset(r) == multiset(xs)
    ensures |r| == |xs|
  {
    if |xs| == 0 then []
    else
      assert xs == [xs[0]] + xs[1..];
      Insert(xs[0], SortBy(xs[1..], key), key)
  }

  lemma SortKeepsMembers<T(!new)>(xs: seq<T>, key: T -> int)
    ensures forall x :: x in SortBy(xs, key) <==> x in xs
  {
    var r := SortBy(xs, key);
    forall x ensures x in r <==> x in xs {
      assert x in r <==> x in multiset(r);
      assert x in xs <==> x in multiset(xs);
    }
  }

  // ---------------------------------------------------------------------------
  // Each row once

  /** No element occurs twice. */
  ghost predicate Distinct<T>(xs: seq<T>)
  {
    forall i, j :: 0 <= i < j < |xs| ==> xs[i] != xs[j]
  }

  /** Different ids hold different rows, as they do when every row carries its own id. */
  ghost predicate Injective<T>(m: map<nat, T>)
  {
    forall j, k :: j in m && k in m && j != k ==> m[j] != m[k]
  }

  lemma ConsDistinct<T>(x: T, xs: seq<T>)
    requires Distinct(xs) && x !in xs
    ensures Distinct([x] + xs)
  {
    var ys := [x] + xs;
    forall i, j | 0 <= i < j < |ys| ensures ys[i] != ys[j] {
      assert ys[j] == xs[j - 1];
      if i > 0 {
        assert ys[i] == xs[i - 1];
      }
    }
  }

  lemma PrefixDistinct<T>(xs: seq<T>, n: nat)
    requires Distinct(xs)
    ensures n <= |xs| ==> Distinct(xs[..n])
  {
    if n <= |xs| {
      var ys := xs[..n];
      forall i, j | 0 <= i < j < |ys| ensures ys[i] != ys[j] {
        assert ys[i] == xs[i] && ys[j] == xs[j];
      }
    }
  }

  /** Reading a table lists every row once when different ids hold different rows. */
  lemma {:induction false} RowsDistinct<T>(m: map<nat, T>, bound: nat)
    requires Injective(m)
    ensures Distinct(Rows(m, bound))
    decreases bound
  {
    if bound > 0 {
      RowsDistinct(m, bound - 1);
      var rest := Rows(m, bound - 1);
      if bound - 1 in m {
        var x := m[bound - 1];
        forall i | 0 <= i < |rest| ensures rest[i] != x {
          assert rest[i] in rest;
        }
        var r := rest + [x];
        forall i, j | 0 <= i < j < |r| ensures r[i] != r[j] {
          if j < |rest| {
            assert r[i] == rest[i] && r[j] == rest[j];
          } else {
            assert r[i] == rest[i];
          }
        }
      }
    }
  }

  /** Filtering never repeats an element. */
  lemma {:induction false} FilterDistinct<T(!new)>(xs: seq<T>, p: T -> bool)
    requires Distinct(xs)
    ensures Distinct(Filter(xs, p))
  {
    if |xs| > 0 {
      var tail := xs[1..];
      assert Distinct(tail) by {
        forall i, j | 0 <= i < j < |tail| ensures tail[i] != tail[j] {
          assert tail[i] == xs[i + 1] && tail[j] == xs[j + 1];
        }
      }
      FilterDistinct(tail, p);
      assert xs[0] !in tail by {
        forall i | 0 <= i < |tail| ensures tail[i] != xs[0] {
          assert tail[i] == xs[i + 1];
        }
      }
      if p(xs[0]) {
        ConsDistinct(xs[0], Filter(tail, p));
      }
    }
  }

  lemma {:induction false} InsertDistinct<T>(x: T, xs: seq<T>, key: T -> int)
    requires SortedBy(xs, key) && Distinct(xs) && x !in xs
    ensures Distinct(Insert(x, xs, key))
  {
    if |xs| == 0 {
    } else if key(x) <= key(xs[0]) {
      ConsDistinct(x, xs);
    } else {
      var tail := xs[1..];
      assert xs == [xs[0]] + tail;
      assert Distinct(tail) && x !in tail by {
        forall i, j | 0 <= i < j < |tail| ensures tail[i] != tail[j] {
          assert tail[i] == xs[i + 1] && tail[j] == xs[j + 1];
        }
      }
      InsertDistinct(x, tail, key);
      var rest := Insert(x, tail, key);
      assert xs[0] !in rest by {
        assert xs[0] !in multiset(tail) by {
          forall i | 0 <= i < |tail| ensures tail[i] != xs[0] {
            assert tail[i] == xs[i + 1];
          }
        }
        assert xs[0] != x;
        assert multiset(rest) == multiset(tail) + multiset{x};
        assert xs[0] !in multiset(rest);
      }
      ConsDistinct(xs[0], rest);
    }
  }

  /** Sorting never repeats an element. */
  lemma {:induction false} SortDistinct<T>(xs: seq<T>, key: T -> int)
    requires Distinct(xs)
    ensures Distinct(SortBy(xs, key))
  {
    if |xs| > 0 {
      var tail := xs[1..];
      assert Distinct(tail) by {
        forall i, j | 0 <= i < j < |tail| ensures tail[i] != tail[j] {
          assert tail[i] == xs[i + 1] && tail[j] == xs[j + 1];
        }
      }
      SortDistinct(tail, key);
      var sorted := SortBy(tail, key);
      assert xs[0] !in sorted by {
        assert xs[0] !in multiset(tail) by {
          forall i | 0 <= i < |tail| ensures tail[i] != xs[0] {
            assert tail[i] == xs[i + 1];
          }
        }
        assert multiset(sorted) == multiset(tail);
      }
      InsertDistinct(xs[0], sorted, key);
    }
  }

  lemma {:induction false} FilterAppend<T(!new)>(a: seq<T>, b: seq<T>, p: T -> bool)
    ensures Filter(a + b, p) == Filter(a, p) + Filter(b, p)
  {
    if |a| == 0 {
      assert a + b == b;
    } else {
      assert (a + b)[1..] == a[1..] + b;
      FilterAppend(a[1..], b, p);
    }
  }

  /** The ids below `bound` whose rows satisfy `p`. */
  ghost function MatchingIds<T>(m: map<nat, T>, bound: nat, p: T -> bool): set<nat>
  {
    set k | k in m && k < bound && p(m[k])
  }

  lemma MatchingIdsStep<T>(m: map<nat, T>, bound: nat, p: T -> bool)
    ensures |MatchingIds(m, bound + 1, p)| ==
              |MatchingIds(m, bound, p)| + (if bound in m && p(m[bound]) then 1 else 0)
  {
    var before := MatchingIds(m, bound, p);
    if bound in m && p(m[bound]) {
      assert MatchingIds(m, bound + 1, p) == before + {bound};
    } else {
      assert MatchingIds(m, bound + 1, p) == before;
    }
  }

  lemma RowsStep<T>(m: map<nat, T>, bound: nat)
    ensures Rows(m, bound + 1) == Rows(m, bound) + (if bound in m then [m[bound]] else [])
  {
  }

  lemma FilterStep<T(!new)>(xs: seq<T>, extra: seq<T>, p: T -> bool)
    requires |extra| <= 1
    ensures |Filter(xs + extra, p)| == |Filter(xs, p)| + (if |extra| == 1 && p(extra[0]) then 1 else 0)
  {
    FilterAppend(xs, extra, p);
    if |extra| == 1 {
      assert extra[1..] == [];
    }
  }

  /** The filtered table has one entry per id below `bound` whose row satisfies `p`. */
  lemma {:induction false} RowsCount<T(!new)>(m: map<nat, T>, bound: nat, p: T -> bool)
    ensures |Filter(Rows(m, bound), p)| == |MatchingIds(m, bound, p)|
    decreases bound
  {
    if bound == 0 {
      assert MatchingIds(m, bound, p) == {};
    } else {
      var b := bound - 1;
      var extra := if b in m then [m[b]] else [];
      RowsCount(m, b, p);
      MatchingIdsStep(m, b, p);
      RowsStep(m, b);
      FilterStep(Rows(m, b), extra, p);
    }
  }

  /** `SELECT ... WHERE p ORDER BY key`: the rows below `bound` that satisfy `p`, keys
      never decreasing, and no row twice when different ids hold different rows (how many
      entries there are is `QueryCount`). */
  function Query<T(!new)>(m: map<nat, T>, bound: nat, p: T -> bool, key: T -> int): (r: seq<T>)
    ensures forall x :: x in r ==> p(x) && exists k :: k in m && k < bound && m[k] == x
    ensures forall k :: k in m && k < bound && p(m[k]) ==> m[k] in r
    ensures SortedBy(r, key)
    ensures Injective(m) ==> Distinct(r)
  {
    var hits := Filter(Rows(m, bound), p);
    SortKeepsMembers(hits, key);
    assert Injective(m) ==> Distinct(SortBy(hits, key)) by {
      if Injective(m) {
        RowsDistinct(m, bound);
        FilterDistinct(Rows(m, bound), p);
        SortDistinct(hits, key);
      }
    }
    SortBy(hits, key)
  }

  /** A query has one entry per id below `bound` whose row satisfies `p`; `ids` is that set
      of ids, written out by the caller. */
  lemma QueryCount<T(!new)>(m: map<nat, T>, bound: nat, p: T -> bool, key: T -> int, ids: set<nat>)
    requires forall k :: k in ids <==> k in m && k < bound && p(m[k])
    ensures |Query(m, bound, p, key)| == |ids|
  {
    RowsCount(m, bound, p);
    assert MatchingIds(m, bound, p) == ids;
  }

  /** `.first()` on a query filtered by `p` and not ordered: the lowest id at or above `from`
      and below `bound` whose row satisfies `p`. */
  function FirstMatch<T>(m: map<nat, T>, p: T -> bool, from: nat, bound: nat): (r: Option<nat>)
    ensures r.Some? ==> from <= r.value < bound && r.value in m && p(m[r.value])
    ensures r.Some? ==> forall k :: from <= k < r.value && k in m ==> !p(m[k])
    ensures r.None? ==> forall k :: from <= k < bound && k in m ==> !p(m[k])
    decreases bound - from
  {
    if from >= bound then None
    else if from in m && p(m[from]) then Some(from)
    else FirstMatch(m, p, from + 1, bound)
  }
}
