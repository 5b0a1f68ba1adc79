/** Small sequence helpers shared by the modules below. */
module Seqs {
  import opened Wrappers

  /** No element occurs twice. */
  predicate Distinct<T(==)>(xs: seq<T>) {
    forall i, j :: 0 <= i < j < |xs| ==> xs[i] != xs[j]
  }

  /**
   * The elements of `xs` without repetitions, each at its first occurrence;
   * this is the order the model uses wherever Java iterates a hash set or map.
   */
  function Dedup<T(==,!new)>(xs: seq<T>): (r: seq<T>)
    ensures Distinct(r)
    ensures forall x :: x in r <==> x in xs
    ensures |r| <= |xs|
    decreases |xs|
  {
    if xs == [] then []
    else
      var d := Dedup(xs[..|xs| - 1]);
      var x := xs[|xs| - 1];
      assert forall i :: 0 <= i < |xs| - 1 ==> xs[i] == xs[..|xs| - 1][i];
      if x in d then d else d + [x]
  }

  /** The elements of `xs` satisfying `p`, in their order: a SQL WHERE clause over a table. */
  function Filter<T(==)>(xs: seq<T>, p: T -> bool): (r: seq<T>)
    ensures |r| <= |xs|
    ensures forall i :: 0 <= i < |r| ==> p(r[i]) && r[i] in xs
    ensures forall i :: 0 <= i < |xs| && p(xs[i]) ==> xs[i] in r
    decreases |xs|
  {
    if xs == [] then []
    else
      var rest := Filter(xs[1..], p);
      assert forall i :: 0 <= i < |rest| ==> rest[i] in xs by {
        forall i | 0 <= i < |rest| ensures rest[i] in xs {
          assert rest[i] in xs[1..];
        }
      }
      assert forall i :: 1 <= i < |xs| ==> xs[i] == xs[1..][i - 1];
      (if p(xs[0]) then [xs[0]] else []) + rest
  }

  /** No two elements share a key: a unique constraint. */
  predicate DistinctBy<T, K(==)>(xs: seq<T>, key: T -> K) {
    forall i, j :: 0 <= i < j < |xs| ==> key(xs[i]) != key(xs[j])
  }

  /** Keys strictly increase along the sequence: auto-increment ids in insertion order. */
  predicate IncreasingBy<T>(xs: seq<T>, key: T -> int) {
    forall i, j :: 0 <= i < j < |xs| ==> key(xs[i]) < key(xs[j])
  }

  /** A filtered table keeps its unique keys unique. */
  lemma {:induction false} FilterDistinctBy<T, K>(xs: seq<T>, p: T -> bool, key: T -> K)
    requires DistinctBy(xs, key)
    ensures DistinctBy(Filter(xs, p), key)
    decreases |xs|
  {
    if xs != [] {
      var rest := Filter(xs[1..], p);
      assert DistinctBy(xs[1..], key) by {
        forall i, j | 0 <= i < j < |xs[1..]| ensures key(xs[1..][i]) != key(xs[1..][j]) {
          assert xs[1..][i] == xs[i + 1] && xs[1..][j] == xs[j + 1];
        }
      }
      FilterDistinctBy(xs[1..], p, key);
      forall j | 0 <= j < |rest| ensures key(xs[0]) != key(rest[j]) {
        assert rest[j] in xs[1..];
        var k :| 0 <= k < |xs[1..]| && xs[1..][k] == rest[j];
        assert xs[1..][k] == xs[k + 1];
      }
    }
  }

  /** A filtered table keeps its ids increasing. */
  lemma {:induction false} FilterIncreasingBy<T>(xs: seq<T>, p: T -> bool, key: T -> int)
    requires IncreasingBy(xs, key)
    ensures IncreasingBy(Filter(xs, p), key)
    decreases |xs|
  {
    if xs != [] {
      var rest := Filter(xs[1..], p);
      assert IncreasingBy(xs[1..], key) by {
        forall i, j | 0 <= i < j < |xs[1..]| ensures key(xs[1..][i]) < key(xs[1..][j]) {
          assert xs[1..][i] == xs[i + 1] && xs[1..][j] == xs[j + 1];
        }
      }
      FilterIncreasingBy(xs[1..], p, key);
      if p(xs[0]) {
        HeadBelowFiltered(xs, p, key);
        ConsIncreasing(xs[0], rest, key);
      }
    }
  }

  /** The head of an increasing sequence is below every element the filter keeps of its tail. */
  lemma HeadBelowFiltered<T>(xs: seq<T>, p: T -> bool, key: T -> int)
    requires xs != [] && IncreasingBy(xs, key)
    ensures forall j :: 0 <= j < |Filter(xs[1..], p)| ==> key(xs[0]) < key(Filter(xs[1..], p)[j])
  {
    var rest := Filter(xs[1..], p);
    forall j | 0 <= j < |rest| ensures key(xs[0]) < key(rest[j]) {
      assert rest[j] in xs[1..];
      var k :| 0 <= k < |xs[1..]| && xs[1..][k] == rest[j];
      assert xs[1..][k] == xs[k + 1];
    }
  }

  /** An element below every element of an increasing sequence can go in front. */
  lemma ConsIncreasing<T>(x: T, rest: seq<T>, key: T -> int)
    requires IncreasingBy(rest, key) && forall j :: 0 <= j < |rest| ==> key(x) < key(rest[j])
    ensures IncreasingBy([x] + rest, key)
  {
    var r := [x] + rest;
    forall i, j | 0 <= i < j < |r| ensures key(r[i]) < key(r[j]) {
      assert r[j] == rest[j - 1];
      if i > 0 { assert r[i] == rest[i - 1]; }
    }
  }

  /** The first position at or after `k` whose element satisfies `p`. */
  function FirstWhere<T>(xs: seq<T>, p: T -> bool, k: nat): (r: Option<nat>)
    ensures r.Some? ==> k <= r.value < |xs| && p(xs[r.value]) && forall i :: k <= i < r.value ==> !p(xs[i])
    ensures r.None? ==> forall i :: k <= i < |xs| ==> !p(xs[i])
    decreases |xs| - k
  {
    if k >= |xs| then None else if p(xs[k]) then Some(k) else FirstWhere(xs, p, k + 1)
  }

  /**
   * A query the caller expects to return at most one row (a JPA single-result
   * finder): nothing, the one matching element, or a failure when two match.
   */
  function UniqueWhere<T>(xs: seq<T>, p: T -> bool, tooMany: string): (r: Result<Option<T>>)
    ensures r == Success(None) <==> forall i :: 0 <= i < |xs| ==> !p(xs[i])
    ensures r.Failure? <==> exists i, j :: 0 <= i < j < |xs| && p(xs[i]) && p(xs[j])
    ensures r.Failure? ==> r.error == tooMany
    ensures r.Success? && r.value.Some? ==>
      exists i :: 0 <= i < |xs| && xs[i] == r.value.value && p(xs[i]) && forall j :: 0 <= j < |xs| && j != i ==> !p(xs[j])
  {
    match FirstWhere(xs, p, 0)
    case None => Success(None)
    case Some(i) =>
      match FirstWhere(xs, p, i + 1)
      case None => Success(Some(xs[i]))
      case Some(j) => Failure(tooMany)
  }

  /** The number of occurrences of `x` in `xs`: Collectors.counting() over one group. */
  function Count<T(==)>(xs: seq<T>, x: T): (n: nat)
    ensures n <= |xs|
    ensures n == 0 <==> x !in xs
    decreases |xs|
  {
    if xs == [] then 0
    else
      assert xs == xs[..|xs| - 1] + [xs[|xs| - 1]];
      Count(xs[..|xs| - 1], x) + (if xs[|xs| - 1] == x then 1 else 0)
  }

  /** The occurrences in `xs` of each element of `keys`, added up. */
  function SumCounts<T(==)>(keys: seq<T>, xs: seq<T>): nat
    decreases |keys|
  {
    if keys == [] then 0 else SumCounts(keys[..|keys| - 1], xs) + Count(xs, keys[|keys| - 1])
  }

  lemma CountSnoc<T>(xs: seq<T>, x: T, k: T)
    ensures Count(xs + [x], k) == Count(xs, k) + if x == k then 1 else 0
  {
    assert (xs + [x])[..|xs|] == xs;
  }

  /** An element of a sequence without repetitions occurs in it once. */
  lemma {:induction false} CountDistinct<T>(keys: seq<T>, x: T)
    requires Distinct(keys) && x in keys
    ensures Count(keys, x) == 1
    decreases |keys|
  {
    var init := keys[..|keys| - 1];
    assert keys == init + [keys[|keys| - 1]];
    if keys[|keys| - 1] == x {
      assert x !in init by {
        forall i | 0 <= i < |init| ensures init[i] != x {
          assert keys[i] != keys[|keys| - 1];
        }
      }
    } else {
      assert Distinct(init);
      assert x in init;
      CountDistinct(init, x);
    }
  }

  lemma {:induction false} SumCountsSnoc<T>(keys: seq<T>, xs: seq<T>, x: T)
    ensures SumCounts(keys, xs + [x]) == SumCounts(keys, xs) + Count(keys, x)
    decreases |keys|
  {
    if keys != [] {
      SumCountsSnoc(keys[..|keys| - 1], xs, x);
      CountSnoc(xs, x, keys[|keys| - 1]);
    }
  }

  /** Adding a key of zero occurrences changes no total. */
  lemma SumCountsSnocKey<T>(keys: seq<T>, xs: seq<T>, k: T)
    ensures SumCounts(keys + [k], xs) == SumCounts(keys, xs) + Count(xs, k)
  {
    assert (keys + [k])[..|keys|] == keys;
  }

  /**
   * The group sizes of the distinct elements add up to the length: counting
   * each group of a list loses no element and counts none twice.
   */
  lemma {:induction false} DedupCountsSum<T(!new)>(xs: seq<T>)
    ensures SumCounts(Dedup(xs), xs) == |xs|
    decreases |xs|
  {
    if xs != [] {
      var ys := xs[..|xs| - 1];
      var x := xs[|xs| - 1];
      assert xs == ys + [x];
      var d := Dedup(ys);
      DedupCountsSum(ys);
      SumCountsSnoc(d, ys, x);
      if x in d {
        CountDistinct(d, x);
      } else {
        assert Count(d, x) == 0;
        SumCountsSnocKey(d, xs, x);
        CountSnoc(ys, x, x);
        assert x !in ys;
      }
    }
  }

  /** Two filters in a row are one filter by both conditions. */
  lemma {:induction false} FilterFilter<T>(xs: seq<T>, p: T -> bool, q: T -> bool, r: T -> bool)
    requires forall x :: r(x) == (p(x) && q(x))
    ensures Filter(Filter(xs, p), q) == Filter(xs, r)
    decreases |xs|
  {
    if xs != [] {
      var rest := Filter(xs[1..], p);
      FilterFilter(xs[1..], p, q, r);
      if p(xs[0]) {
        var once := [xs[0]] + rest;
        assert Filter(xs, p) == once;
        assert once[0] == xs[0] && once[1..] == rest;
      } else {
        assert Filter(xs, p) == rest;
      }
    }
  }

  /**
   * Two filters that pass the same positions of two sequences of one length,
   * whose passing elements agree, give the same sequence.
   */
  lemma {:induction false} FilterAgree<T>(xs: seq<T>, ys: seq<T>, p: T -> bool, q: T -> bool)
    requires |xs| == |ys|
    requires forall i :: 0 <= i < |xs| ==> p(xs[i]) == q(ys[i])
    requires forall i :: 0 <= i < |xs| && p(xs[i]) ==> xs[i] == ys[i]
    ensures Filter(xs, p) == Filter(ys, q)
    decreases |xs|
  {
    if xs != [] {
      assert forall i :: 0 <= i < |xs| - 1 ==> xs[1..][i] == xs[i + 1] && ys[1..][i] == ys[i + 1];
      FilterAgree(xs[1..], ys[1..], p, q);
    }
  }

  /** A filter every element passes keeps the whole sequence. */
  lemma {:induction false} FilterKeepsAll<T>(xs: seq<T>, p: T -> bool)
    requires forall x :: p(x)
    ensures Filter(xs, p) == xs
    decreases |xs|
  {
    if xs != [] {
      FilterKeepsAll(xs[1..], p);
      assert [xs[0]] + xs[1..] == xs;
    }
  }
}
