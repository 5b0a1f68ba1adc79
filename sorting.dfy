/**
 * List.sort with a key comparator: an insertion sort on a sequence,
 * ascending by a real-valued key (a descending order is the ascending order
 * of the negated key).
 */
module Sorting {

  /** Keys never decrease along the sequence. */
  predicate SortedBy<T>(xs: seq<T>, key: T -> real) {
    forall i, j :: 0 <= i < j < |xs| ==> key(xs[i]) <= key(xs[j])
  }

  /** x goes in front of the first element whose key is not below its own. */
  function Insert<T>(x: T, xs: seq<T>, key: T -> real): (r: seq<T>)
    ensures multiset(r) == multiset(xs) + multiset{x}
    ensures |r| == |xs| + 1
    decreases |xs|
  {
    if xs == [] || key(x) <= key(xs[0]) then [x] + xs
    else
      assert xs == [xs[0]] + xs[1..];
      [xs[0]] + Insert(x, xs[1..], key)
  }

  lemma SortedTail<T>(xs: seq<T>, key: T -> real)
    requires xs != [] && SortedBy(xs, key)
    ensures SortedBy(xs[1..], key)
  {
    forall i, j | 0 <= i < j < |xs[1..]| ensures key(xs[1..][i]) <= key(xs[1..][j]) {
      assert xs[1..][i] == xs[i + 1] && xs[1..][j] == xs[j + 1];
    }
  }

  /** Every element of a sorted sequence is at least its head. */
  lemma SortedHeadIsLeast<T>(xs: seq<T>, key: T -> real, y: T)
    requires SortedBy(xs, key) && y in multiset(xs)
    ensures key(xs[0]) <= key(y)
  {
    var k :| 0 <= k < |xs| && xs[k] == y;
    if k > 0 {
      assert key(xs[0]) <= key(xs[k]);
    }
  }

  /** A head no greater than any element of a sorted tail keeps it sorted. */
  lemma ConsSorted<T>(x: T, xs: seq<T>, key: T -> real)
    requires SortedBy(xs, key) && forall y :: y in multiset(xs) ==> key(x) <= key(y)
    ensures SortedBy([x] + xs, key)
  {
    var r := [x] + xs;
    forall i, j | 0 <= i < j < |r| ensures key(r[i]) <= key(r[j]) {
      assert r[j] == xs[j - 1] && r[j] in multiset(xs);
      if i > 0 {
        assert r[i] == xs[i - 1];
      }
    }
  }

  lemma {:induction false} InsertSorted<T>(x: T, xs: seq<T>, key: T -> real)
    requires SortedBy(xs, key)
    ensures SortedBy(Insert(x, xs, key), key)
    decreases |xs|
  {
    if xs == [] || key(x) <= key(xs[0]) {
      forall y | y in multiset(xs) ensures key(x) <= key(y) {
        SortedHeadIsLeast(xs, key, y);
      }
      ConsSorted(x, xs, key);
    } else {
      SortedTail(xs, key);
      InsertSorted(x, xs[1..], key);
      var rest := Insert(x, xs[1..], key);
      forall y | y in multiset(rest) ensures key(xs[0]) <= key(y) {
        if y != x {
          assert y in multiset(xs[1..]);
          assert xs == [xs[0]] + xs[1..];
          SortedHeadIsLeast(xs, key, y);
        }
      }
      ConsSorted(xs[0], rest, key);
    }
  }

  /** The sorted permutation of xs. */
  function SortBy<T>(xs: seq<T>, key: T -> real): (r: seq<T>)
    ensures multiset(r) == multiset(xs)
    ensures |r| == |xs|
    decreases |xs|
  {
    if xs == [] then []
    else
      assert xs == [xs[0]] + xs[1..];
      Insert(xs[0], SortBy(xs[1..], key), key)
  }

  /** SortBy sorts. */
  lemma {:induction false} SortBySorted<T>(xs: seq<T>, key: T -> real)
    ensures SortedBy(SortBy(xs, key), key)
    decreases |xs|
  {
    if xs != [] {
      SortBySorted(xs[1..], key);
      InsertSorted(xs[0], SortBy(xs[1..], key), key);
    }
  }
}
