/** The two sorting policies: an identity index vector handed to `std::sort`
    with the comparator `data[a] < data[b]` (ascending) or `data[a] > data[b]`
    (descending). `std::sort` promises a sorted permutation and nothing about
    how equal elements end up, so that is all the model promises as well. */
module Sorting {
  import opened IndexOrders

  /** Which comparator is handed to `std::sort`. */
  datatype Direction = Ascending | Descending

  /** The comparator: `x` must strictly come before `y`. */
  predicate Comes(dir: Direction, x: int, y: int) {
    match dir
    case Ascending => x < y
    case Descending => x > y
  }

  /** No value comes strictly before a value placed ahead of it. */
  predicate Ordered(vals: seq<int>, dir: Direction) {
    forall p, q :: 0 <= p < q < |vals| ==> !Comes(dir, vals[q], vals[p])
  }

  /** A possible outcome of `std::sort` over the identity index vector: a
      permutation of the positions that visits the values in order. */
  ghost predicate IsSortedOrder(data: seq<int>, order: seq<nat>, dir: Direction) {
    IsPermutation(order, |data|) && InBounds(order, |data|) && Ordered(Collect(data, order), dir)
  }

  /** A position in a[lo..] whose value no other value there comes before. */
  method SelectFirst(a: array<nat>, data: seq<int>, dir: Direction, lo: nat) returns (m: nat)
    requires lo < a.Length && InBounds(a[..], |data|)
    ensures lo <= m < a.Length
    ensures forall q :: lo <= q < a.Length ==> !Comes(dir, data[a[q]], data[a[m]])
  {
    m := lo;
    var j := lo + 1;
    while j < a.Length
      invariant lo <= m < j <= a.Length
      invariant forall q :: lo <= q < j ==> !Comes(dir, data[a[q]], data[a[m]])
    {
      if Comes(dir, data[a[j]], data[a[m]]) {
        m := j;
      }
      j := j + 1;
    }
  }

  /** The state a selection sort keeps: the first `i` entries are in order
      and none of the rest comes before any of them. */
  predicate SortedPrefix(s: seq<nat>, data: seq<int>, dir: Direction, i: nat) {
    && InBounds(s, |data|)
    && i <= |s|
    && (forall p, q :: 0 <= p < q < i ==> !Comes(dir, data[s[q]], data[s[p]]))
    && (forall p, q :: 0 <= p < i <= q < |s| ==> !Comes(dir, data[s[q]], data[s[p]]))
  }

  /** Swapping a first-in-order entry of s[i..] into position i extends the
      sorted prefix by one. */
  lemma SelectionStep(s: seq<nat>, data: seq<int>, dir: Direction, i: nat, m: nat)
    requires SortedPrefix(s, data, dir, i) && i <= m < |s|
    requires forall q :: i <= q < |s| ==> !Comes(dir, data[s[q]], data[s[m]])
    ensures SortedPrefix(s[i := s[m]][m := s[i]], data, dir, i + 1)
  {
    var t := s[i := s[m]][m := s[i]];
    assert forall k :: 0 <= k < |t| ==> t[k] == if k == i then s[m] else if k == m then s[i] else s[k];
  }

  /** A fully sorted prefix means the whole walk is in order. */
  lemma SortedPrefixOrdered(s: seq<nat>, data: seq<int>, dir: Direction)
    requires SortedPrefix(s, data, dir, |s|)
    ensures Ordered(Collect(data, s), dir)
  {
    var vals := Collect(data, s);
    forall p, q | 0 <= p < q < |vals| ensures !Comes(dir, vals[q], vals[p]) {
      assert vals[p] == data[s[p]] && vals[q] == data[s[q]];
    }
  }

  /** Exchanges two entries of the index vector. */
  method Swap(a: array<nat>, i: nat, j: nat)
    requires i < a.Length && j < a.Length
    modifies a
    ensures a[..] == old(a[..])[i := old(a[j])][j := old(a[i])]
    ensures multiset(a[..]) == old(multiset(a[..]))
  {
    a[i], a[j] := a[j], a[i];
  }

  /** `std::sort(order.begin(), order.end(), comp)` with `comp` comparing the
      values the indices select. The body is a selection sort, which, like
      `std::sort`, does not keep equal elements in their original order. */
  method SortIndices(a: array<nat>, data: seq<int>, dir: Direction)
    requires InBounds(a[..], |data|)
    modifies a
    ensures multiset(a[..]) == old(multiset(a[..]))
    ensures InBounds(a[..], |data|)
    ensures Ordered(Collect(data, a[..]), dir)
  {
    var i := 0;
    while i < a.Length
      invariant multiset(a[..]) == old(multiset(a[..]))
      invariant SortedPrefix(a[..], data, dir, i)
    {
      var m := SelectFirst(a, data, dir, i);
      SelectionStep(a[..], data, dir, i, m);
      Swap(a, i, m);
      i := i + 1;
    }
    SortedPrefixOrdered(a[..], data, dir);
  }

  /** The ascending or descending policy: `resize`, `iota`, then `std::sort`. */
  method BuildSorted(data: seq<int>, dir: Direction) returns (order: seq<nat>)
    ensures IsSortedOrder(data, order, dir)
  {
    var a := FillIota(|data|);
    SortIndices(a, data, dir);
    order := a[..];
    assert multiset(order) == multiset(Iota(|data|));
  }

  /** Every entry of an ordered sequence is "no earlier than" its first. */
  lemma FirstComesFirst(x: seq<int>, dir: Direction, v: int)
    requires Ordered(x, dir) && v in x
    ensures !Comes(dir, v, x[0])
  {
    var k :| 0 <= k < |x| && x[k] == v;
    if k > 0 {
      assert !Comes(dir, x[k], x[0]);
    }
  }

  /** Equal multisets with equal first entries have equal remainders. */
  lemma TailsAgree<X>(x: seq<X>, y: seq<X>)
    requires |x| > 0 && |y| > 0 && x[0] == y[0] && multiset(x) == multiset(y)
    ensures multiset(x[1..]) == multiset(y[1..])
  {
    assert multiset(x) == multiset(x[1..]) + multiset{x[0]} by {
      assert x == [x[0]] + x[1..];
    }
    assert multiset(y) == multiset(y[1..]) + multiset{y[0]} by {
      assert y == [y[0]] + y[1..];
    }
    CancelOne(multiset(x[1..]), multiset(y[1..]), x[0]);
  }

  /** Two ordered sequences with the same multiset are the same sequence. */
  lemma {:induction false} OrderedUnique(x: seq<int>, y: seq<int>, dir: Direction)
    requires Ordered(x, dir) && Ordered(y, dir)
    requires multiset(x) == multiset(y)
    ensures x == y
    decreases |x|
  {
    assert |y| == |multiset(y)| == |multiset(x)| == |x|;
    if |x| > 0 {
      assert x[0] in y by { assert x[0] in multiset(x); }
      assert y[0] in x by { assert y[0] in multiset(y); }
      FirstComesFirst(y, dir, x[0]);
      FirstComesFirst(x, dir, y[0]);
      TailsAgree(x, y);
      OrderedUnique(x[1..], y[1..], dir);
      assert x == [x[0]] + x[1..] && y == [y[0]] + y[1..];
    }
  }

  /** A sorted order visits exactly the stored values, in order: the values
      the ascending traversal collects are the sorted contents of the store. */
  lemma SortedOrderVisitsAll(data: seq<int>, order: seq<nat>, dir: Direction)
    requires IsSortedOrder(data, order, dir)
    ensures |order| == |data|
    ensures multiset(Collect(data, order)) == multiset(data)
    ensures Ordered(Collect(data, order), dir)
  {
    PermutationMeaning(order, |data|);
    PermutationVisitsAll(data, order);
  }

  /** Whatever arrangement of equal elements `std::sort` picks, the values
      visited are always the same. */
  lemma SortedValuesDetermined(data: seq<int>, o1: seq<nat>, o2: seq<nat>, dir: Direction)
    requires IsSortedOrder(data, o1, dir) && IsSortedOrder(data, o2, dir)
    ensures Collect(data, o1) == Collect(data, o2)
  {
    SortedOrderVisitsAll(data, o1, dir);
    SortedOrderVisitsAll(data, o2, dir);
    OrderedUnique(Collect(data, o1), Collect(data, o2), dir);
  }

  /** Reading ascending values backwards gives descending values. */
  lemma ReversedOrdered(vals: seq<int>)
    requires Ordered(vals, Ascending)
    ensures Ordered(Reversed(vals), Descending)
  {
    var r := Reversed(vals);
    forall p, q | 0 <= p < q < |r| ensures !Comes(Descending, r[q], r[p]) {
      assert r[q] == vals[|vals| - 1 - q] && r[p] == vals[|vals| - 1 - p];
    }
  }

  /** The descending traversal visits exactly the ascending traversal's values
      read backwards, for every content, duplicates included (the index
      orders may differ on ties, the values cannot). */
  lemma DescendingValuesReverseAscending(data: seq<int>, up: seq<nat>, down: seq<nat>)
    requires IsSortedOrder(data, up, Ascending) && IsSortedOrder(data, down, Descending)
    ensures Collect(data, down) == Reversed(Collect(data, up))
  {
    SortedOrderVisitsAll(data, up, Ascending);
    SortedOrderVisitsAll(data, down, Descending);
    var asc := Collect(data, up);
    ReversedOrdered(asc);
    ReversedMultiset(asc);
    OrderedUnique(Collect(data, down), Reversed(asc), Descending);
  }

  /** Ties are not ordered by position: with two equal values both index
      orders are possible outcomes of `std::sort`, in either direction. */
  lemma TiesUnordered(dir: Direction)
    ensures IsSortedOrder([5, 5], [0, 1], dir)
    ensures IsSortedOrder([5, 5], [1, 0], dir)
  {
    assert Iota(2) == [0, 1];
    assert Reversed(Iota(2)) == [1, 0];
    ReversedIotaIsPermutation(2);
    assert Collect([5, 5], [0, 1]) == [5, 5];
    assert Collect([5, 5], [1, 0]) == [5, 5];
  }
}
