/** The six order policies of `MyContainer`, each filling an index vector
    from a snapshot of the stored values, and what the traversal along each
    of them visits. */
module Policies {
  import opened IndexOrders
  import opened Sorting
  import opened SideCrossOrder
  import opened MiddleOutOrder

  /** The policy an iterator type is instantiated with. */
  datatype Policy =
    | PolicyOrder
    | PolicyReverse
    | PolicyAscending
    | PolicyDescending
    | PolicySideCross
    | PolicyMiddleOut

  /** The index vectors `p`'s build may leave for the values `data`. Only the
      two sorting policies and the side-cross policy (which sorts first) can
      leave more than one, because `std::sort` may arrange equal values
      either way. */
  ghost predicate Builds(p: Policy, data: seq<int>, order: seq<nat>) {
    match p
    case PolicyOrder => order == Iota(|data|)
    case PolicyReverse => order == Reversed(Iota(|data|))
    case PolicyAscending => IsSortedOrder(data, order, Ascending)
    case PolicyDescending => IsSortedOrder(data, order, Descending)
    case PolicySideCross =>
      exists s: seq<nat> :: IsSortedOrder(data, s, Ascending) && order == SideCross(s)
    case PolicyMiddleOut => order == MiddleOut(|data|)
  }

  /** How many positions `p` emits for n stored values: all of them, except
      for the side-cross walk over an even non-zero count. */
  function OrderLength(p: Policy, n: nat): (len: nat)
    ensures len == n || (p == PolicySideCross && len + 1 == n)
  {
    if p == PolicySideCross && n > 0 && n % 2 == 0 then n - 1 else n
  }

  /** `PolicyOrder::build`: `resize` and `iota`. */
  method BuildOrder(data: seq<int>) returns (order: seq<nat>)
    ensures order == Iota(|data|)
  {
    var a := FillIota(|data|);
    order := a[..];
  }

  /** `std::reverse` over a whole array: swap the outermost pair and move
      inwards until the two ends meet. */
  method ReverseInPlace(a: array<nat>)
    modifies a
    ensures a[..] == Reversed(old(a[..]))
  {
    var lo, hi := 0, a.Length;
    while lo + 1 < hi
      invariant lo + hi == a.Length && lo <= hi
      invariant forall k :: 0 <= k < lo ==> a[k] == old(a[a.Length - 1 - k])
      invariant forall k :: hi <= k < a.Length ==> a[k] == old(a[a.Length - 1 - k])
      invariant forall k :: lo <= k < hi ==> a[k] == old(a[k])
    {
      a[lo], a[hi - 1] := a[hi - 1], a[lo];
      lo, hi := lo + 1, hi - 1;
    }
  }

  /** `PolicyReverse::build`: `resize`, `iota`, then `std::reverse`. */
  method BuildReverse(data: seq<int>) returns (order: seq<nat>)
    ensures order == Reversed(Iota(|data|))
  {
    var a := FillIota(|data|);
    ReverseInPlace(a);
    order := a[..];
  }

  /** `OrderPolicy::build(order_, data)`, dispatched on the policy. */
  method Build(p: Policy, data: seq<int>) returns (order: seq<nat>)
    ensures Builds(p, data, order)
  {
    match p
    case PolicyOrder =>
      order := BuildOrder(data);
    case PolicyReverse =>
      order := BuildReverse(data);
    case PolicyAscending =>
      order := BuildSorted(data, Ascending);
    case PolicyDescending =>
      order := BuildSorted(data, Descending);
    case PolicySideCross =>
      ghost var s;
      order, s := BuildSideCross(data);
    case PolicyMiddleOut =>
      order := BuildMiddleOut(data);
  }

  /** What every build leaves: OrderLength(p, n) distinct valid positions,
      which are all positions 0..n-1 except for the side-cross walk over an
      even non-zero count; that one misses exactly the middle sorted
      position. */
  lemma BuildsShape(p: Policy, data: seq<int>, order: seq<nat>)
    requires Builds(p, data, order)
    ensures |order| == OrderLength(p, |data|)
    ensures InBounds(order, |data|)
    ensures forall i, j :: 0 <= i < j < |order| ==> order[i] != order[j]
    ensures |order| == |data| <==> IsPermutation(order, |data|)
  {
    var n := |data|;
    match p
    case PolicySideCross =>
      var s: seq<nat> :| IsSortedOrder(data, s, Ascending) && order == SideCross(s);
      PermutationMeaning(s, n);
      SideCrossOfPermutation(s, n);
      SideCrossLength(s);
      if |order| != n {
        assert |multiset(order)| != |multiset(Iota(n))|;
      }
    case PolicyOrder =>
      IotaIsPermutation(n);
      PermutationMeaning(order, n);
    case PolicyReverse =>
      ReversedIotaIsPermutation(n);
      PermutationMeaning(order, n);
    case PolicyMiddleOut =>
      MiddleOutIsPermutation(n);
      PermutationMeaning(order, n);
    case _ =>
      PermutationMeaning(order, n);
  }

  /** The part of BuildsShape an iterator needs: the length depends only on
      the policy and the count, and every entry is a valid position. */
  lemma BuildsFits(p: Policy, data: seq<int>, order: seq<nat>)
    requires Builds(p, data, order)
    ensures |order| == OrderLength(p, |data|) && InBounds(order, |data|)
  {
    BuildsShape(p, data, order);
  }

  /** With nothing stored every build is empty, so begin and end agree; with
      one value every build is [0]. */
  lemma BuildsSmall(p: Policy, data: seq<int>, order: seq<nat>)
    requires Builds(p, data, order)
    ensures |data| == 0 ==> order == []
    ensures |data| == 1 ==> order == [0]
  {
    BuildsShape(p, data, order);
    if |data| == 1 {
      assert |order| == 1 && order[0] < 1;
    }
  }

  /** The insertion-order walk visits the values as stored; the reverse walk
      visits exactly those values back to front. */
  lemma OrderAndReverseVisits(data: seq<int>, fwd: seq<nat>, back: seq<nat>)
    requires Builds(PolicyOrder, data, fwd) && Builds(PolicyReverse, data, back)
    ensures Collect(data, fwd) == data
    ensures Collect(data, back) == Reversed(data)
    ensures Collect(data, back) == Reversed(Collect(data, fwd))
  {
    CollectIota(data);
    CollectReversed(data, Iota(|data|));
  }

  /** The side-cross walk visits the sorted values smallest, largest, second
      smallest, ...: it is the side-cross of what the ascending walk visits. */
  lemma SideCrossVisits(data: seq<int>, order: seq<nat>, up: seq<nat>)
    requires Builds(PolicySideCross, data, order) && IsSortedOrder(data, up, Ascending)
    ensures InBounds(order, |data|)
    ensures Collect(data, order) == SideCross(Collect(data, up))
  {
    var s: seq<nat> :| IsSortedOrder(data, s, Ascending) && order == SideCross(s);
    SideCrossCollect(data, s);
    SortedValuesDetermined(data, s, up, Ascending);
  }

  /** Whichever way `std::sort` arranges ties, a policy's walk visits the
      same values. */
  lemma VisitedValuesDetermined(p: Policy, data: seq<int>, o1: seq<nat>, o2: seq<nat>)
    requires Builds(p, data, o1) && Builds(p, data, o2)
    ensures InBounds(o1, |data|) && InBounds(o2, |data|)
    ensures Collect(data, o1) == Collect(data, o2)
  {
    BuildsShape(p, data, o1);
    BuildsShape(p, data, o2);
    match p
    case PolicyAscending =>
      SortedValuesDetermined(data, o1, o2, Ascending);
    case PolicyDescending =>
      SortedValuesDetermined(data, o1, o2, Descending);
    case PolicySideCross =>
      var s1: seq<nat> :| IsSortedOrder(data, s1, Ascending) && o1 == SideCross(s1);
      SideCrossVisits(data, o1, s1);
      SideCrossVisits(data, o2, s1);
    case _ =>
  }

  /** The values 7, 15, 6, 1, 2 read along each policy. */
  function Canonical(p: Policy): (vals: seq<int>)
    ensures |vals| == 5
  {
    match p
    case PolicyOrder => [7, 15, 6, 1, 2]
    case PolicyReverse => [2, 1, 6, 15, 7]
    case PolicyAscending => [1, 2, 6, 7, 15]
    case PolicyDescending => [15, 7, 6, 2, 1]
    case PolicySideCross => [1, 15, 2, 7, 6]
    case PolicyMiddleOut => [6, 15, 1, 7, 2]
  }

  /** Five values in non-decreasing order, read either way round. */
  lemma FiveOrdered(a: int, b: int, c: int, d: int, e: int)
    requires a <= b <= c <= d <= e
    ensures Ordered([a, b, c, d, e], Ascending)
    ensures Ordered([e, d, c, b, a], Descending)
  {
    var up, down := [a, b, c, d, e], [e, d, c, b, a];
    forall p, q | 0 <= p < q < 5 ensures up[p] <= up[q] && down[p] >= down[q] {
    }
  }

  /** 1, 2, 6, 7, 15 is 7, 15, 6, 1, 2 ascending. */
  lemma CanonicalAscending()
    ensures Ordered([1, 2, 6, 7, 15], Ascending)
    ensures multiset([7, 15, 6, 1, 2]) == multiset([1, 2, 6, 7, 15])
  {
    FiveOrdered(1, 2, 6, 7, 15);
  }

  /** 15, 7, 6, 2, 1 is 7, 15, 6, 1, 2 descending. */
  lemma CanonicalDescending()
    ensures Ordered([15, 7, 6, 2, 1], Descending)
    ensures multiset([7, 15, 6, 1, 2]) == multiset([15, 7, 6, 2, 1])
  {
    FiveOrdered(1, 2, 6, 7, 15);
  }

  /** A sorted order of 7, 15, 6, 1, 2 visits 1, 2, 6, 7, 15 ascending and
      15, 7, 6, 2, 1 descending. */
  lemma CanonicalSorted(order: seq<nat>, dir: Direction)
    requires IsSortedOrder([7, 15, 6, 1, 2], order, dir)
    ensures InBounds(order, 5)
    ensures Collect([7, 15, 6, 1, 2], order)
         == if dir == Ascending then [1, 2, 6, 7, 15] else [15, 7, 6, 2, 1]
  {
    var data := [7, 15, 6, 1, 2];
    SortedOrderVisitsAll(data, order, dir);
    var vals := Collect(data, order);
    if dir == Ascending {
      CanonicalAscending();
      OrderedUnique(vals, [1, 2, 6, 7, 15], dir);
    } else {
      CanonicalDescending();
      OrderedUnique(vals, [15, 7, 6, 2, 1], dir);
    }
  }

  /** The insertion-order and reverse walks over 7, 15, 6, 1, 2. */
  lemma CanonicalUnsorted()
    ensures Collect([7, 15, 6, 1, 2], Iota(5)) == [7, 15, 6, 1, 2]
    ensures InBounds(Reversed(Iota(5)), 5)
    ensures Collect([7, 15, 6, 1, 2], Reversed(Iota(5))) == [2, 1, 6, 15, 7]
  {
    var data := [7, 15, 6, 1, 2];
    CollectIota(data);
    CollectReversed(data, Iota(5));
    assert Reversed(data) == [2, 1, 6, 15, 7];
  }

  /** The middle-out walk over 7, 15, 6, 1, 2 visits 6, 15, 1, 7, 2. */
  lemma CanonicalMiddleOut()
    ensures InBounds(MiddleOut(5), 5)
    ensures Collect([7, 15, 6, 1, 2], MiddleOut(5)) == [6, 15, 1, 7, 2]
  {
    MiddleOutSmall();
  }

  /** The side-cross walk over 7, 15, 6, 1, 2 visits 1, 15, 2, 7, 6. */
  lemma CanonicalSideCross(order: seq<nat>)
    requires Builds(PolicySideCross, [7, 15, 6, 1, 2], order)
    ensures InBounds(order, 5)
    ensures Collect([7, 15, 6, 1, 2], order) == [1, 15, 2, 7, 6]
  {
    var s: seq<nat> :| IsSortedOrder([7, 15, 6, 1, 2], s, Ascending) && order == SideCross(s);
    SideCrossVisits([7, 15, 6, 1, 2], order, s);
    CanonicalSorted(s, Ascending);
    SideCrossOfFive(1, 2, 6, 7, 15);
  }

  /** Every policy over 7, 15, 6, 1, 2 visits the values listed in
      Canonical. */
  lemma CanonicalVisits(p: Policy, order: seq<nat>)
    requires Builds(p, [7, 15, 6, 1, 2], order)
    ensures InBounds(order, 5)
    ensures Collect([7, 15, 6, 1, 2], order) == Canonical(p)
  {
    match p
    case PolicyOrder =>
      CanonicalUnsorted();
    case PolicyReverse =>
      CanonicalUnsorted();
    case PolicyAscending =>
      CanonicalSorted(order, Ascending);
    case PolicyDescending =>
      CanonicalSorted(order, Descending);
    case PolicySideCross =>
      CanonicalSideCross(order);
    case PolicyMiddleOut =>
      CanonicalMiddleOut();
  }

  /** Stored values already in ascending order are sorted by the identity
      order. */
  lemma IotaSortsSorted(data: seq<int>)
    requires Ordered(data, Ascending)
    ensures IsSortedOrder(data, Iota(|data|), Ascending)
  {
    CollectIota(data);
  }

  /** The middle-out walk over 10, 20, 30, 40 starts at the upper middle. */
  lemma EvenMiddleOut()
    ensures InBounds(MiddleOut(4), 4)
    ensures Collect([10, 20, 30, 40], MiddleOut(4)) == [30, 20, 40, 10]
  {
    MiddleOutSmall();
  }

  /** The side-cross walk over 10, 20, 30, 40 never reaches 30. */
  lemma EvenSideCross(order: seq<nat>)
    requires Builds(PolicySideCross, [10, 20, 30, 40], order)
    ensures InBounds(order, 4)
    ensures Collect([10, 20, 30, 40], order) == [10, 40, 20]
  {
    var data := [10, 20, 30, 40];
    var up := [10, 20, 30, 40];
    forall p, q | 0 <= p < q < 4 ensures up[p] <= up[q] {
    }
    IotaSortsSorted(data);
    SideCrossVisits(data, order, Iota(4));
    SideCrossOfFour(10, 20, 30, 40);
  }

  /** Four values 10, 20, 30, 40: the middle-out walk visits 30, 20, 40, 10
      (it starts at the upper middle) and the side-cross walk only 10, 40,
      20, leaving out 30. */
  lemma EvenCountVisits(mo: seq<nat>, sc: seq<nat>)
    requires Builds(PolicyMiddleOut, [10, 20, 30, 40], mo)
    requires Builds(PolicySideCross, [10, 20, 30, 40], sc)
    ensures InBounds(mo, 4) && InBounds(sc, 4)
    ensures Collect([10, 20, 30, 40], mo) == [30, 20, 40, 10]
    ensures Collect([10, 20, 30, 40], sc) == [10, 40, 20]
  {
    EvenMiddleOut();
    EvenSideCross(sc);
  }
}
