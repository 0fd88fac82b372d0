/** `MyContainer<int>`: a growable store of values with insertion and
    removal, and the iterator that walks the store along the index vector an
    order policy builds. */
module Containers {
  import opened IndexOrders
  import opened Policies

  /** How `removeElement` ends: normally, or by throwing `std::out_of_range`. */
  datatype Outcome = Removed | OutOfRange(message: string)

  /** `s` with every entry equal to `v` dropped, the rest in their order. */
  function RemoveAll(s: seq<int>, v: int): (r: seq<int>)
    ensures |r| <= |s|
    ensures v !in r
    decreases |s|
  {
    if |s| == 0 then []
    else (if s[0] == v then [] else [s[0]]) + RemoveAll(s[1..], v)
  }

  /** Removing from a concatenation removes from both parts. */
  lemma {:induction false} RemoveAllAppend(a: seq<int>, b: seq<int>, v: int)
    ensures RemoveAll(a + b, v) == RemoveAll(a, v) + RemoveAll(b, v)
    decreases |a|
  {
    if |a| > 0 {
      assert (a + b)[1..] == a[1..] + b;
      RemoveAllAppend(a[1..], b, v);
    } else {
      assert a + b == b;
    }
  }

  /** Exactly the occurrences of `v` go; every other value keeps its count. */
  lemma {:induction false} RemoveAllMultiset(s: seq<int>, v: int)
    ensures multiset(RemoveAll(s, v)) == multiset(s)[v := 0]
    decreases |s|
  {
    if |s| > 0 {
      RemoveAllMultiset(s[1..], v);
      assert s == [s[0]] + s[1..];
      assert multiset(s) == multiset{s[0]} + multiset(s[1..]);
    }
  }

  /** The store shrinks by the number of occurrences of `v`, and stays the
      same exactly when `v` does not occur. */
  lemma RemoveAllLength(s: seq<int>, v: int)
    ensures |RemoveAll(s, v)| == |s| - multiset(s)[v]
    ensures RemoveAll(s, v) == s <==> v !in s
    ensures |RemoveAll(s, v)| == |s| <==> v !in s
  {
    RemoveAllMultiset(s, v);
    assert |multiset(s)| == |multiset(s)[v := 0]| + multiset(s)[v];
    if v !in s {
      RemoveAllAbsent(s, v);
    }
  }

  /** Nothing to remove leaves the sequence as it is. */
  lemma {:induction false} RemoveAllAbsent(s: seq<int>, v: int)
    requires v !in s
    ensures RemoveAll(s, v) == s
    decreases |s|
  {
    if |s| > 0 {
      assert v !in s[1..];
      RemoveAllAbsent(s[1..], v);
      assert s == [s[0]] + s[1..];
    }
  }

  /** Removing twice removes nothing more. */
  lemma RemoveAllIdempotent(s: seq<int>, v: int)
    ensures RemoveAll(RemoveAll(s, v), v) == RemoveAll(s, v)
  {
    RemoveAllAbsent(RemoveAll(s, v), v);
  }

  /** `std::remove` on an array: the entries different from `v` are moved to
      the front, in their order, and the new logical end is returned. The
      entries from there on are left unspecified, as `std::remove` leaves
      them. */
  method RemoveCompact(a: array<int>, v: int) returns (newEnd: nat)
    modifies a
    ensures newEnd <= a.Length
    ensures a[..newEnd] == RemoveAll(old(a[..]), v)
  {
    ghost var s := a[..];
    newEnd := 0;
    var i := 0;
    while i < a.Length
      invariant newEnd <= i <= a.Length && |s| == a.Length
      invariant a[..newEnd] == RemoveAll(s[..i], v)
      invariant forall k :: i <= k < a.Length ==> a[k] == s[k]
    {
      ghost var kept := a[..newEnd];
      assert s[..i + 1] == s[..i] + [s[i]];
      RemoveAllAppend(s[..i], [s[i]], v);
      assert RemoveAll([s[i]], v) == if s[i] == v then [] else [s[i]];
      if a[i] != v {
        a[newEnd] := a[i];
        assert a[..newEnd + 1] == kept + [s[i]];
        newEnd := newEnd + 1;
      }
      i := i + 1;
    }
    assert s[..a.Length] == s;
  }

  /** The container: the values in insertion order. */
  class Container {
    var data: seq<int>

    /** A new container is empty. */
    constructor ()
      ensures data == []
    {
      data := [];
    }

    /** `size()`: the number of stored values, every copy counted; zero
        exactly when nothing is stored. */
    function Size(): (n: nat)
      reads this
      ensures n == |multiset(data)|
      ensures n == 0 <==> data == []
    {
      |data|
    }

    /** `addElement`: append at the end. */
    method AddElement(v: int)
      modifies this
      ensures data == old(data) + [v]
      ensures Size() == old(Size()) + 1
    {
      data := data + [v];
    }

    /** `removeElement`: `std::remove` then `erase`. Every copy of `v` goes;
        if there was none, `std::out_of_range` is thrown and nothing
        changes. */
    method RemoveElement(v: int) returns (outcome: Outcome)
      modifies this
      ensures outcome.OutOfRange? <==> v !in old(data)
      ensures outcome.OutOfRange? ==> outcome.message == "Element not found in MyContainer"
      ensures v !in old(data) ==> data == old(data)
      ensures v in old(data) ==> data == RemoveAll(old(data), v)
      ensures Size() == old(Size()) - multiset(old(data))[v]
    {
      var a := new int[|data|](i requires 0 <= i < |data| reads this => data[i]);
      assert a[..] == data;
      var newEnd := RemoveCompact(a, v);
      RemoveAllLength(data, v);
      if newEnd == a.Length {
        return OutOfRange("Element not found in MyContainer");
      }
      data := a[..newEnd];
      outcome := Removed;
    }

    /** `begin_<policy>()`: an iterator at the start of a freshly built order. */
    method Begin(p: Policy) returns (it: OrderedIterator)
      ensures fresh(it) && it.container == this && it.policy == p
      ensures Builds(p, data, it.order) && it.pos == 0
    {
      it := new OrderedIterator(this, p, false);
    }

    /** `end_<policy>()`: an iterator one past the end of a freshly built
        order. */
    method End(p: Policy) returns (it: OrderedIterator)
      ensures fresh(it) && it.container == this && it.policy == p
      ensures Builds(p, data, it.order) && it.pos == |it.order|
    {
      it := new OrderedIterator(this, p, true);
    }
  }

  /** `Iterator<Policy>`: the container it reads, the index vector built when
      it was made, and the position along that vector. */
  class OrderedIterator {
    const container: Container?
    const policy: Policy
    const order: seq<nat>
    var pos: nat

    /** `Iterator(c, at_end)`: with no container, nothing is built and the
        position is 0; otherwise the policy builds the order from the values
        stored now and the position is 0 or the end. */
    constructor (c: Container?, p: Policy, atEnd: bool)
      ensures container == c && policy == p
      ensures c == null ==> order == [] && pos == 0
      ensures c != null ==> Builds(p, c.data, order)
      ensures c != null ==> pos == if atEnd then |order| else 0
    {
      container := c;
      policy := p;
      if c == null {
        order := [];
        pos := 0;
      } else {
        var o := Build(p, c.data);
        order := o;
        pos := if atEnd then |o| else 0;
      }
    }

    /** `operator*`: the value the order selects at the current position,
        read from the container's values as they are now. Only the index
        read must still be a position of the container; when every index of
        the order is, this is the value a walk along the order visits
        there. */
    function Current(): (r: int)
      reads this, container
      requires container != null && pos < |order|
      requires order[pos] < |container.data|
      ensures r in container.data
      ensures InBounds(order, |container.data|) ==> r == Collect(container.data, order)[pos]
    {
      container.data[order[pos]]
    }

    /** `operator++`: one step along the order, nothing else changes. */
    method Next()
      modifies this
      ensures pos == old(pos) + 1
    {
      pos := pos + 1;
    }

    /** `operator==`: same position over the same container. The policy and
        the order each iterator built are not compared. */
    function Equals(other: OrderedIterator): (r: bool)
      reads this, other
      ensures r <==> pos == other.pos && container == other.container
    {
      pos == other.pos && container == other.container
    }
  }

  /** Over one container and one policy, the begin iterator equals the end
      iterator exactly when the container is empty. */
  lemma BeginIsEndIffEmpty(c: Container, p: Policy, first: OrderedIterator, last: OrderedIterator)
    requires first.container == c && last.container == c
    requires Builds(p, c.data, first.order) && Builds(p, c.data, last.order)
    requires first.pos == 0 && last.pos == |last.order|
    ensures first.Equals(last) <==> |c.data| == 0
  {
    BuildsFits(p, c.data, last.order);
  }

  /** The tests' `collect(first, last)`: step `first` with `++` until it
      equals `last`, reading each value with `*`. Over a begin and an end
      iterator of one container it reads the values along `first`'s order. */
  method CollectRange(first: OrderedIterator, last: OrderedIterator) returns (visited: seq<int>)
    requires first != last && first.container != null && last.container == first.container
    requires first.pos == 0 && last.pos == |first.order|
    requires InBounds(first.order, |first.container.data|)
    modifies first
    ensures visited == Collect(first.container.data, first.order)
  {
    ghost var all := Collect(first.container.data, first.order);
    visited := [];
    while !first.Equals(last)
      invariant first.pos <= last.pos == |all|
      invariant visited == all[..first.pos]
      decreases last.pos - first.pos
    {
      assert all[..first.pos + 1] == visited + [all[first.pos]];
      visited := visited + [first.Current()];
      first.Next();
    }
    assert all[..|all|] == all;
  }

  /** `collect(c.begin_*(), c.end_*())`: what a begin-to-end walk reads is
      the stored values along an order the policy builds. */
  method Traverse(c: Container, p: Policy) returns (visited: seq<int>, ghost order: seq<nat>)
    ensures Builds(p, c.data, order) && InBounds(order, |c.data|)
    ensures visited == Collect(c.data, order)
  {
    var first := c.Begin(p);
    var last := c.End(p);
    order := first.order;
    BuildsFits(p, c.data, first.order);
    BuildsFits(p, c.data, last.order);
    visited := CollectRange(first, last);
  }

  /** Every walk over an empty container reads nothing; every walk over a
      single value reads that value. */
  lemma SmallTraversals(data: seq<int>, p: Policy, order: seq<nat>)
    requires Builds(p, data, order)
    ensures |data| <= 1 ==> InBounds(order, |data|) && Collect(data, order) == data
  {
    BuildsSmall(p, data, order);
  }

  /** One step of the filter: the first entry stays unless it is `v`. */
  lemma RemoveAllCons(x: int, s: seq<int>, v: int)
    ensures RemoveAll([x] + s, v) == (if x == v then [] else [x]) + RemoveAll(s, v)
  {
    assert ([x] + s)[1..] == s;
  }

  /** A value stored once in the middle of five leaves the other four. */
  lemma RemoveMiddleOfFive(a: int, b: int, c: int, d: int, e: int)
    requires c != a && c != b && c != d && c != e
    ensures RemoveAll([a, b, c, d, e], c) == [a, b, d, e]
  {
    RemoveAllCons(e, [], c);
    RemoveAllCons(d, [e], c);
    RemoveAllCons(c, [d, e], c);
    RemoveAllCons(b, [c, d, e], c);
    RemoveAllCons(a, [b, c, d, e], c);
    assert [a] + [b, c, d, e] == [a, b, c, d, e];
  }

  /** A value stored at both ends of three leaves only the middle one. */
  lemma RemoveBothEnds(x: int, y: int)
    requires x != y
    ensures RemoveAll([x, y, x], x) == [y]
  {
    RemoveAllCons(x, [], x);
    RemoveAllCons(y, [x], x);
    RemoveAllCons(x, [y, x], x);
    assert [x] + [y, x] == [x, y, x];
  }

  /** Removing 2 from 0..4 leaves four values; removing 2 from 2, 5, 2
      takes both copies. */
  lemma RemoveScenarios()
    ensures RemoveAll([0, 1, 2, 3, 4], 2) == [0, 1, 3, 4]
    ensures RemoveAll([2, 5, 2], 2) == [5]
  {
    RemoveMiddleOfFive(0, 1, 2, 3, 4);
    RemoveBothEnds(2, 5);
  }

  /** What is left after removing the values `vs` one after the other. */
  function RemoveEach(s: seq<int>, vs: seq<int>): (r: seq<int>)
    ensures |r| <= |s|
    decreases |vs|
  {
    if |vs| == 0 then s else RemoveEach(RemoveAll(s, vs[0]), vs[1..])
  }

  /** What stays after a removal was there before and differs from `v`. */
  lemma RemoveAllKeeps(s: seq<int>, v: int, x: int)
    requires x in RemoveAll(s, v)
    ensures x in s && x != v
  {
    RemoveAllMultiset(s, v);
    assert x in multiset(RemoveAll(s, v));
  }

  /** Removing every stored value in turn empties the store, whatever the
      order of the removals and however many copies each value has. */
  lemma {:induction false} RemoveEveryValueEmpties(s: seq<int>, vs: seq<int>)
    requires forall i :: 0 <= i < |s| ==> s[i] in vs
    ensures RemoveEach(s, vs) == []
    decreases |vs|
  {
    if |vs| == 0 {
      if |s| > 0 {
        assert false;
      }
    } else {
      var rest := RemoveAll(s, vs[0]);
      forall i | 0 <= i < |rest| ensures rest[i] in vs[1..] {
        RemoveAllKeeps(s, vs[0], rest[i]);
        assert rest[i] in vs;
      }
      RemoveEveryValueEmpties(rest, vs[1..]);
    }
  }
}
