/** Index sequences ("orders") over a backing store of n elements: the
    identity order that std::iota produces, its reverse, the values an order
    selects from the store, and what it means for an order to be a
    permutation of the positions 0..n-1. */
module IndexOrders {

  /** Every entry of `order` is a valid position of a store of size n. */
  predicate InBounds(order: seq<nat>, n: nat) {
    forall i :: 0 <= i < |order| ==> order[i] < n
  }

  /** The positions lo, lo+1, ..., hi-1. */
  function Range(lo: nat, hi: nat): (r: seq<nat>)
    ensures |r| == if lo <= hi then hi - lo else 0
    ensures forall i :: 0 <= i < |r| ==> r[i] == lo + i
  {
    if lo <= hi then seq(hi - lo, i requires 0 <= i < hi - lo => lo + i) else []
  }

  /** What `resize(n)` followed by `std::iota(.., 0)` leaves in an index vector. */
  function Iota(n: nat): (r: seq<nat>)
    ensures |r| == n && InBounds(r, n)
    ensures forall i :: 0 <= i < n ==> r[i] == i
  {
    Range(0, n)
  }

  /** The sequence read back to front, as `std::reverse` leaves it. */
  function Reversed<X>(s: seq<X>): (r: seq<X>)
    ensures |r| == |s|
    ensures forall i {:trigger r[i]} :: 0 <= i < |s| ==> r[i] == s[|s| - 1 - i]
  {
    seq(|s|, i requires 0 <= i < |s| => s[|s| - 1 - i])
  }

  /** The values a traversal along `order` visits: data[order[0]], data[order[1]], ... */
  function Collect(data: seq<int>, order: seq<nat>): (r: seq<int>)
    requires InBounds(order, |data|)
    ensures |r| == |order|
    ensures forall i {:trigger r[i]} :: 0 <= i < |order| ==> r[i] == data[order[i]]
  {
    seq(|order|, i requires 0 <= i < |order| => data[order[i]])
  }

  /** `resize(n)` followed by `std::iota(.., 0)` on a fresh index vector. */
  method FillIota(n: nat) returns (a: array<nat>)
    ensures fresh(a) && a[..] == Iota(n)
  {
    a := new nat[n];
    var i := 0;
    while i < n
      invariant 0 <= i <= n
      invariant forall k :: 0 <= k < i ==> a[k] == k
    {
      a[i] := i;
      i := i + 1;
    }
  }

  /** `order` holds each position 0..n-1 exactly once. */
  ghost predicate IsPermutation(order: seq<nat>, n: nat) {
    multiset(order) == multiset(Iota(n))
  }

  /** Range can be split at any point between its bounds. */
  lemma RangeSplit(lo: nat, mid: nat, hi: nat)
    requires lo <= mid <= hi
    ensures Range(lo, hi) == Range(lo, mid) + Range(mid, hi)
  {
    assert |Range(lo, hi)| == |Range(lo, mid) + Range(mid, hi)|;
    forall i | 0 <= i < hi - lo
      ensures Range(lo, hi)[i] == (Range(lo, mid) + Range(mid, hi))[i]
    {
      if i >= mid - lo {
        assert (Range(lo, mid) + Range(mid, hi))[i] == Range(mid, hi)[i - (mid - lo)];
      }
    }
  }

  /** A non-empty range is its first position and the rest. */
  lemma RangeFirst(lo: nat, hi: nat)
    requires lo < hi
    ensures multiset(Range(lo, hi)) == multiset{lo} + multiset(Range(lo + 1, hi))
  {
    RangeSplit(lo, lo + 1, hi);
    assert Range(lo, lo + 1) == [lo];
  }

  /** A non-empty range is the rest and its last position. */
  lemma RangeLast(lo: nat, top: nat)
    ensures multiset(Range(lo, top + 1)) == multiset(Range(lo, top)) + multiset{top}
    requires lo <= top
  {
    RangeSplit(lo, top, top + 1);
    assert Range(top, top + 1) == [top];
  }

  /** A position of a range occurs in it exactly once, any other value never. */
  lemma {:induction false} RangeCount(lo: nat, hi: nat, x: nat)
    ensures multiset(Range(lo, hi))[x] == if lo <= x < hi then 1 else 0
    decreases hi - lo
  {
    if lo < hi {
      var top: nat := hi - 1;
      RangeSplit(lo, top, hi);
      assert Range(top, hi) == [top];
      assert multiset(Range(lo, hi)) == multiset(Range(lo, top)) + multiset([top]);
      RangeCount(lo, top, x);
    } else {
      assert Range(lo, hi) == [];
    }
  }

  /** Two different positions of `s` holding the same value make that value
      occur at least twice. */
  lemma RepeatCountsTwice<X>(s: seq<X>, i: nat, j: nat)
    requires i < j < |s| && s[i] == s[j]
    ensures multiset(s)[s[i]] >= 2
  {
    assert s == s[..j] + s[j..];
    assert s[i] in s[..j];
    assert s[j..] == [s[j]] + s[j + 1..];
    assert multiset(s) == multiset(s[..j]) + multiset{s[j]} + multiset(s[j + 1..]);
  }

  /** What being a permutation of 0..n-1 means, position by position: the
      order has n entries, every entry is a position, every position occurs
      and no entry is repeated. */
  lemma PermutationMeaning(order: seq<nat>, n: nat)
    requires IsPermutation(order, n)
    ensures |order| == n
    ensures InBounds(order, n)
    ensures forall x: nat :: x < n ==> x in order
    ensures forall i, j :: 0 <= i < j < |order| ==> order[i] != order[j]
  {
    assert |order| == |multiset(order)| == |multiset(Iota(n))| == n;
    forall i | 0 <= i < |order| ensures order[i] < n {
      assert order[i] in multiset(order);
      RangeCount(0, n, order[i]);
    }
    forall x: nat | x < n ensures x in order {
      RangeCount(0, n, x);
      assert x in multiset(order);
    }
    forall i, j | 0 <= i < j < |order| ensures order[i] != order[j] {
      if order[i] == order[j] {
        RepeatCountsTwice(order, i, j);
        RangeCount(0, n, order[i]);
      }
    }
  }

  /** The identity order visits the store in insertion order. */
  lemma CollectIota(data: seq<int>)
    ensures Collect(data, Iota(|data|)) == data
  {
  }

  /** Walking an order backwards visits the same values backwards. */
  lemma CollectReversed(data: seq<int>, order: seq<nat>)
    requires InBounds(order, |data|)
    ensures InBounds(Reversed(order), |data|)
    ensures Collect(data, Reversed(order)) == Reversed(Collect(data, order))
  {
  }

  /** Collecting along a concatenation is the concatenation of the two walks. */
  lemma CollectAppend(data: seq<int>, a: seq<nat>, b: seq<nat>)
    requires InBounds(a, |data|) && InBounds(b, |data|)
    ensures InBounds(a + b, |data|)
    ensures Collect(data, a + b) == Collect(data, a) + Collect(data, b)
  {
  }

  /** Dropping one position of a sequence drops one occurrence of its value. */
  lemma DropAt<X>(s: seq<X>, j: nat)
    requires j < |s|
    ensures multiset(s) == multiset(s[..j] + s[j + 1..]) + multiset{s[j]}
  {
    assert s == s[..j] + [s[j]] + s[j + 1..];
  }

  lemma CancelOne<X>(p: multiset<X>, q: multiset<X>, x: X)
    requires p + multiset{x} == q + multiset{x}
    ensures p == q
  {
    assert p == (p + multiset{x}) - multiset{x};
    assert q == (q + multiset{x}) - multiset{x};
  }

  /** The first entry of `a` occurs somewhere in any `b` with the same
      multiset, and the remainders again agree as multisets. */
  lemma FindMatch<X>(a: seq<X>, b: seq<X>) returns (j: nat)
    requires |a| > 0 && multiset(a) == multiset(b)
    ensures j < |b| && b[j] == a[0]
    ensures multiset(a[1..]) == multiset(b[..j] + b[j + 1..])
  {
    assert a[0] in b by {
      assert a[0] in multiset(a);
    }
    j :| 0 <= j < |b| && b[j] == a[0];
    assert multiset(a) == multiset(a[1..]) + multiset{a[0]} by {
      assert a == [a[0]] + a[1..];
    }
    DropAt(b, j);
    CancelOne(multiset(a[1..]), multiset(b[..j] + b[j + 1..]), a[0]);
  }

  /** `f` applied to every entry of `s`. */
  function Apply<X, Y>(f: X -> Y, s: seq<X>): (r: seq<Y>)
    ensures |r| == |s|
  {
    seq(|s|, i requires 0 <= i < |s| => f(s[i]))
  }

  /** Applying a function entrywise to sequences with equal multisets gives
      sequences with equal multisets. */
  lemma {:induction false} ApplyRespectsMultiset<X, Y>(f: X -> Y, a: seq<X>, b: seq<X>)
    requires multiset(a) == multiset(b)
    ensures multiset(Apply(f, a)) == multiset(Apply(f, b))
    decreases |a|
  {
    if |a| == 0 {
      assert |b| == |multiset(b)| == |multiset(a)| == 0;
      assert Apply(f, a) == [] == Apply(f, b);
    } else {
      var j := FindMatch(a, b);
      var rest := b[..j] + b[j + 1..];
      ApplyRespectsMultiset(f, a[1..], rest);
      var fa, fb := Apply(f, a), Apply(f, b);
      assert multiset(fa) == multiset(Apply(f, a[1..])) + multiset{f(a[0])} by {
        assert fa == [f(a[0])] + Apply(f, a[1..]);
      }
      assert multiset(fb) == multiset(Apply(f, rest)) + multiset{f(a[0])} by {
        DropAt(fb, j);
        assert fb[..j] + fb[j + 1..] == Apply(f, rest);
      }
    }
  }

  /** Two orders holding the same positions, in whatever arrangement, visit
      the same multiset of values. */
  lemma CollectRespectsMultiset(data: seq<int>, a: seq<nat>, b: seq<nat>)
    requires InBounds(a, |data|) && InBounds(b, |data|)
    requires multiset(a) == multiset(b)
    ensures multiset(Collect(data, a)) == multiset(Collect(data, b))
  {
    var lookup := (i: nat) => if i < |data| then data[i] else 0;
    assert Collect(data, a) == Apply(lookup, a);
    assert Collect(data, b) == Apply(lookup, b);
    ApplyRespectsMultiset(lookup, a, b);
  }

  /** A permutation visits every stored value once: the visited multiset is
      the store's multiset. */
  lemma PermutationVisitsAll(data: seq<int>, order: seq<nat>)
    requires IsPermutation(order, |data|)
    ensures InBounds(order, |data|)
    ensures multiset(Collect(data, order)) == multiset(data)
  {
    PermutationMeaning(order, |data|);
    CollectRespectsMultiset(data, order, Iota(|data|));
    CollectIota(data);
  }

  /** Reversing keeps the multiset. */
  lemma {:induction false} ReversedMultiset<X>(s: seq<X>)
    ensures multiset(Reversed(s)) == multiset(s)
  {
    if |s| > 0 {
      var last := |s| - 1;
      assert Reversed(s) == [s[last]] + Reversed(s[..last]);
      assert s == s[..last] + [s[last]];
      ReversedMultiset(s[..last]);
    }
  }

  /** The identity order is a permutation. */
  lemma IotaIsPermutation(n: nat)
    ensures IsPermutation(Iota(n), n)
  {
  }

  /** The reversed identity order is a permutation too. */
  lemma ReversedIotaIsPermutation(n: nat)
    ensures IsPermutation(Reversed(Iota(n)), n)
  {
    ReversedMultiset(Iota(n));
  }
}
