/** The side-cross policy: sort the positions ascending, then walk the sorted
    index vector from both ends with two cursors, emitting smallest, largest,
    second smallest, second largest, and so on. */
module SideCrossOrder {
  import opened IndexOrders
  import opened Sorting

  /** What the two-cursor loop of the source emits from the sorted vector `s`:
      each round emits s[left], then s[right - 1] only if the cursors have not
      met after both moved. A window of two entries therefore emits only its
      first one. */
  function SideCross<X>(s: seq<X>): (r: seq<X>)
    ensures |r| <= |s|
    decreases |s|
  {
    if |s| == 0 then []
    else if |s| <= 2 then [s[0]]
    else [s[0], s[|s| - 1]] + SideCross(s[1..|s| - 1])
  }

  /** The entries s[left..right] still to be walked, empty once the cursors
      have crossed. */
  function Window<X>(s: seq<X>, left: nat, right: nat): (w: seq<X>)
    ensures |w| == if left <= right <= |s| then right - left else 0
    ensures forall i :: 0 <= i < |w| ==> w[i] == s[left + i]
  {
    if left <= right <= |s| then s[left..right] else []
  }

  /** One round of the two-cursor loop over the window s[left..right]: emit
      s[left], move both cursors, emit s[right - 1] if they have not met. */
  lemma SideCrossStep<X>(s: seq<X>, left: nat, right: nat)
    requires left < right <= |s|
    ensures SideCross(Window(s, left, right))
         == [s[left]] + (if left + 1 < right - 1 then [s[right - 1]] else [])
            + SideCross(Window(s, left + 1, right - 1))
  {
    var w, inner := Window(s, left, right), Window(s, left + 1, right - 1);
    if |w| > 2 {
      assert w[1..|w| - 1] == inner;
    } else {
      assert inner == [];
    }
  }

  /** The loop invariant of the two-cursor walk survives one round. */
  lemma SideCrossAdvance<X>(s: seq<X>, done: seq<X>, left: nat, right: nat)
    requires left < right <= |s|
    requires done + SideCross(Window(s, left, right)) == SideCross(s)
    ensures left + 1 < right - 1 ==>
      done + [s[left]] + [s[right - 1]] + SideCross(Window(s, left + 1, right - 1)) == SideCross(s)
    ensures left + 1 >= right - 1 ==>
      done + [s[left]] + SideCross(Window(s, left + 1, right - 1)) == SideCross(s)
  {
    SideCrossStep(s, left, right);
  }

  /** The two-cursor loop with both cursors moving every round. */
  method EmitSideCross(sortedIdx: seq<nat>) returns (order: seq<nat>)
    ensures order == SideCross(sortedIdx)
  {
    order := [];
    var left: nat, right: nat := 0, |sortedIdx|;
    assert Window(sortedIdx, left, right) == sortedIdx;
    while left < right
      invariant left <= right + 1 && right <= |sortedIdx|
      invariant order + SideCross(Window(sortedIdx, left, right)) == SideCross(sortedIdx)
    {
      SideCrossAdvance(sortedIdx, order, left, right);
      order := order + [sortedIdx[left]];
      left := left + 1;
      right := right - 1;
      if left < right {
        order := order + [sortedIdx[right]];
      }
    }
    assert Window(sortedIdx, left, right) == [];
  }

  /** The side-cross policy: `iota`, ascending `std::sort`, then the
      two-cursor walk. The sorted vector is returned as a ghost witness. */
  method BuildSideCross(data: seq<int>) returns (order: seq<nat>, ghost sortedIdx: seq<nat>)
    ensures IsSortedOrder(data, sortedIdx, Ascending)
    ensures order == SideCross(sortedIdx)
  {
    var s := BuildSorted(data, Ascending);
    order := EmitSideCross(s);
    sortedIdx := s;
  }

  /** The walk emits every entry for an odd or empty input, one fewer for an
      even non-empty one. */
  lemma {:induction false} SideCrossLength<X>(s: seq<X>)
    ensures |SideCross(s)| == if |s| > 0 && |s| % 2 == 0 then |s| - 1 else |s|
    decreases |s|
  {
    if |s| > 2 {
      SideCrossLength(s[1..|s| - 1]);
    }
  }

  /** Position 2k holds the k-th smallest, position 2k+1 the k-th largest. */
  lemma {:induction false} SideCrossAt<X>(s: seq<X>, k: nat)
    ensures 2 * k < |SideCross(s)| ==> SideCross(s)[2 * k] == s[k]
    ensures 2 * k + 1 < |SideCross(s)| ==> SideCross(s)[2 * k + 1] == s[|s| - 1 - k]
    decreases |s|
  {
    if |s| > 2 && k > 0 {
      var inner := s[1..|s| - 1];
      SideCrossAt(inner, k - 1);
      assert SideCross(s) == [s[0], s[|s| - 1]] + SideCross(inner);
    }
  }

  /** Splitting a sequence into first, middle part and last entry. */
  lemma Ends<X>(s: seq<X>)
    requires |s| >= 2
    ensures multiset(s) == multiset{s[0]} + multiset{s[|s| - 1]} + multiset(s[1..|s| - 1])
  {
    assert s == [s[0]] + s[1..|s| - 1] + [s[|s| - 1]];
  }

  /** One round of the walk: the two ends, then the walk of the inside. */
  lemma SideCrossRound<X>(s: seq<X>)
    requires |s| > 2
    ensures multiset(SideCross(s))
         == multiset{s[0]} + multiset{s[|s| - 1]} + multiset(SideCross(s[1..|s| - 1]))
  {
    assert SideCross(s) == [s[0], s[|s| - 1]] + SideCross(s[1..|s| - 1]);
  }

  /** For an odd-length input the walk emits every entry. */
  lemma {:induction false} SideCrossMultisetOdd<X>(s: seq<X>)
    requires |s| % 2 == 1
    ensures multiset(SideCross(s)) == multiset(s)
    decreases |s|
  {
    if |s| > 2 {
      var inner := s[1..|s| - 1];
      assert |inner| % 2 == 1;
      SideCrossMultisetOdd(inner);
      SideCrossRound(s);
      Ends(s);
    }
  }

  /** For an input of even length 2h > 0 the walk misses exactly one
      occurrence of the entry at position h. */
  lemma {:induction false} SideCrossMultisetEven<X>(s: seq<X>, h: nat)
    requires h > 0 && |s| == 2 * h
    ensures multiset(SideCross(s)) + multiset{s[h]} == multiset(s)
    decreases h
  {
    if h == 1 {
      Ends(s);
      assert s[1..1] == [];
    } else {
      var inner := s[1..|s| - 1];
      var ends := multiset{s[0]} + multiset{s[|s| - 1]};
      var x := s[h];
      assert inner[h - 1] == x;
      SideCrossMultisetEven(inner, h - 1);
      calc {
        multiset(SideCross(s)) + multiset{x};
        { SideCrossRound(s); }
        ends + multiset(SideCross(inner)) + multiset{x};
        ends + (multiset(SideCross(inner)) + multiset{x});
        ends + multiset(inner);
        { Ends(s); }
        multiset(s);
      }
    }
  }

  /** Walking the values of a sorted order side-cross is the same as
      side-crossing the sorted values. */
  lemma {:induction false} SideCrossCollect(data: seq<int>, s: seq<nat>)
    requires InBounds(s, |data|)
    ensures InBounds(SideCross(s), |data|)
    ensures Collect(data, SideCross(s)) == SideCross(Collect(data, s))
    decreases |s|
  {
    if |s| > 2 {
      var inner := s[1..|s| - 1];
      SideCrossCollect(data, inner);
      assert Collect(data, s)[1..|s| - 1] == Collect(data, inner);
      CollectAppend(data, [s[0], s[|s| - 1]], SideCross(inner));
    }
  }

  /** Applied to a permutation of 0..n-1 the walk emits distinct positions
      below n: all of them when n is odd or 0, and all but s[n/2] when n is
      even. (The second requirement follows from the first.) */
  lemma SideCrossOfPermutation(s: seq<nat>, n: nat)
    requires IsPermutation(s, n) && |s| == n
    ensures n % 2 == 1 || n == 0 ==> IsPermutation(SideCross(s), n)
    ensures n > 0 && n % 2 == 0 ==> IsPermutation(SideCross(s) + [s[n / 2]], n)
    ensures n > 0 && n % 2 == 0 ==> s[n / 2] !in SideCross(s)
    ensures InBounds(SideCross(s), n)
    ensures forall i, j :: 0 <= i < j < |SideCross(s)| ==> SideCross(s)[i] != SideCross(s)[j]
  {
    var r := SideCross(s);
    if n > 0 && n % 2 == 0 {
      SideCrossMultisetEven(s, n / 2);
      var x := s[n / 2];
      assert multiset(r + [x]) == multiset(r) + multiset{x} == multiset(s);
      PermutationMeaning(r + [x], n);
      PrefixOfDistinct(r, x, n);
    } else {
      if n > 0 {
        SideCrossMultisetOdd(s);
      }
      PermutationMeaning(r, n);
    }
  }

  /** What a permutation `r + [x]` says about `r` alone. */
  lemma PrefixOfDistinct(r: seq<nat>, x: nat, n: nat)
    requires InBounds(r + [x], n)
    requires forall i, j :: 0 <= i < j < |r + [x]| ==> (r + [x])[i] != (r + [x])[j]
    ensures InBounds(r, n) && x !in r
    ensures forall i, j :: 0 <= i < j < |r| ==> r[i] != r[j]
  {
    var t := r + [x];
    forall i | 0 <= i < |r| ensures r[i] != x && r[i] < n {
      assert t[i] == r[i] && t[|r|] == x;
    }
    forall i, j | 0 <= i < j < |r| ensures r[i] != r[j] {
      assert t[i] == r[i] && t[j] == r[j];
    }
  }

  // ---------------------------------------------------------------------
  // The walk as evidently intended: a cursor moves only when it emits, so
  // every entry is emitted for every n.
  // ---------------------------------------------------------------------

  /** Smallest, largest, second smallest, second largest, ..., every entry once. */
  function SideCrossIntended<X>(s: seq<X>): (r: seq<X>)
    ensures |r| == |s|
    decreases |s|
  {
    if |s| == 0 then []
    else if |s| == 1 then [s[0]]
    else [s[0], s[|s| - 1]] + SideCrossIntended(s[1..|s| - 1])
  }

  /** One round of the intended loop over the window s[left..right]. */
  lemma SideCrossIntendedStep<X>(s: seq<X>, left: nat, right: nat)
    requires left < right <= |s|
    ensures SideCrossIntended(Window(s, left, right))
         == [s[left]] + (if left + 1 < right then [s[right - 1]] else [])
            + SideCrossIntended(Window(s, left + 1, if left + 1 < right then right - 1 else right))
  {
    var w := Window(s, left, right);
    if |w| > 1 {
      assert w[1..|w| - 1] == Window(s, left + 1, right - 1);
    } else {
      assert Window(s, left + 1, right) == [];
    }
  }

  /** The loop invariant of the intended walk survives one round. */
  lemma SideCrossIntendedAdvance<X>(s: seq<X>, done: seq<X>, left: nat, right: nat)
    requires left < right <= |s|
    requires done + SideCrossIntended(Window(s, left, right)) == SideCrossIntended(s)
    ensures left + 1 < right ==>
      done + [s[left]] + [s[right - 1]] + SideCrossIntended(Window(s, left + 1, right - 1))
        == SideCrossIntended(s)
    ensures left + 1 == right ==>
      done + [s[left]] + SideCrossIntended(Window(s, left + 1, right)) == SideCrossIntended(s)
  {
    SideCrossIntendedStep(s, left, right);
  }

  /** The loop with `right` decremented only when it emits. */
  method EmitSideCrossIntended(sortedIdx: seq<nat>) returns (order: seq<nat>)
    ensures order == SideCrossIntended(sortedIdx)
  {
    order := [];
    var left: nat, right: nat := 0, |sortedIdx|;
    assert Window(sortedIdx, left, right) == sortedIdx;
    while left < right
      invariant left <= right <= |sortedIdx|
      invariant order + SideCrossIntended(Window(sortedIdx, left, right)) == SideCrossIntended(sortedIdx)
    {
      SideCrossIntendedAdvance(sortedIdx, order, left, right);
      order := order + [sortedIdx[left]];
      left := left + 1;
      if left < right {
        right := right - 1;
        order := order + [sortedIdx[right]];
      }
    }
    assert Window(sortedIdx, left, right) == [];
  }

  /** The intended walk emits every entry exactly as often as it occurs. */
  lemma {:induction false} SideCrossIntendedMultiset<X>(s: seq<X>)
    ensures multiset(SideCrossIntended(s)) == multiset(s)
    decreases |s|
  {
    if |s| > 1 {
      var inner := s[1..|s| - 1];
      SideCrossIntendedMultiset(inner);
      assert SideCrossIntended(s) == [s[0], s[|s| - 1]] + SideCrossIntended(inner);
      Ends(s);
    }
  }

  /** Over a sorted permutation the intended walk is a permutation for every n. */
  lemma SideCrossIntendedIsPermutation(s: seq<nat>, n: nat)
    requires IsPermutation(s, n)
    ensures IsPermutation(SideCrossIntended(s), n)
  {
    SideCrossIntendedMultiset(s);
  }

  /** For odd and empty inputs the code as written already does what was intended. */
  lemma {:induction false} SideCrossAgreesWhenOdd<X>(s: seq<X>)
    requires |s| % 2 == 1 || |s| == 0
    ensures SideCross(s) == SideCrossIntended(s)
    decreases |s|
  {
    if |s| > 2 {
      SideCrossAgreesWhenOdd(s[1..|s| - 1]);
    }
  }

  /** Five entries are walked a, e, b, d, c: the case the tests check. */
  lemma SideCrossOfFive<X>(a: X, b: X, c: X, d: X, e: X)
    ensures SideCross([a, b, c, d, e]) == [a, e, b, d, c]
  {
    var s, inner := [a, b, c, d, e], [b, c, d];
    assert s[1..4] == inner && inner[1..2] == [c];
    assert SideCross(inner) == [b, d, c];
  }

  /** Four entries: the code emits a, d, b and never c, the entry at
      position 4/2; the intended walk emits all four. */
  lemma SideCrossOfFour<X>(a: X, b: X, c: X, d: X)
    ensures SideCross([a, b, c, d]) == [a, d, b]
    ensures SideCrossIntended([a, b, c, d]) == [a, d, b, c]
  {
    var s := [a, b, c, d];
    assert s[1..3] == [b, c];
    assert [b, c][1..1] == [];
  }
}
