/** The middle-out policy: start at position n/2 (the upper of the two middles
    when n is even), then alternate one step to the left and one step to the
    right, widening by one position each round. */
module MiddleOutOrder {
  import opened IndexOrders

  /** What rounds offset, offset+1, ..., mid of the loop append: mid - offset,
      then mid + offset while that is still a position. `mid` is n/2, written
      without division as mid + mid <= n <= mid + mid + 1. */
  function MiddleOutFrom(n: nat, mid: nat, offset: nat): (r: seq<nat>)
    requires mid + mid <= n <= mid + mid + 1
    requires 1 <= offset <= mid + 1
    ensures |r| == (mid + 1 - offset) + (if mid + offset <= n then n - (mid + offset) else 0)
    decreases mid + 1 - offset
  {
    if offset > mid then []
    else [mid - offset] + (if mid + offset < n then [mid + offset] else [])
         + MiddleOutFrom(n, mid, offset + 1)
  }

  /** The whole walk over n positions: nothing for n = 0, otherwise n/2 and
      then the rounds 1..n/2. */
  function MiddleOut(n: nat): (r: seq<nat>)
    ensures |r| == n
  {
    if n == 0 then [] else [n / 2] + MiddleOutFrom(n, n / 2, 1)
  }

  /** The loop invariant of the walk survives one round. */
  lemma MiddleOutAdvance(n: nat, mid: nat, offset: nat, done: seq<nat>)
    requires mid + mid <= n <= mid + mid + 1
    requires 1 <= offset <= mid
    requires done + MiddleOutFrom(n, mid, offset) == MiddleOut(n)
    ensures mid + offset < n ==>
      done + [mid - offset] + [mid + offset] + MiddleOutFrom(n, mid, offset + 1) == MiddleOut(n)
    ensures mid + offset >= n ==>
      done + [mid - offset] + MiddleOutFrom(n, mid, offset + 1) == MiddleOut(n)
  {
    var rest := MiddleOutFrom(n, mid, offset + 1);
    if mid + offset < n {
      assert MiddleOutFrom(n, mid, offset) == [mid - offset] + [mid + offset] + rest;
    } else {
      assert MiddleOutFrom(n, mid, offset) == [mid - offset] + rest;
    }
  }

  /** `PolicyMiddleOut::build`: only the size of the store matters. The
      guard `mid >= offset` is kept as written although the loop condition
      already implies it. */
  method BuildMiddleOut(data: seq<int>) returns (order: seq<nat>)
    ensures order == MiddleOut(|data|)
  {
    var n := |data|;
    order := [];
    if n == 0 {
      return;
    }
    var mid := n / 2;
    order := order + [mid];
    var offset := 1;
    while offset <= mid
      invariant 1 <= offset <= mid + 1
      invariant order + MiddleOutFrom(n, mid, offset) == MiddleOut(n)
    {
      MiddleOutAdvance(n, mid, offset, order);
      if mid >= offset {
        order := order + [mid - offset];
      }
      if mid + offset < n {
        order := order + [mid + offset];
      }
      offset := offset + 1;
    }
  }

  /** The positions mid + offset emits in a round: one, or none once it
      is past the end. */
  function HighAt(n: nat, mid: nat, offset: nat): (m: multiset<nat>)
    ensures |m| <= 1
  {
    if mid + offset < n then multiset{mid + offset} else multiset{}
  }

  /** One round, as multisets: mid - offset, the high position if any, then
      the rounds from `next` = offset + 1 on. */
  lemma MiddleOutFromRound(n: nat, mid: nat, offset: nat, next: nat, low: nat)
    requires mid + mid <= n <= mid + mid + 1
    requires 1 <= offset <= mid && next == offset + 1 && low + offset == mid
    ensures multiset(MiddleOutFrom(n, mid, offset))
         == multiset{low} + HighAt(n, mid, offset) + multiset(MiddleOutFrom(n, mid, next))
  {
    var rest := MiddleOutFrom(n, mid, next);
    if mid + offset < n {
      assert MiddleOutFrom(n, mid, offset) == [low] + [mid + offset] + rest;
      assert multiset([low] + [mid + offset] + rest) == multiset{low} + multiset{mid + offset} + multiset(rest);
    } else {
      assert MiddleOutFrom(n, mid, offset) == [low] + rest;
      assert multiset([low] + rest) == multiset{low} + multiset(rest);
    }
  }

  /** The positions below the middle still to come, split at the next one. */
  lemma LowRange(mid: nat, offset: nat, next: nat, low: nat)
    requires 1 <= offset <= mid && next == offset + 1 && low + offset == mid
    ensures multiset(Range(0, mid + 1 - offset)) == multiset(Range(0, mid + 1 - next)) + multiset{low}
  {
    RangeLast(0, low);
  }

  /** The positions above the middle still to come, split at the next one. */
  lemma HighRange(n: nat, mid: nat, offset: nat, next: nat)
    requires mid + mid <= n && 1 <= offset <= mid && next == offset + 1
    ensures multiset(Range(mid + offset, n)) == HighAt(n, mid, offset) + multiset(Range(mid + next, n))
  {
    if mid + offset < n {
      RangeFirst(mid + offset, n);
    } else {
      assert |Range(mid + offset, n)| == 0 && |Range(mid + next, n)| == 0;
    }
  }

  /** Multiset union regrouped: the low and high positions of one round
      joined with those of the later rounds. */
  lemma Regroup<X>(a: multiset<X>, b: multiset<X>, c: multiset<X>, d: multiset<X>)
    ensures a + b + (c + d) == (c + a) + (b + d)
  {
  }

  /** The rounds from `offset` on emit the positions below mid - offset + 1
      and those from mid + offset up, each once. */
  lemma {:induction false} MiddleOutFromMultiset(n: nat, mid: nat, offset: nat)
    requires mid + mid <= n <= mid + mid + 1
    requires 1 <= offset <= mid + 1
    ensures multiset(MiddleOutFrom(n, mid, offset))
         == multiset(Range(0, mid + 1 - offset)) + multiset(Range(mid + offset, n))
    decreases mid + 1 - offset
  {
    if offset <= mid {
      var next, l: nat := offset + 1, mid - offset;
      var low := multiset{l};
      var high := HighAt(n, mid, offset);
      var lows, highs := multiset(Range(0, mid + 1 - next)), multiset(Range(mid + next, n));
      MiddleOutFromRound(n, mid, offset, next, l);
      MiddleOutFromMultiset(n, mid, next);
      LowRange(mid, offset, next, l);
      HighRange(n, mid, offset, next);
      Regroup(low, high, lows, highs);
    } else {
      assert |Range(0, mid + 1 - offset)| == 0 && |Range(mid + offset, n)| == 0;
    }
  }

  /** All rounds together emit every position except the middle one. */
  lemma MiddleOutFromAll(n: nat, mid: nat)
    requires mid + mid <= n <= mid + mid + 1
    ensures multiset(MiddleOutFrom(n, mid, 1)) == multiset(Range(0, mid)) + multiset(Range(mid + 1, n))
  {
    MiddleOutFromMultiset(n, mid, 1);
    assert mid + 1 - 1 == mid;
  }

  /** The positions 0..n-1 are those below `mid`, `mid` itself, and those
      above it. */
  lemma RangeAround(mid: nat, n: nat)
    requires mid < n
    ensures Range(0, n) == Range(0, mid) + [mid] + Range(mid + 1, n)
  {
    RangeSplit(0, mid, n);
    RangeSplit(mid, mid + 1, n);
    assert Range(mid, mid + 1) == [mid];
  }

  lemma ThreeParts<X>(a: seq<X>, x: X, b: seq<X>)
    ensures multiset(a + [x] + b) == multiset(a) + multiset{x} + multiset(b)
  {
  }

  /** The walk visits every position 0..n-1 exactly once. */
  lemma MiddleOutIsPermutation(n: nat)
    ensures IsPermutation(MiddleOut(n), n)
  {
    if n > 0 {
      var mid: nat := n / 2;
      MiddleOutFromAll(n, mid);
      RangeAround(mid, n);
      ThreeParts(Range(0, mid), mid, Range(mid + 1, n));
      assert MiddleOut(n) == [mid] + MiddleOutFrom(n, mid, 1);
    }
  }

  /** Round k of rounds offset.. sits at positions 2(k - offset) and
      2(k - offset) + 1 of their output: mid - k, then mid + k if that is a
      position. */
  lemma {:induction false} MiddleOutFromAt(n: nat, mid: nat, offset: nat, k: nat)
    requires mid + mid <= n <= mid + mid + 1
    requires 1 <= offset <= k <= mid
    ensures MiddleOutFrom(n, mid, offset)[2 * (k - offset)] == mid - k
    ensures mid + k < n ==> MiddleOutFrom(n, mid, offset)[2 * (k - offset) + 1] == mid + k
    decreases k - offset
  {
    var rest := MiddleOutFrom(n, mid, offset + 1);
    if mid + offset < n {
      assert MiddleOutFrom(n, mid, offset) == [mid - offset, mid + offset] + rest;
    } else {
      assert MiddleOutFrom(n, mid, offset) == [mid - offset] + rest;
    }
    if k > offset {
      MiddleOutFromAt(n, mid, offset + 1, k);
    }
  }

  /** Where each position lands: n/2 first, then n/2 - k at 2k - 1 and
      n/2 + k at 2k, so the distance from the middle grows by one every
      two steps. */
  lemma MiddleOutAt(n: nat, k: nat)
    requires n > 0
    ensures MiddleOut(n)[0] == n / 2
    ensures 1 <= k <= n / 2 ==> MiddleOut(n)[2 * k - 1] == n / 2 - k
    ensures 1 <= k && n / 2 + k < n ==> MiddleOut(n)[2 * k] == n / 2 + k
  {
    var mid := n / 2;
    if 1 <= k <= mid {
      MiddleOutFromAt(n, mid, 1, k);
    }
  }

  /** The two sizes the tests check: the even case starts at the upper
      middle, the odd case at the exact middle. */
  lemma MiddleOutSmall()
    ensures MiddleOut(4) == [2, 1, 3, 0]
    ensures MiddleOut(5) == [2, 1, 3, 0, 4]
  {
    assert MiddleOutFrom(4, 2, 3) == [];
    assert MiddleOutFrom(4, 2, 2) == [0];
    assert MiddleOutFrom(5, 2, 3) == [];
    assert MiddleOutFrom(5, 2, 2) == [0, 4];
  }
}
