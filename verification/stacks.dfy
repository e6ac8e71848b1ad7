/**
 * Two stacks of regions growing towards each other: when their lengths fit, nothing overlaps. As placed,
 * each region follows from its neighbour by a wrapping 64-bit sum or difference; as stacked, its offset
 * is the exact sum of all lengths before it. The one is the other as long as the lengths fit.
 */
module Stacks {
  import opened Words
  import opened Sums

  function End(alloc: seq<u64>, offset: seq<u64>, a: nat): int
    requires a < |alloc| == |offset|
  {
    (offset[a] as int) + (alloc[a] as int)
  }

  /** Regions a and b share no address; an empty region overlaps nothing. */
  predicate Apart(alloc: seq<u64>, offset: seq<u64>, a: nat, b: nat)
    requires a < |alloc| == |offset| && b < |alloc|
  {
    alloc[a] == 0 || alloc[b] == 0 || End(alloc, offset, a) <= offset[b] || End(alloc, offset, b) <= offset[a]
  }

  ghost predicate Tables(alloc: seq<u64>, offset: seq<u64>, ids: seq<nat>) {
    |alloc| == |offset| && Lists(ids, |alloc|)
  }

  /** Region k begins where the one before it ends, in 64-bit arithmetic. */
  ghost predicate Follows(alloc: seq<u64>, offset: seq<u64>, ids: seq<nat>, k: nat)
    requires Tables(alloc, offset, ids) && 0 < k < |ids|
  {
    offset[ids[k]] == Add64(offset[ids[k - 1]], alloc[ids[k - 1]])
  }

  /** Region k - 1 ends where region k begins, in 64-bit arithmetic. */
  ghost predicate Precedes(alloc: seq<u64>, offset: seq<u64>, ids: seq<nat>, k: nat)
    requires Tables(alloc, offset, ids) && 0 < k < |ids|
  {
    offset[ids[k - 1]] == Sub64(offset[ids[k]], alloc[ids[k - 1]])
  }

  /** As placed by the code, from base upwards. */
  ghost predicate PlacedUp(alloc: seq<u64>, offset: seq<u64>, ids: seq<nat>, base: int) {
    && Tables(alloc, offset, ids)
    && (ids != [] ==> offset[ids[0]] == base)
    && forall k | 0 < k < |ids| :: Follows(alloc, offset, ids, k)
  }

  /** As placed by the code, from top downwards. */
  ghost predicate PlacedDown(alloc: seq<u64>, offset: seq<u64>, ids: seq<nat>, top: u64) {
    && Tables(alloc, offset, ids)
    && (ids != [] ==> offset[ids[|ids| - 1]] == Sub64(top, alloc[ids[|ids| - 1]]))
    && forall k | 0 < k < |ids| :: Precedes(alloc, offset, ids, k)
  }

  /** Consecutive from base on, in unbounded arithmetic. */
  ghost predicate Stacked(alloc: seq<u64>, offset: seq<u64>, ids: seq<nat>, base: int) {
    && Tables(alloc, offset, ids)
    && forall k | 0 <= k < |ids| :: offset[ids[k]] == base + SumTo(Pick(alloc, ids), k)
  }

  lemma {:induction false} UpAt(alloc: seq<u64>, offset: seq<u64>, ids: seq<nat>, base: nat, k: nat)
    requires PlacedUp(alloc, offset, ids, base) && k < |ids|
    requires base + Total(Pick(alloc, ids)) < U64
    ensures offset[ids[k]] == base + SumTo(Pick(alloc, ids), k)
  {
    SumMonotone(Pick(alloc, ids), k, |ids|);
    if k > 0 {
      UpAt(alloc, offset, ids, base, k - 1);
      assert Follows(alloc, offset, ids, k);
    }
  }

  lemma UpFits(alloc: seq<u64>, offset: seq<u64>, ids: seq<nat>, base: nat)
    requires PlacedUp(alloc, offset, ids, base)
    requires base + Total(Pick(alloc, ids)) < U64
    ensures Stacked(alloc, offset, ids, base)
  {
    forall k: nat | k < |ids| ensures offset[ids[k]] == base + SumTo(Pick(alloc, ids), k) {
      UpAt(alloc, offset, ids, base, k);
    }
  }

  lemma {:induction false} DownAt(alloc: seq<u64>, offset: seq<u64>, ids: seq<nat>, top: u64, k: nat)
    requires PlacedDown(alloc, offset, ids, top) && k < |ids|
    requires Total(Pick(alloc, ids)) <= top
    ensures offset[ids[k]] == top - Total(Pick(alloc, ids)) + SumTo(Pick(alloc, ids), k)
    decreases |ids| - k
  {
    var p := Pick(alloc, ids);
    SumMonotone(p, k + 1, |ids|);
    if k + 1 < |ids| {
      DownAt(alloc, offset, ids, top, k + 1);
      assert Precedes(alloc, offset, ids, k + 1);
    }
  }

  /** No subtraction wraps exactly because the stack is no taller than the space below top. */
  lemma DownFits(alloc: seq<u64>, offset: seq<u64>, ids: seq<nat>, top: u64)
    requires PlacedDown(alloc, offset, ids, top)
    requires Total(Pick(alloc, ids)) <= top
    ensures Stacked(alloc, offset, ids, top - Total(Pick(alloc, ids)))
  {
    forall k: nat | k < |ids|
      ensures offset[ids[k]] == top - Total(Pick(alloc, ids)) + SumTo(Pick(alloc, ids), k)
    {
      DownAt(alloc, offset, ids, top, k);
    }
  }

  lemma StackOrdered(alloc: seq<u64>, offset: seq<u64>, ids: seq<nat>, base: int, i: nat, j: nat)
    requires Stacked(alloc, offset, ids, base) && i < |ids| && j < |ids|
    ensures base <= offset[ids[i]] && End(alloc, offset, ids[i]) <= base + Total(Pick(alloc, ids))
    ensures i < j ==> End(alloc, offset, ids[i]) <= offset[ids[j]]
  {
    var p := Pick(alloc, ids);
    SumMonotone(p, i, |p|);
    if i < j { SumMonotone(p, i, j); }
  }

  /** Region a ends where region b begins. */
  predicate Joins(alloc: seq<u64>, offset: seq<u64>, a: nat, b: nat)
    requires a < |alloc| == |offset| && b < |alloc|
  {
    End(alloc, offset, a) == offset[b]
  }

  lemma StackAt(alloc: seq<u64>, offset: seq<u64>, ids: seq<nat>, base: int, k: nat, at: int)
    requires Stacked(alloc, offset, ids, base) && k < |ids| && at == base + SumTo(Pick(alloc, ids), k)
    ensures offset[ids[k]] == at
  {}

  lemma NextSum(p: seq<nat>, k: nat, next: nat)
    requires k < |p| && next == k + 1
    ensures SumTo(p, next) == SumTo(p, k) + p[k]
  {}

  lemma TotalAt(p: seq<nat>, n: nat)
    requires |p| == n
    ensures Total(p) == SumTo(p, n)
  {}

  /** No gaps: each region of a stack ends where the next one begins, and the last one on top. */
  lemma StackNext(alloc: seq<u64>, offset: seq<u64>, ids: seq<nat>, base: int, k: nat, next: nat)
    requires Stacked(alloc, offset, ids, base) && k < |ids| && next == k + 1
    ensures if next < |ids| then Joins(alloc, offset, ids[k], ids[next])
            else End(alloc, offset, ids[k]) == base + Total(Pick(alloc, ids))
  {
    var p := Pick(alloc, ids);
    var low, high := SumTo(p, k), SumTo(p, next);
    NextSum(p, k, next);
    StackAt(alloc, offset, ids, base, k, base + low);
    if next < |ids| {
      StackAt(alloc, offset, ids, base, next, base + high);
    } else {
      TotalAt(p, next);
    }
  }

  ghost predicate AllApart(alloc: seq<u64>, offset: seq<u64>, ids: seq<nat>)
    requires Tables(alloc, offset, ids)
  {
    forall i, j | 0 <= i < j < |ids| :: Apart(alloc, offset, ids[i], ids[j])
  }

  ghost predicate AllWithin(alloc: seq<u64>, offset: seq<u64>, ids: seq<nat>, lo: int, hi: int)
    requires Tables(alloc, offset, ids)
  {
    forall i | 0 <= i < |ids| :: lo <= offset[ids[i]] && End(alloc, offset, ids[i]) <= hi
  }

  lemma StackSound(alloc: seq<u64>, offset: seq<u64>, ids: seq<nat>, base: int)
    requires Stacked(alloc, offset, ids, base)
    ensures AllApart(alloc, offset, ids)
    ensures AllWithin(alloc, offset, ids, base, base + Total(Pick(alloc, ids)))
  {
    forall i, j | 0 <= i < j < |ids| ensures Apart(alloc, offset, ids[i], ids[j]) {
      StackOrdered(alloc, offset, ids, base, i, j);
    }
    forall i | 0 <= i < |ids|
      ensures base <= offset[ids[i]] && End(alloc, offset, ids[i]) <= base + Total(Pick(alloc, ids))
    {
      StackOrdered(alloc, offset, ids, base, i, i);
    }
  }

  /** Groups of disjoint regions in successive bands are disjoint together. */
  lemma BandsApart(alloc: seq<u64>, offset: seq<u64>, a: seq<nat>, b: seq<nat>, lo: int, mid: int, hi: int)
    requires Tables(alloc, offset, a) && Tables(alloc, offset, b) && Tables(alloc, offset, a + b)
    requires AllApart(alloc, offset, a) && AllApart(alloc, offset, b) && lo <= mid <= hi
    requires AllWithin(alloc, offset, a, lo, mid) && AllWithin(alloc, offset, b, mid, hi)
    ensures AllApart(alloc, offset, a + b) && AllWithin(alloc, offset, a + b, lo, hi)
  {
    var c := a + b;
    forall i, j | 0 <= i < j < |c| ensures Apart(alloc, offset, c[i], c[j]) {
      if i < |a| && j >= |a| {
        assert c[i] == a[i] && c[j] == b[j - |a|];
      } else if j < |a| {
        assert c[i] == a[i] && c[j] == a[j];
      } else {
        assert c[i] == b[i - |a|] && c[j] == b[j - |a|];
      }
    }
    forall i | 0 <= i < |c| ensures lo <= offset[c[i]] && End(alloc, offset, c[i]) <= hi {
      if i < |a| { assert c[i] == a[i]; } else { assert c[i] == b[i - |a|]; }
    }
  }
}
