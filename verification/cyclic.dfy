/** Positions in a cycle of `n` entries: the successor and predecessor rules
    the page uses for its rotating content, and repeated moves forward. */
module Cyclic {

  /** The position after `current` in a cycle of `n`: the last wraps to the first. */
  function NextIndex(current: int, n: int): (r: int)
    ensures 0 <= current < n ==> 0 <= r < n && r == (current + 1) % n
  {
    if current == n - 1 then 0 else current + 1
  }

  /** The position before `current` in a cycle of `n`: the first wraps to the last. */
  function PrevIndex(current: int, n: int): (r: int)
    ensures 0 <= current < n ==> 0 <= r < n && r == (current - 1) % n
  {
    if current == 0 then n - 1 else current - 1
  }

  /** Previous undoes next and next undoes previous. */
  lemma PrevUndoesNext(i: int, n: int)
    requires 0 <= i < n
    ensures PrevIndex(NextIndex(i, n), n) == i
    ensures NextIndex(PrevIndex(i, n), n) == i
  {
  }

  /** The position reached from `i` after `k` moves forward. */
  function Advance(i: int, n: int, k: nat): (r: int)
    ensures 0 <= i < n ==> 0 <= r < n
    decreases k
  {
    if k == 0 then i else Advance(NextIndex(i, n), n, k - 1)
  }

  /** `k <= n` moves from an in-range position add `k`, wrapping around once. */
  lemma {:induction false} AdvanceAdds(i: int, n: int, k: nat)
    requires 0 <= i < n && k <= n
    ensures Advance(i, n, k) == if i + k < n then i + k else i + k - n
    decreases k
  {
    if k > 0 {
      AdvanceAdds(NextIndex(i, n), n, k - 1);
    }
  }

  /** `n` moves over a cycle of `n` come back to the start, and no fewer
      (positive) number of moves does. */
  lemma {:induction false} FullRotation(i: int, n: int)
    requires 0 <= i < n
    ensures Advance(i, n, n) == i
    ensures forall k :: 0 < k < n ==> Advance(i, n, k) != i
  {
    AdvanceAdds(i, n, n);
    forall k | 0 < k < n
      ensures Advance(i, n, k) != i
    {
      AdvanceAdds(i, n, k);
    }
  }
}
