// Contiguous blocks described by a list of counts.
//
// Groups of specialists occupy the rows of the performance matrix, and work
// types occupy its columns, one contiguous block per entry of a count list,
// in list order: block 0 covers [0, s[0]), block 1 covers [s[0], s[0] + s[1]),
// and so on. Prefix sums give the block boundaries; BlockIndex is the
// (0-based) block that contains a position.

module Blocks {

  /** Sum of the first k counts: the position where block k starts. */
  function Prefix(s: seq<nat>, k: nat): nat
    requires k <= |s|
  {
    if k == 0 then 0 else Prefix(s, k - 1) + s[k - 1]
  }

  /** Sum of all counts: the number of positions the blocks cover. */
  function Sum(s: seq<nat>): nat
  {
    Prefix(s, |s|)
  }

  lemma {:induction false} PrefixMonotone(s: seq<nat>, i: nat, j: nat)
    requires i <= j <= |s|
    ensures Prefix(s, i) <= Prefix(s, j)
    decreases j - i
  {
    if i < j {
      PrefixMonotone(s, i, j - 1);
    }
  }

  /** First block at or after block k whose end lies beyond x. */
  function BlockFrom(s: seq<nat>, x: nat, k: nat): (r: nat)
    requires k < |s| && Prefix(s, k) <= x < Sum(s)
    ensures k <= r < |s|
    ensures Prefix(s, r) <= x < Prefix(s, r + 1)
    decreases |s| - k
  {
    if x < Prefix(s, k + 1) then k else BlockFrom(s, x, k + 1)
  }

  /** The block that contains position x (0-based). */
  function BlockIndex(s: seq<nat>, x: nat): (r: nat)
    requires x < Sum(s)
    ensures r < |s|
    ensures Prefix(s, r) <= x < Prefix(s, r + 1)
  {
    BlockFrom(s, x, 0)
  }

  /** A position lies in exactly one block: the bounds determine the block. */
  lemma BlockIndexUnique(s: seq<nat>, x: nat, k: nat)
    requires k < |s| && Prefix(s, k) <= x < Prefix(s, k + 1)
    ensures x < Sum(s) && BlockIndex(s, x) == k
  {
    PrefixMonotone(s, k + 1, |s|);
    var r := BlockIndex(s, x);
    if r < k {
      PrefixMonotone(s, r + 1, k);
    } else if k < r {
      PrefixMonotone(s, k + 1, r);
    }
  }

  /** The k-th position of block i belongs to block i. */
  lemma BlockIndexOfOffset(s: seq<nat>, i: nat, k: nat)
    requires i < |s| && k < s[i]
    ensures Prefix(s, i) + k < Sum(s)
    ensures BlockIndex(s, Prefix(s, i) + k) == i
  {
    BlockIndexUnique(s, Prefix(s, i) + k, i);
  }

  /** Positions before the start of block lim lie in a block below lim. */
  lemma BlockIndexBelow(s: seq<nat>, x: nat, lim: nat)
    requires lim <= |s| && x < Prefix(s, lim)
    ensures x < Sum(s) && BlockIndex(s, x) < lim
  {
    PrefixMonotone(s, lim, |s|);
    var r := BlockIndex(s, x);
    if lim <= r {
      PrefixMonotone(s, lim, r);
    }
  }

  /** Distinct (block, offset) pairs name distinct positions. */
  lemma OffsetsDisjoint(s: seq<nat>, i: nat, k: nat, i': nat, k': nat)
    requires i < |s| && k < s[i]
    requires i' < |s| && k' < s[i']
    requires Prefix(s, i) + k == Prefix(s, i') + k'
    ensures i == i' && k == k'
  {
    BlockIndexOfOffset(s, i, k);
    BlockIndexOfOffset(s, i', k');
  }
}
