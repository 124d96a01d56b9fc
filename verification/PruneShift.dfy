/**
  Shifts are ranks.

  The prune list translates a position to its place in the compacted files by
  subtracting, for every root up to the position, the size of what the root
  stands for.  The result is the number of positions (or leaves) that are kept
  in the file up to there.
 */
module PruneShift {
  import opened Bitmaps
  import opened Navigation
  import opened Postorder
  import opened PruneAdd
  import opened PruneTheory

  /** Number of nodes that a root removes from the hash file. */
  function NodeShift(root: nat): (n: nat) {
    if root == 0 then 0 else 2 * (Pow2(Height(root)) - 1)
  }

  /** Number of leaves that a root removes from the data file. */
  function LeafShift(root: nat): (n: nat) {
    if root == 0 || Height(root) == 0 then 0 else Pow2(Height(root))
  }

  function Total(shift: nat -> nat, roots: seq<nat>): (n: nat) {
    if roots == [] then 0 else Total(shift, roots[..|roots| - 1]) + shift(roots[|roots| - 1])
  }

  /** Positions that the hash file keeps, in a range of the given size. */
  ghost function Kept(size: nat, leaves: set<nat>): (s: set<nat>) {
    set p | 1 <= p <= size && !Compacted(p, leaves)
  }

  ghost function Removed(size: nat, leaves: set<nat>): (s: set<nat>) {
    set p | 1 <= p <= size && Compacted(p, leaves)
  }

  /** Leaves that the data file keeps. */
  ghost function KeptLeaves(size: nat, leaves: set<nat>): (s: set<nat>) {
    set p | 1 <= p <= size && IsLeaf(p) && !Compacted(p, leaves)
  }

  ghost function RemovedLeaves(size: nat, leaves: set<nat>): (s: set<nat>) {
    set p | 1 <= p <= size && IsLeaf(p) && Compacted(p, leaves)
  }

  lemma InKept(p: nat, size: nat, leaves: set<nat>)
    requires p >= 1
    ensures p in Kept(size, leaves) <==> p <= size && !Compacted(p, leaves)
    ensures p in Removed(size, leaves) <==> p <= size && Compacted(p, leaves)
    ensures p in KeptLeaves(size, leaves) <==> p <= size && IsLeaf(p) && !Compacted(p, leaves)
    ensures p in RemovedLeaves(size, leaves) <==> p <= size && IsLeaf(p) && Compacted(p, leaves)
    ensures 0 !in Kept(size, leaves) && 0 !in Removed(size, leaves)
    ensures 0 !in KeptLeaves(size, leaves) && 0 !in RemovedLeaves(size, leaves)
  {
    hide Compacted, IsLeaf;
  }

  // ----- walking back over what is kept -----

  /** Before a kept node that is no root, and before the subtree of a root, comes a kept node. */
  lemma KeptBefore(p: nat, leaves: set<nat>)
    requires p >= 1 && !Compacted(p, leaves)
    ensures var before := if Root(p, leaves) then Left(p) - 1 else p - 1;
            before >= 1 ==> !Compacted(before, leaves)
  {
    hide *;
    RootIs(p, leaves);
    var before := if Root(p, leaves) then Left(p) - 1 else p - 1;
    if before >= 1 {
      RootIs(before, leaves);
      if Compacted(before, leaves) {
        var q := Parent(before);
        BelowParent(before, q);
        BelowIs(q, q);
        BelowIs(before, q);
        BelowIs(p, q);
        if q < p { Laminar(q, p); }
        if q > p { Laminar(p, q); BelowParent(p, q); FullBelow(Parent(p), q, leaves); }
        assert false;
      }
    }
  }

  /** The subtree of a root, without the root, is compacted and holds no root. */
  lemma UnderRoot(p: nat, leaves: set<nat>, q: nat)
    requires p >= 1 && Root(p, leaves) && Left(p) <= q < p
    ensures Compacted(q, leaves) && !Root(q, leaves)
  {
    hide *;
    BelowIs(q, p);
    CompactedIsBelowRoot(q, leaves, p);
    RootIs(q, leaves);
  }

  lemma RootKept(p: nat, leaves: set<nat>)
    requires p >= 1
    ensures Root(p, leaves) ==> !Compacted(p, leaves)
    ensures Left(p) == p + 1 - Size(Height(p))
  {
    hide Full, Parent, Height;
  }

  lemma TotalStep(shift: nat -> nat, roots: seq<nat>, r: nat)
    ensures Total(shift, roots + [r]) == Total(shift, roots) + shift(r)
    ensures Total(shift, []) == 0
  {
    assert (roots + [r])[..|roots|] == roots;
  }

  lemma AscendingStep(s: set<nat>, n: nat)
    ensures n in s ==> Ascending(s, n + 1) == Ascending(s, n) + [n]
    ensures n !in s ==> Ascending(s, n + 1) == Ascending(s, n)
    ensures Ascending(s, 0) == []
  {}

  lemma ShiftIs(p: nat)
    requires p >= 1
    ensures NodeShift(p) == Size(Height(p)) - 1
    ensures LeafShift(p) == if Height(p) == 0 then 0 else Pow2(Height(p))
    ensures NodeShift(0) == 0 && LeafShift(0) == 0
  {
    hide Height, Size, Pow2;
  }

  /** Up to a kept position, the shifts of the roots count what is removed. */
  lemma {:induction false} NodeShiftCounts(bitmap: set<nat>, cache: set<nat>, leaves: set<nat>, size: nat, p: nat)
    requires Canonical(bitmap, cache, leaves) && p <= size
    requires p >= 1 ==> !Compacted(p, leaves)
    ensures Total(NodeShift, Ascending(bitmap, p + 1)) == |Ascending(Removed(size, leaves), p + 1)|
    decreases p
  {
    hide *;
    var removed := Removed(size, leaves);
    AscendingStep(bitmap, p);
    AscendingStep(removed, p);
    AscendingStep(bitmap, 0);
    AscendingStep(removed, 0);
    TotalStep(NodeShift, Ascending(bitmap, p), p);
    if p == 0 {
      ShiftIs(1);
      InKept(1, size, leaves);
      CanonicalIs(bitmap, cache, leaves, 1);
    } else {
      InKept(p, size, leaves);
      CanonicalIs(bitmap, cache, leaves, p);
      KeptBefore(p, leaves);
      if p in bitmap {
        var before := Left(p) - 1;
        NodeShiftCounts(bitmap, cache, leaves, size, before);
        forall q | before + 1 <= q < p ensures q !in bitmap && q in removed {
          UnderRoot(p, leaves, q);
          InKept(q, size, leaves);
          CanonicalIs(bitmap, cache, leaves, q);
        }
        AscendingGap(bitmap, before + 1, p);
        AscendingDense(removed, before + 1, p);
        ShiftIs(p);
        RootKept(p, leaves);
      } else {
        NodeShiftCounts(bitmap, cache, leaves, size, p - 1);
      }
    }
  }

  lemma CanonicalIs(bitmap: set<nat>, cache: set<nat>, leaves: set<nat>, p: nat)
    requires Canonical(bitmap, cache, leaves) && p >= 1
    ensures p in bitmap <==> Root(p, leaves)
    ensures p in cache <==> Full(p, leaves)
    ensures p in leaves ==> IsLeaf(p)
    ensures 0 !in bitmap && 0 !in cache && 0 !in leaves
  {
    hide Root, Full, IsLeaf;
  }

  /** p - get_shift(p) is the number of kept positions up to p. */
  lemma NodeShiftIsRank(bitmap: set<nat>, cache: set<nat>, leaves: set<nat>, size: nat, p: nat)
    requires Canonical(bitmap, cache, leaves) && 1 <= p <= size && !Compacted(p, leaves)
    ensures p == Total(NodeShift, Ascending(bitmap, p + 1)) + Rank(Kept(size, leaves), p)
  {
    hide *;
    NodeShiftCounts(bitmap, cache, leaves, size, p);
    KeptSplit(size, leaves, p);
  }

  lemma KeptSplit(size: nat, leaves: set<nat>, p: nat)
    requires p <= size
    ensures p == |Ascending(Removed(size, leaves), p + 1)| + Rank(Kept(size, leaves), p)
  {
    hide Compacted, Ascending, Removed, Kept;
    var all := Removed(size, leaves) + Kept(size, leaves);
    forall x: nat | x < p + 1
      ensures x in all <==> x >= 1
      ensures !(x in Removed(size, leaves) && x in Kept(size, leaves))
    {
      InKept(if x == 0 then 1 else x, size, leaves);
    }
    AscendingSplit(Removed(size, leaves), Kept(size, leaves), all, p + 1);
    AscendingDense(all, 1, p + 1);
    AscendingGap(all, 0, 1);
    AscendingStep(all, 0);
  }

  // ----- the same for leaves -----

  /** A subtree of height h has 2^h leaves. */
  lemma {:induction false} LeavesOfSubtree(p: nat)
    requires p >= 1
    ensures LeafCount(p) == LeafCount(Left(p) - 1) + Pow2(Height(p))
    decreases p
  {
    hide *;
    LeafIs(p);
    LeafCountStep(p);
    PowStep(Height(p) + 1);
    if Height(p) > 0 {
      RightChild(p);
      Family(p - 1);
      PowStep(Height(p));
      LeavesOfSubtree(p - 1);
      LeavesOfSubtree(Sibling(p - 1));
    }
  }

  /** Counting leaves, and counting a bitmap that holds all the leaves of a stretch. */
  lemma {:induction false} LeafStretch(s: set<nat>, m: nat, n: nat)
    requires 1 <= m <= n && forall x :: m <= x < n ==> (x in s <==> IsLeaf(x))
    ensures |Ascending(s, n)| == |Ascending(s, m)| + LeafCount(n - 1) - LeafCount(m - 1)
    decreases n
  {
    hide *;
    if m < n {
      LeafStretch(s, m, n - 1);
      AscendingStep(s, n - 1);
      LeafCountStep(n - 1);
    }
  }

  lemma {:induction false} LeafShiftCounts(bitmap: set<nat>, cache: set<nat>, leaves: set<nat>, size: nat, p: nat)
    requires Canonical(bitmap, cache, leaves) && p <= size
    requires p >= 1 ==> !Compacted(p, leaves)
    ensures Total(LeafShift, Ascending(bitmap, p + 1)) == |Ascending(RemovedLeaves(size, leaves), p + 1)|
    decreases p
  {
    hide *;
    var removed := RemovedLeaves(size, leaves);
    AscendingStep(bitmap, p);
    AscendingStep(removed, p);
    AscendingStep(bitmap, 0);
    AscendingStep(removed, 0);
    TotalStep(LeafShift, Ascending(bitmap, p), p);
    if p == 0 {
      ShiftIs(1);
      InKept(1, size, leaves);
      CanonicalIs(bitmap, cache, leaves, 1);
    } else {
      InKept(p, size, leaves);
      CanonicalIs(bitmap, cache, leaves, p);
      KeptBefore(p, leaves);
      if p in bitmap {
        var before := Left(p) - 1;
        LeafShiftCounts(bitmap, cache, leaves, size, before);
        forall q | before + 1 <= q < p ensures q !in bitmap && (q in removed <==> IsLeaf(q)) {
          UnderRoot(p, leaves, q);
          InKept(q, size, leaves);
          CanonicalIs(bitmap, cache, leaves, q);
        }
        AscendingGap(bitmap, before + 1, p);
        LeafStretch(removed, before + 1, p);
        LeavesOfSubtree(p);
        LeafCountStep(p);
        ShiftIs(p);
        LeafIs(p);
        RootKept(p, leaves);
        PowStep(Height(p) + 1);
      } else {
        LeafShiftCounts(bitmap, cache, leaves, size, p - 1);
      }
    }
  }

  /** n_leaves(p) - get_leaf_shift(p) is the number of kept leaves up to p. */
  lemma LeafShiftIsRank(bitmap: set<nat>, cache: set<nat>, leaves: set<nat>, size: nat, p: nat)
    requires Canonical(bitmap, cache, leaves) && 1 <= p <= size && !Compacted(p, leaves)
    ensures LeafCount(p) == Total(LeafShift, Ascending(bitmap, p + 1)) + Rank(KeptLeaves(size, leaves), p)
  {
    hide *;
    LeafShiftCounts(bitmap, cache, leaves, size, p);
    KeptLeavesSplit(size, leaves, p);
  }

  lemma KeptLeavesSplit(size: nat, leaves: set<nat>, p: nat)
    requires p <= size
    ensures LeafCount(p) == |Ascending(RemovedLeaves(size, leaves), p + 1)| + Rank(KeptLeaves(size, leaves), p)
  {
    hide Compacted, IsLeaf, Ascending, RemovedLeaves, KeptLeaves, LeafCount;
    var all := RemovedLeaves(size, leaves) + KeptLeaves(size, leaves);
    forall x: nat | x < p + 1
      ensures x in all <==> x >= 1 && IsLeaf(x)
      ensures !(x in RemovedLeaves(size, leaves) && x in KeptLeaves(size, leaves))
    {
      InKept(if x == 0 then 1 else x, size, leaves);
    }
    AscendingSplit(RemovedLeaves(size, leaves), KeptLeaves(size, leaves), all, p + 1);
    LeafStretch(all, 1, p + 1);
    AscendingGap(all, 0, 1);
    AscendingStep(all, 0);
    LeafCountStep(1);
  }
}
