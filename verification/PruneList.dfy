/**
  The prune list of store/src/prune_list.rs.

  It keeps the roots of the pruned subtrees, a cache of every pruned node and two
  caches of cumulative shifts.  Its abstract value is the set of pruned leaves.
 */
module PruneLists {
  import opened Bitmaps
  import opened Navigation
  import opened Postorder
  import opened PruneAdd
  import opened PruneShift
  import opened PruneTheory

  /** p lies in the subtree of one of the listed nodes. */
  ghost predicate Covered(p: nat, roots: set<nat>)
    requires p >= 1
  {
    exists r :: r in roots && r >= 1 && Below(p, r)
  }

  lemma MmrSizeIs(n: nat)
    ensures MmrSize(n) >= n
  {}

  /** The roots and the pruned nodes depend on the set of leaves only, not on how it was reached. */
  /** Without a root nothing is pruned. */
  lemma NothingPruned(cache: set<nat>, leaves: set<nat>)
    requires Canonical({}, cache, leaves)
    ensures cache == {}
  {
    hide Full, IsLeaf, Root;
    forall p | p >= 1 ensures p !in cache {
      CoveredFromRoots({}, leaves, p);
    }
  }

  lemma CanonicalUnique(b1: set<nat>, c1: set<nat>, b2: set<nat>, c2: set<nat>, leaves: set<nat>)
    requires Canonical(b1, c1, leaves) && Canonical(b2, c2, leaves)
    ensures b1 == b2 && c1 == c2
  {
    hide Root, Full, IsLeaf;
    forall p: nat ensures (p in b1 <==> p in b2) && (p in c1 <==> p in c2) {
      if p >= 1 {
        assert p in b1 <==> Root(p, leaves);
        assert p in c1 <==> Full(p, leaves);
      }
    }
  }

  /** The cached sums belong to the roots. */
  ghost predicate SumsOf(shift: nat -> nat, cache: seq<nat>, roots: seq<nat>)
  {
    |cache| == |roots| && forall i :: 0 <= i < |roots| ==> cache[i] == Total(shift, roots[..i + 1])
  }

  /** A cached shift, as both kinds are looked up. */
  function Lookup(bitmap: set<nat>, cache: seq<nat>, pos: nat): (n: nat)
    requires Rank(bitmap, pos) == 0 || |cache| > 0
  {
    if bitmap == {} then 0
    else
      var idx := Rank(bitmap, pos);
      if idx == 0 then 0
      else if idx > |cache| then cache[|cache| - 1]
      else cache[idx - 1]
  }

  /** With part of the sums cached, the lookup is right for the roots covered so far. */
  lemma LookupPart(shift: nat -> nat, bitmap: set<nat>, cache: seq<nat>, pos: nat)
    requires |cache| <= |Members(bitmap)| && SumsOf(shift, cache, Members(bitmap)[..|cache|])
    requires Rank(bitmap, pos) <= |cache|
    ensures Lookup(bitmap, cache, pos) == Total(shift, Ascending(bitmap, pos + 1))
  {
    hide Members, Ascending;
    MembersRank(bitmap, pos);
    var idx := Rank(bitmap, pos);
    if bitmap == {} { AscendingGap(bitmap, 0, pos + 1); AscendingStep(bitmap, 0); }
    if idx > 0 {
      assert Members(bitmap)[..|cache|][..idx] == Members(bitmap)[..idx];
    }
  }

  lemma LookupAll(shift: nat -> nat, bitmap: set<nat>, cache: seq<nat>, pos: nat)
    requires bitmap == {} || SumsOf(shift, cache, Members(bitmap))
    ensures Rank(bitmap, pos) == 0 || |cache| > 0
    ensures Lookup(bitmap, cache, pos) == Total(shift, Ascending(bitmap, pos + 1))
  {
    hide Members, Ascending, Total;
    if bitmap == {} {
      AscendingGap(bitmap, 0, pos + 1);
      AscendingStep(bitmap, 0);
      TotalStep(shift, [], 0);
    } else {
      MembersRank(bitmap, pos);
      assert Members(bitmap)[..|cache|] == Members(bitmap);
      LookupPart(shift, bitmap, cache, pos);
    }
  }

  /** Before the i-th root there are i roots. */
  lemma RankBefore(bitmap: set<nat>, i: nat)
    requires i < |Members(bitmap)| && 0 !in bitmap
    ensures var r := Members(bitmap)[i]; r >= 1 && r in bitmap && Rank(bitmap, r - 1) == i
    ensures Ascending(bitmap, Members(bitmap)[i]) == Members(bitmap)[..i]
  {
    hide Ascending;
    AscendingPlace(bitmap, Maximum(bitmap) + 1, i);
    AscendingPrefix(bitmap, Members(bitmap)[i], Maximum(bitmap) + 1);
  }

  class PruneList {
    var bitmap: set<nat>
    var prunedCache: set<nat>
    var shiftCache: seq<nat>
    var leafShiftCache: seq<nat>
    /** The leaves added so far. */
    ghost var leaves: set<nat>

    ghost predicate Valid()
      reads this
    {
      Canonical(bitmap, prunedCache, leaves)
    }

    /** The shift caches belong to the bitmap, as they do after a flush. */
    ghost predicate Fresh()
      reads this
    {
      bitmap == {} ||
      (SumsOf(NodeShift, shiftCache, Members(bitmap)) && SumsOf(LeafShift, leafShiftCache, Members(bitmap)))
    }

    constructor ()
      ensures Valid() && Fresh() && leaves == {} && bitmap == {}
    {
      bitmap, prunedCache, shiftCache, leafShiftCache, leaves := {}, {}, [], [], {};
      new;
      forall p | p >= 1 ensures !Full(p, {}) { var q := LeafBelow(p); }
    }

    /** open: the caches are built from the bitmap that was read. */
    constructor Open(saved: set<nat>, ghost prunedLeaves: set<nat>)
      requires 0 !in saved && forall q :: q in prunedLeaves ==> q >= 1 && IsLeaf(q)
      requires forall p :: p >= 1 ==> (p in saved <==> Root(p, prunedLeaves))
      ensures Valid() && Fresh() && leaves == prunedLeaves && bitmap == saved
    {
      bitmap, prunedCache, shiftCache, leafShiftCache, leaves := saved, {}, [], [], prunedLeaves;
      new;
      InitCaches();
    }

    function GetShift(pos: nat): (n: nat)
      requires Rank(bitmap, pos) == 0 || |shiftCache| > 0
      reads this
    {
      Lookup(bitmap, shiftCache, pos)
    }

    function GetLeafShift(pos: nat): (n: nat)
      requires Rank(bitmap, pos) == 0 || |leafShiftCache| > 0
      reads this
    {
      Lookup(bitmap, leafShiftCache, pos)
    }

    predicate IsPruned(pos: nat)
      reads this
    {
      pos in prunedCache
    }

    predicate IsPrunedRoot(pos: nat)
      reads this
    {
      pos in bitmap
    }

    method BuildShiftCache()
      requires 0 !in bitmap
      modifies this`shiftCache
      ensures bitmap == {} || SumsOf(NodeShift, shiftCache, Members(bitmap))
    {
      hide Members, Ascending, Total, NodeShift, Lookup;
      if bitmap == {} { return; }
      shiftCache := [];
      var roots := Members(bitmap);
      for i := 0 to |roots|
        invariant |shiftCache| == i && SumsOf(NodeShift, shiftCache, roots[..i])
      {
        var pos := roots[i];
        RankBefore(bitmap, i);
        LookupPart(NodeShift, bitmap, shiftCache, pos - 1);
        var prevShift := GetShift(pos - 1);
        var height := PostorderHeight(pos);
        var currShift := if IsPrunedRoot(pos) then 2 * (Pow2(height) - 1) else 0;
        NodeShiftIs(pos);
        TotalStep(NodeShift, roots[..i], pos);
        assert roots[..i + 1] == roots[..i] + [pos];
        SumsOfNext(NodeShift, shiftCache, roots[..i], pos);
        shiftCache := shiftCache + [prevShift + currShift];
      }
      assert roots[..|roots|] == roots;
    }

    method BuildLeafShiftCache()
      requires 0 !in bitmap
      modifies this`leafShiftCache
      ensures bitmap == {} || SumsOf(LeafShift, leafShiftCache, Members(bitmap))
    {
      hide Members, Ascending, Total, LeafShift, Lookup;
      if bitmap == {} { return; }
      leafShiftCache := [];
      var roots := Members(bitmap);
      for i := 0 to |roots|
        invariant |leafShiftCache| == i && SumsOf(LeafShift, leafShiftCache, roots[..i])
      {
        var pos := roots[i];
        RankBefore(bitmap, i);
        LookupPart(LeafShift, bitmap, leafShiftCache, pos - 1);
        var prevShift := GetLeafShift(pos - 1);
        var height := PostorderHeight(pos);
        var currShift := if IsPrunedRoot(pos) then (if height == 0 then 0 else Pow2(height)) else 0;
        NodeShiftIs(pos);
        TotalStep(LeafShift, roots[..i], pos);
        assert roots[..i + 1] == roots[..i] + [pos];
        SumsOfNext(LeafShift, leafShiftCache, roots[..i], pos);
        leafShiftCache := leafShiftCache + [prevShift + currShift];
      }
      assert roots[..|roots|] == roots;
    }

    /** The cache of pruned nodes is recomputed from the paths to the roots. */
    method BuildPrunedCache()
      requires 0 !in bitmap
      modifies this`prunedCache
      ensures bitmap == {} ==> prunedCache == old(prunedCache)
      ensures bitmap != {} ==> 0 !in prunedCache && forall p :: p >= 1 ==> (p in prunedCache <==> Covered(p, bitmap))
    {
      hide Covered, PathTo;
      if bitmap == {} { return; }
      prunedCache := {};
      var maximum := Maximum(bitmap);
      for pos := 1 to maximum + 1
        invariant 0 !in prunedCache && forall p :: p in prunedCache ==> p < pos
        invariant forall p :: 1 <= p < pos ==> (p in prunedCache <==> Covered(p, bitmap))
      {
        var path := ComputePath(pos, maximum);
        var pruned := exists i :: 0 <= i < |path| && path[i] in bitmap;
        CoveredByPath(pos, maximum, bitmap, path);
        if pruned { prunedCache := prunedCache + {pos}; }
      }
      forall p | p > maximum ensures !Covered(p, bitmap) { CoveredBound(p, bitmap); }
    }

    method InitCaches()
      requires 0 !in bitmap && bitmap == {} ==> prunedCache == {}
      requires 0 !in bitmap && forall q :: q in leaves ==> q >= 1 && IsLeaf(q)
      requires forall p :: p >= 1 ==> (p in bitmap <==> Root(p, leaves))
      modifies this`shiftCache, this`leafShiftCache, this`prunedCache
      ensures Valid() && Fresh()
    {
      hide Root, Full, SumsOf, IsLeaf, Below, Members;
      BuildShiftCache();
      BuildLeafShiftCache();
      BuildPrunedCache();
      forall p | p >= 1 ensures p in prunedCache <==> Full(p, leaves) {
        CoveredFromRoots(bitmap, leaves, p);
      }
    }

    /** flush: writes the bitmap and rebuilds the caches; the pruned nodes come out the same. */
    method Flush()
      requires Valid()
      modifies this`shiftCache, this`leafShiftCache, this`prunedCache
      ensures Valid() && Fresh() && prunedCache == old(prunedCache)
    {
      hide Root, Full, IsLeaf, Members, SumsOf;
      if bitmap == {} { NothingPruned(prunedCache, leaves); }
      InitCaches();
      CanonicalUnique(bitmap, prunedCache, bitmap, old(prunedCache), leaves);
    }

    /** add: climbs while the sibling is pruned. */
    method Add(pos: nat)
      requires pos >= 1 && Valid()
      modifies this`bitmap, this`prunedCache, this`leaves
      ensures Added(bitmap, prunedCache, old(leaves), pos)
      ensures leaves == old(leaves) + LeavesBelow(pos)
      ensures IsLeaf(pos) ==> Valid() && leaves == old(leaves) + {pos}
    {
      hide Climbing, Added, LeavesBelow, Full, Canonical, IsLeaf, Height, Parent, Sibling;
      var current := pos;
      ghost var higher := bitmap + prunedCache;  // pruned nodes not below the height reached
      ClimbingStart(bitmap, prunedCache, leaves, pos);
      while true
        invariant current >= 1 && leaves == old(leaves) && Climbing(bitmap, prunedCache, leaves, pos, current)
        invariant forall q :: q in bitmap + prunedCache && q >= 1 && Height(q) >= Height(current) ==> q in higher
        decreases higher
      {
        var parent, sibling := ComputeFamily(current);
        Family(current);
        SiblingTest(bitmap, prunedCache, leaves, pos, current);
        if sibling in bitmap || sibling in prunedCache {
          ClimbingStep(bitmap, prunedCache, leaves, pos, current);
          prunedCache := prunedCache + {current};
          bitmap := bitmap - {sibling};
          current := parent;
          higher := higher - {sibling};
        } else {
          ClimbingEnd(bitmap, prunedCache, leaves, pos, current);
          prunedCache := prunedCache + {current};
          bitmap := bitmap + {current};
          break;
        }
      }
      leaves := leaves + LeavesBelow(pos);
      if IsLeaf(pos) {
        AddedLeafOf(bitmap, prunedCache, old(bitmap), old(prunedCache), old(leaves), pos);
      }
    }

    /** After any sequence of leaf additions the list is canonical for the set of leaves added. */
    method AddLeaves(xs: seq<nat>)
      requires Valid() && forall x :: x in xs ==> x >= 1 && IsLeaf(x)
      modifies this`bitmap, this`prunedCache, this`leaves
      ensures Valid() && leaves == old(leaves) + set x | x in xs
    {
      hide Canonical, IsLeaf, Added, LeavesBelow;
      for i := 0 to |xs|
        invariant Valid() && leaves == old(leaves) + set x | x in xs[..i]
      {
        assert xs[i] in xs;
        Add(xs[i]);
        assert xs[..i + 1] == xs[..i] + [xs[i]];
      }
      assert xs[..|xs|] == xs;
    }

    function GetTotalShift(): (n: nat)
      requires Rank(bitmap, Maximum(bitmap)) == 0 || |shiftCache| > 0
      reads this
    {
      GetShift(Maximum(bitmap))
    }

    function GetTotalLeafShift(): (n: nat)
      requires Rank(bitmap, Maximum(bitmap)) == 0 || |leafShiftCache| > 0
      reads this
    {
      GetLeafShift(Maximum(bitmap))
    }
  }

  lemma NodeShiftIs(pos: nat)
    requires pos >= 1
    ensures NodeShift(pos) == 2 * (Pow2(Height(pos)) - 1)
    ensures LeafShift(pos) == if Height(pos) == 0 then 0 else Pow2(Height(pos))
  {
    hide Height, Pow2;
  }

  lemma SumsOfNext(shift: nat -> nat, cache: seq<nat>, roots: seq<nat>, r: nat)
    requires SumsOf(shift, cache, roots)
    ensures SumsOf(shift, cache + [Total(shift, roots) + shift(r)], roots + [r])
  {
    hide Total;
    TotalStep(shift, roots, r);
    var cache', roots' := cache + [Total(shift, roots) + shift(r)], roots + [r];
    forall i | 0 <= i < |roots'| ensures cache'[i] == Total(shift, roots'[..i + 1]) {
      if i < |roots| { assert roots'[..i + 1] == roots[..i + 1]; } else { assert roots'[..i + 1] == roots'; }
    }
  }

  lemma CoveredByPath(pos: nat, maximum: nat, bitmap: set<nat>, path: seq<nat>)
    requires pos >= 1 && path == PathTo(pos, maximum)
    requires 0 !in bitmap && forall x :: x in bitmap ==> x <= maximum
    ensures Covered(pos, bitmap) <==> exists i :: 0 <= i < |path| && path[i] in bitmap
  {
    hide PathTo, Below;
    forall x | x >= 1 ensures x in path <==> x <= maximum && Below(pos, x) { PathToBelow(pos, maximum, x); }
    if Covered(pos, bitmap) {
      var r :| r in bitmap && r >= 1 && Below(pos, r);
      assert r in path;
      var i :| 0 <= i < |path| && path[i] == r;
    }
    if exists i :: 0 <= i < |path| && path[i] in bitmap {
      var i :| 0 <= i < |path| && path[i] in bitmap;
      var r := path[i];
      assert r in path && r >= 1 && Below(pos, r);
    }
  }

  lemma CoveredBound(p: nat, bitmap: set<nat>)
    requires p >= 1 && forall x :: x in bitmap ==> x < p
    ensures !Covered(p, bitmap)
  {
    hide Left;
  }

  /** What lies under the roots is what is full. */
  lemma CoveredFromRoots(bitmap: set<nat>, leaves: set<nat>, p: nat)
    requires p >= 1 && 0 !in bitmap && forall r :: r >= 1 ==> (r in bitmap <==> Root(r, leaves))
    ensures Covered(p, bitmap) <==> Full(p, leaves)
  {
    hide Root, Full, Below, IsLeaf, Maximum, MmrSize;
    if Covered(p, bitmap) {
      var r :| r in bitmap && r >= 1 && Below(p, r);
      RootIs(r, leaves);
      FullBelow(p, r, leaves);
    }
    if Full(p, leaves) {
      var n := Maximum(leaves);
      MmrSizeLeaves(n);
      MmrSizeIs(n);
      var r := RootAbove(p, leaves, MmrSize(n));
    }
  }

  lemma AddedLeafOf(bitmap: set<nat>, cache: set<nat>, bitmap0: set<nat>, cache0: set<nat>, leaves: set<nat>, pos: nat)
    requires pos >= 1 && IsLeaf(pos) && Added(bitmap, cache, leaves, pos) && Canonical(bitmap0, cache0, leaves)
    ensures LeavesBelow(pos) == {pos} && Canonical(bitmap, cache, leaves + {pos})
  {
    hide Root, Full, IsLeaf, LeavesBelow, Added;
    AddedLeaf(bitmap, cache, leaves, pos);
  }
}
