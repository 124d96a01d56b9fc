/**
  What the files of a prunable backend hold, and where it is found.

  The logical content is a hash and a data slot for every position of a range of
  complete mountains.  The hash file keeps the positions that are not compacted,
  the data file the leaves among them.
 */
module BackendTheory {
  import opened AppendOnly
  import opened Bitmaps
  import opened Gathering
  import opened Navigation
  import opened Postorder
  import opened PruneAdd
  import opened PruneLists
  import opened PruneShift
  import opened PruneTheory

  /** The files hold what is kept of the logical content. */
  ghost predicate View(hashFile: seq<Elmt>, dataFile: seq<Elmt>, hashes: seq<Elmt>, slots: seq<Elmt>, leaves: set<nat>)
  {
    && |slots| == |hashes| && IsLeaf(|hashes| + 1)
    && (forall x :: x in leaves ==> x <= |hashes|)
    && hashFile == Gather(hashes, Kept(|hashes|, leaves), |hashes|)
    && dataFile == Gather(slots, KeptLeaves(|hashes|, leaves), |hashes|)
  }

  lemma CompactedInside(p: nat, leaves: set<nat>, size: nat)
    requires p >= 1 && Compacted(p, leaves) && IsLeaf(size + 1) && forall x :: x in leaves ==> x <= size
    ensures p < size && Parent(p) <= size
  {
    hide *;
    RootIs(p, leaves);
    FullInside(Parent(p), leaves, size);
  }

  lemma RootInRange(r: nat, bitmap: set<nat>, cache: set<nat>, leaves: set<nat>, size: nat)
    requires Canonical(bitmap, cache, leaves) && r in bitmap
    requires IsLeaf(size + 1) && forall x :: x in leaves ==> x <= size
    ensures 1 <= r <= size && !Compacted(r, leaves)
  {
    hide *;
    CanonicalIs(bitmap, cache, leaves, if r == 0 then 1 else r);
    RootIs(r, leaves);
    FullInside(r, leaves, size);
  }

  lemma NothingBehindRoots(x: nat, bitmap: set<nat>, cache: set<nat>, leaves: set<nat>, size: nat)
    requires Canonical(bitmap, cache, leaves) && x > Maximum(bitmap)
    requires IsLeaf(size + 1) && forall y :: y in leaves ==> y <= size
    ensures !Compacted(x, leaves)
  {
    hide *;
    RootIs(x, leaves);
    if Compacted(x, leaves) {
      var r := RootAbove(x, leaves, size);
      CanonicalIs(bitmap, cache, leaves, r);
      BelowIs(x, r);
    }
  }

  /** Beyond the last root the shifts count everything that is removed. */
  lemma TotalCounts(bitmap: set<nat>, cache: set<nat>, leaves: set<nat>, size: nat, p: nat)
    requires Canonical(bitmap, cache, leaves) && p >= Maximum(bitmap)
    requires IsLeaf(size + 1) && forall x :: x in leaves ==> x <= size
    ensures Total(NodeShift, Ascending(bitmap, p + 1)) == |Ascending(Removed(size, leaves), size + 1)|
    ensures Total(LeafShift, Ascending(bitmap, p + 1)) == |Ascending(RemovedLeaves(size, leaves), size + 1)|
  {
    hide *;
    var m := Maximum(bitmap);
    AscendingGap(bitmap, m + 1, p + 1);
    if m >= 1 { RootInRange(m, bitmap, cache, leaves, size); }
    NodeShiftCounts(bitmap, cache, leaves, size, m);
    LeafShiftCounts(bitmap, cache, leaves, size, m);
    forall x | m + 1 <= x < size + 1 ensures x !in Removed(size, leaves) && x !in RemovedLeaves(size, leaves) {
      NothingBehindRoots(x, bitmap, cache, leaves, size);
      InKept(x, size, leaves);
    }
    AscendingGap(Removed(size, leaves), m + 1, size + 1);
    AscendingGap(RemovedLeaves(size, leaves), m + 1, size + 1);
  }

  /** The place that the shift gives is the rank of the position. */
  lemma NodePlace(bitmap: set<nat>, cache: set<nat>, leaves: set<nat>, shiftCache: seq<nat>, size: nat, p: nat)
    requires Canonical(bitmap, cache, leaves) && 1 <= p <= size && !Compacted(p, leaves)
    requires bitmap == {} || SumsOf(NodeShift, shiftCache, Members(bitmap))
    ensures Rank(bitmap, p) == 0 || |shiftCache| > 0
    ensures p - Lookup(bitmap, shiftCache, p) == Rank(Kept(size, leaves), p)
  {
    hide *;
    LookupAll(NodeShift, bitmap, shiftCache, p);
    NodeShiftIsRank(bitmap, cache, leaves, size, p);
  }

  lemma LeafPlace(bitmap: set<nat>, cache: set<nat>, leaves: set<nat>, shiftCache: seq<nat>, size: nat, p: nat)
    requires Canonical(bitmap, cache, leaves) && 1 <= p <= size && !Compacted(p, leaves)
    requires bitmap == {} || SumsOf(LeafShift, shiftCache, Members(bitmap))
    ensures Rank(bitmap, p) == 0 || |shiftCache| > 0
    ensures LeafCount(p) - Lookup(bitmap, shiftCache, p) == Rank(KeptLeaves(size, leaves), p)
  {
    hide *;
    LookupAll(LeafShift, bitmap, shiftCache, p);
    LeafShiftIsRank(bitmap, cache, leaves, size, p);
  }

  /** Positions beyond the range are not compacted and their place is beyond the files. */
  lemma BeyondRange(bitmap: set<nat>, cache: set<nat>, leaves: set<nat>, shiftCache: seq<nat>, leafShiftCache: seq<nat>,
                    size: nat, p: nat)
    requires Canonical(bitmap, cache, leaves) && p > size
    requires bitmap == {} || SumsOf(NodeShift, shiftCache, Members(bitmap))
    requires bitmap == {} || SumsOf(LeafShift, leafShiftCache, Members(bitmap))
    requires IsLeaf(size + 1) && forall x :: x in leaves ==> x <= size
    ensures !Compacted(p, leaves)
    ensures Rank(bitmap, p) == 0 || (|shiftCache| > 0 && |leafShiftCache| > 0)
    ensures p - Lookup(bitmap, shiftCache, p) == p - size + Rank(Kept(size, leaves), size)
    ensures LeafCount(p) - Lookup(bitmap, leafShiftCache, p) == LeafCount(p) - LeafCount(size) + Rank(KeptLeaves(size, leaves), size)
  {
    hide *;
    if Maximum(bitmap) > 0 { RootInRange(Maximum(bitmap), bitmap, cache, leaves, size); }
    NothingBehindRoots(p, bitmap, cache, leaves, size);
    TotalCounts(bitmap, cache, leaves, size, p);
    LookupAll(NodeShift, bitmap, shiftCache, p);
    LookupAll(LeafShift, bitmap, leafShiftCache, p);
    KeptSplit(size, leaves, size);
    KeptLeavesSplit(size, leaves, size);
  }

  /** The shift for new entries counts everything that is removed. */
  lemma TotalShifts(bitmap: set<nat>, cache: set<nat>, leaves: set<nat>, shiftCache: seq<nat>, leafShiftCache: seq<nat>, size: nat)
    requires Canonical(bitmap, cache, leaves)
    requires bitmap == {} || SumsOf(NodeShift, shiftCache, Members(bitmap))
    requires bitmap == {} || SumsOf(LeafShift, leafShiftCache, Members(bitmap))
    requires IsLeaf(size + 1) && forall x :: x in leaves ==> x <= size
    ensures Rank(bitmap, Maximum(bitmap)) == 0 || (|shiftCache| > 0 && |leafShiftCache| > 0)
    ensures Lookup(bitmap, shiftCache, Maximum(bitmap)) + Rank(Kept(size, leaves), size) == size
    ensures Lookup(bitmap, leafShiftCache, Maximum(bitmap)) + Rank(KeptLeaves(size, leaves), size) == LeafCount(size)
  {
    hide *;
    TotalCounts(bitmap, cache, leaves, size, Maximum(bitmap));
    LookupAll(NodeShift, bitmap, shiftCache, Maximum(bitmap));
    LookupAll(LeafShift, bitmap, leafShiftCache, Maximum(bitmap));
    KeptSplit(size, leaves, size);
    KeptLeavesSplit(size, leaves, size);
  }

  lemma ViewIs(hashFile: seq<Elmt>, dataFile: seq<Elmt>, hashes: seq<Elmt>, slots: seq<Elmt>, leaves: set<nat>)
    requires View(hashFile, dataFile, hashes, slots, leaves)
    ensures |slots| == |hashes| && IsLeaf(|hashes| + 1) && (forall x :: x in leaves ==> x <= |hashes|)
    ensures hashFile == Gather(hashes, Kept(|hashes|, leaves), |hashes|)
    ensures dataFile == Gather(slots, KeptLeaves(|hashes|, leaves), |hashes|)
    ensures |hashFile| == Rank(Kept(|hashes|, leaves), |hashes|)
    ensures |dataFile| == Rank(KeptLeaves(|hashes|, leaves), |hashes|)
  {
    hide Gather, IsLeaf, Kept, KeptLeaves, Rank;
    InKept(1, |hashes|, leaves);
    GatherLength(hashes, Kept(|hashes|, leaves), |hashes|);
    GatherLength(slots, KeptLeaves(|hashes|, leaves), |hashes|);
  }

  /** Cutting both files at the shifted end of a smaller range gives the view of that range. */
  lemma ViewPrefix(hashFile: seq<Elmt>, dataFile: seq<Elmt>, hashes: seq<Elmt>, slots: seq<Elmt>, leaves: set<nat>, size: nat)
    requires View(hashFile, dataFile, hashes, slots, leaves)
    requires size <= |hashes| && IsLeaf(size + 1) && forall x :: x in leaves ==> x <= size
    ensures |slots| == |hashes|
    ensures Rank(Kept(size, leaves), size) <= |hashFile| && Rank(KeptLeaves(size, leaves), size) <= |dataFile|
    ensures View(hashFile[..Rank(Kept(size, leaves), size)], dataFile[..Rank(KeptLeaves(size, leaves), size)],
                 hashes[..size], slots[..size], leaves)
  {
    hide Gather, IsLeaf, Kept, KeptLeaves, Rank;
    var n := |hashes|;
    ViewIs(hashFile, dataFile, hashes, slots, leaves);
    GatherPrefix(hashes, Kept(n, leaves), size, n);
    GatherPrefix(slots, KeptLeaves(n, leaves), size, n);
    forall p | 1 <= p <= size
      ensures p in Kept(size, leaves) <==> p in Kept(n, leaves)
      ensures p in KeptLeaves(size, leaves) <==> p in KeptLeaves(n, leaves)
    {
      InKept(p, size, leaves);
      InKept(p, n, leaves);
    }
    InKept(1, size, leaves);
    GatherSame(hashes, Kept(n, leaves), hashes[..size], Kept(size, leaves), size);
    GatherSame(slots, KeptLeaves(n, leaves), slots[..size], KeptLeaves(size, leaves), size);
    GatherLength(hashes[..size], Kept(size, leaves), size);
    GatherLength(slots[..size], KeptLeaves(size, leaves), size);
  }

  /** The slots of an appended leaf and of the parents it completes. */
  ghost function NewSlots(data: Elmt, n: nat): (r: seq<Elmt>)
    requires n >= 1
    ensures |r| == n && r[0] == data
  {
    [data] + seq(n - 1, i => [])
  }

  /** Appending one leaf and the parents it completes. */
  lemma ViewAppend(hashFile: seq<Elmt>, dataFile: seq<Elmt>, hashes: seq<Elmt>, slots: seq<Elmt>, leaves: set<nat>,
                   data: Elmt, more: seq<Elmt>)
    requires View(hashFile, dataFile, hashes, slots, leaves) && |more| >= 1
    requires IsLeaf(|hashes| + |more| + 1)
    requires forall p :: |hashes| + 1 < p <= |hashes| + |more| ==> !IsLeaf(p)
    ensures View(hashFile + more, dataFile + [data], hashes + more, slots + NewSlots(data, |more|), leaves)
  {
    hide Gather, IsLeaf, Kept, KeptLeaves, Compacted, NewSlots;
    var n, n' := |hashes|, |hashes| + |more|;
    var hashes', slots' := hashes + more, slots + NewSlots(data, |more|);
    ViewIs(hashFile, dataFile, hashes, slots, leaves);
    forall p | p >= 1
      ensures p <= n ==> (p in Kept(n', leaves) <==> p in Kept(n, leaves))
      ensures p <= n ==> (p in KeptLeaves(n', leaves) <==> p in KeptLeaves(n, leaves))
      ensures n < p <= n' ==> p in Kept(n', leaves)
      ensures n < p <= n' ==> (p in KeptLeaves(n', leaves) <==> p == n + 1)
    {
      InKept(p, n, leaves);
      InKept(p, n', leaves);
      if p > n && Compacted(p, leaves) { CompactedInside(p, leaves, n); }
    }
    GatherSame(hashes, Kept(n, leaves), hashes', Kept(n', leaves), n);
    GatherSame(slots, KeptLeaves(n, leaves), slots', KeptLeaves(n', leaves), n);
    GatherMore(hashes', Kept(n', leaves), n, n');
    GatherMore(slots', KeptLeaves(n', leaves), n, n + 1);
    GatherGap(slots', KeptLeaves(n', leaves), n + 1, n');
    assert hashes'[n..n'] == more;
    assert slots'[n..n + 1] == [data];
  }

  /** The file places, counted from 0, of some positions. */
  ghost predicate PlacesOf(drop: seq<nat>, kept: set<nat>, positions: set<nat>) {
    && |drop| == |Members(positions)|
    && forall i :: 0 <= i < |drop| ==> drop[i] + 1 == Rank(kept, Members(positions)[i])
  }

  lemma PlacesOrdered(drop: seq<nat>, kept: set<nat>, positions: set<nat>)
    requires PlacesOf(drop, kept, positions) && positions <= kept
    ensures Ordered(drop)
  {
    hide Ascending, Rank, Maximum;
    forall i, j | 0 <= i < j < |drop| ensures drop[i] < drop[j] {
      AscendingSorted(positions, Maximum(positions) + 1, i, j);
      AscendingPlace(positions, Maximum(positions) + 1, j);
      RankIncreases(kept, Members(positions)[i], Members(positions)[j]);
    }
  }

  /** A kept position is dropped exactly when it is listed. */
  lemma PlacesDrop(drop: seq<nat>, kept: set<nat>, positions: set<nat>, p: nat)
    requires PlacesOf(drop, kept, positions) && positions <= kept && p in kept
    ensures p in positions <==> Rank(kept, p) - 1 in drop
  {
    hide Ascending, Rank, Maximum;
    var xs := Members(positions);
    AscendingMember(positions, Maximum(positions) + 1, p);
    if p in positions {
      var i :| 0 <= i < |xs| && xs[i] == p;
      assert drop[i] == Rank(kept, p) - 1;
    }
    if Rank(kept, p) - 1 in drop {
      var i :| 0 <= i < |drop| && drop[i] == Rank(kept, p) - 1;
      var q := xs[i];
      AscendingPlace(positions, Maximum(positions) + 1, i);
      if q < p { RankIncreases(kept, q, p); }
      if p < q { RankIncreases(kept, p, q); }
    }
  }

  /** Dropping the places of what becomes compacted gives the view for more pruned leaves. */
  lemma ViewCompact(hashFile: seq<Elmt>, dataFile: seq<Elmt>, hashes: seq<Elmt>, slots: seq<Elmt>,
                    leaves: set<nat>, leaves': set<nat>, rm: set<nat>, rmLeaves: set<nat>,
                    drop: seq<nat>, dropLeaves: seq<nat>)
    requires View(hashFile, dataFile, hashes, slots, leaves) && leaves <= leaves'
    requires forall x :: x in leaves' ==> x <= |hashes|
    requires forall q :: q in rm <==> q >= 1 && Compacted(q, leaves') && !Compacted(q, leaves)
    requires forall q :: q in rmLeaves <==> q in rm && IsLeaf(q)
    requires PlacesOf(drop, Kept(|hashes|, leaves), rm)
    requires PlacesOf(dropLeaves, KeptLeaves(|hashes|, leaves), rmLeaves)
    ensures View(Without(hashFile, drop), Without(dataFile, dropLeaves), hashes, slots, leaves')
  {
    hide Gather, IsLeaf, Kept, KeptLeaves, Compacted, Without, Rank, PlacesOf;
    var n := |hashes|;
    ViewIs(hashFile, dataFile, hashes, slots, leaves);
    RmKept(leaves, leaves', rm, rmLeaves, n);
    InKept(1, n, leaves);
    InKept(1, n, leaves');
    forall p: nat
      ensures p in Kept(n, leaves') ==> p in Kept(n, leaves)
      ensures p in KeptLeaves(n, leaves') ==> p in KeptLeaves(n, leaves)
      ensures p in Kept(n, leaves) ==> (p in Kept(n, leaves') <==> Rank(Kept(n, leaves), p) - 1 !in drop)
      ensures p in KeptLeaves(n, leaves) ==>
                (p in KeptLeaves(n, leaves') <==> Rank(KeptLeaves(n, leaves), p) - 1 !in dropLeaves)
    {
      if p >= 1 {
        InKept(p, n, leaves);
        InKept(p, n, leaves');
        CompactedGrows(p, leaves, leaves');
        if p in Kept(n, leaves) { PlacesDrop(drop, Kept(n, leaves), rm, p); }
        if p in KeptLeaves(n, leaves) { PlacesDrop(dropLeaves, KeptLeaves(n, leaves), rmLeaves, p); }
      }
    }
    GatherWithout(hashes, Kept(n, leaves), Kept(n, leaves'), drop, n);
    GatherWithout(slots, KeptLeaves(n, leaves), KeptLeaves(n, leaves'), dropLeaves, n);
  }

  lemma CompactedGrows(p: nat, leaves: set<nat>, leaves': set<nat>)
    requires p >= 1 && leaves <= leaves'
    ensures Compacted(p, leaves) ==> Compacted(p, leaves')
  {
    hide Full, Parent;
    FullMonotone(Parent(p), leaves, leaves');
  }

  /** What is removed was in the files. */
  lemma RmKept(leaves: set<nat>, leaves': set<nat>, rm: set<nat>, rmLeaves: set<nat>, size: nat)
    requires IsLeaf(size + 1) && forall x :: x in leaves' ==> x <= size
    requires forall q :: q in rm <==> q >= 1 && Compacted(q, leaves') && !Compacted(q, leaves)
    requires forall q :: q in rmLeaves <==> q in rm && IsLeaf(q)
    ensures rm <= Kept(size, leaves) && rmLeaves <= KeptLeaves(size, leaves)
  {
    hide IsLeaf, Kept, KeptLeaves, Compacted;
    forall q | q in rm ensures q in Kept(size, leaves) && (IsLeaf(q) ==> q in KeptLeaves(size, leaves)) {
      CompactedInside(q, leaves', size);
      InKept(q, size, leaves);
    }
  }
}
