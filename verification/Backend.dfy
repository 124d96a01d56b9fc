/**
  The persistent backend of store/src/pmmr.rs.

  Its abstract value is a hash and a data slot for every position, in a current
  and in a committed version, together with the set of pruned leaves.  Reads give
  exactly the logical content of every position that is not compacted, whatever
  sequence of appends, removals, rewinds, syncs, discards and compactions led to
  the state.
 */
module Backends {
  import opened AppendOnly
  import opened BackendTheory
  import opened Bitmaps
  import opened Compaction
  import opened Gathering
  import opened LeafSets
  import opened Navigation
  import opened Postorder
  import opened PruneAdd
  import opened PruneLists
  import opened PruneShift
  import opened PruneTheory
  import opened Wrappers

  /** Deserialization fails on anything but a whole element. */
  function Deserialize(bytes: Elmt, size: nat): (r: Option<Elmt>) {
    if |bytes| == size then Some(bytes) else None
  }

  class Backend {
    const prunable: bool
    const hashFile: FixedFile
    const dataFile: FixedFile
    const leafSet: LeafSet
    const pruneList: PruneList
    /** Logical content, with what is not synced yet. */
    ghost var hashes: seq<Elmt>
    ghost var slots: seq<Elmt>
    /** Logical content at the last sync. */
    ghost var hashes0: seq<Elmt>
    ghost var slots0: seq<Elmt>

    ghost function Repr(): set<object>
    {
      {this, hashFile, dataFile, leafSet, pruneList}
    }

    ghost predicate Valid()
      reads this, hashFile, dataFile, leafSet, pruneList
    {
      && hashFile != dataFile
      && hashFile.Valid() && dataFile.Valid() && pruneList.Valid() && pruneList.Fresh()
      && View(hashFile.current, dataFile.current, hashes, slots, pruneList.leaves)
      && View(hashFile.committed, dataFile.committed, hashes0, slots0, pruneList.leaves)
      && leafSet.bitmap !! pruneList.leaves && leafSet.bitmapBak !! pruneList.leaves
    }

    ghost predicate Synced()
      reads hashFile, dataFile
    {
      hashFile.Synced() && dataFile.Synced()
    }

    lemma Parts()
      ensures Valid() <==>
                && hashFile != dataFile
                && hashFile.Valid() && dataFile.Valid() && pruneList.Valid() && pruneList.Fresh()
                && View(hashFile.current, dataFile.current, hashes, slots, pruneList.leaves)
                && View(hashFile.committed, dataFile.committed, hashes0, slots0, pruneList.leaves)
                && leafSet.bitmap !! pruneList.leaves && leafSet.bitmapBak !! pruneList.leaves
    {
      hide View;
    }

    lemma SyncedIs()
      requires Synced() && Valid()
      ensures hashFile.buffer == [] && dataFile.buffer == []
    {
      hide View;
    }

    /** The hash stored for a position: kept for everything that is not strictly below a pruned root. */
    ghost function HashAt(pos: nat): (r: Option<Elmt>)
      requires pos >= 1
      reads this, pruneList
    {
      if pos <= |hashes| && !Compacted(pos, pruneList.leaves) then Some(hashes[pos - 1]) else None
    }

    ghost function DataAt(pos: nat): (r: Option<Elmt>)
      requires pos >= 1
      reads this, pruneList
    {
      if pos <= |slots| && IsLeaf(pos) && !Compacted(pos, pruneList.leaves) then Some(slots[pos - 1]) else None
    }

    constructor (isPrunable: bool, hashSize: nat, dataSize: nat)
      requires hashSize > 0 && dataSize > 0
      ensures Valid() && Synced() && fresh(Repr())
      ensures hashes == [] && slots == [] && hashes0 == [] && slots0 == []
      ensures prunable == isPrunable && hashFile.elmtSize == hashSize && dataFile.elmtSize == dataSize
      ensures pruneList.leaves == {} && leafSet.bitmap == {} && leafSet.bitmapBak == {}
    {
      prunable := isPrunable;
      hashFile := new FixedFile(hashSize);
      dataFile := new FixedFile(dataSize);
      leafSet := new LeafSet({});
      pruneList := new PruneList();
      hashes, slots, hashes0, slots0 := [], [], [], [];
      new;
      EmptyView();
    }

    predicate IsCompacted(pos: nat)
      reads pruneList
    {
      pruneList.IsPruned(pos) && !pruneList.IsPrunedRoot(pos)
    }

    /** The two bitmaps of the prune list say which positions are compacted. */
    lemma CompactedTest(pos: nat)
      requires pos >= 1 && pruneList.Valid()
      ensures IsCompacted(pos) <==> Compacted(pos, pruneList.leaves)
    {
      hide Canonical, Compacted, Root, Full;
      CanonicalIs(pruneList.bitmap, pruneList.prunedCache, pruneList.leaves, pos);
      RootIs(pos, pruneList.leaves);
    }

    method GetFromFile(pos: nat) returns (r: Option<Elmt>)
      requires Valid() && pos >= 1
      ensures r == HashAt(pos)
    {
      hide View, Compacted, Canonical, SumsOf, Members, Rank, Gather, Kept, KeptLeaves, IsLeaf, Lookup, AllSize;
      CompactedTest(pos);
      if IsCompacted(pos) { return None; }
      ViewIs(hashFile.current, dataFile.current, hashes, slots, pruneList.leaves);
      FreshIs();
      ghost var size := |hashes|;
      if pos <= size {
        NodePlace(pruneList.bitmap, pruneList.prunedCache, pruneList.leaves, pruneList.shiftCache, size, pos);
        InKept(pos, size, pruneList.leaves);
        GatherAt(hashes, Kept(size, pruneList.leaves), size, pos);
      } else {
        BeyondRange(pruneList.bitmap, pruneList.prunedCache, pruneList.leaves, pruneList.shiftCache,
                    pruneList.leafShiftCache, size, pos);
      }
      var shift := pruneList.GetShift(pos);
      var bytes := hashFile.Read(pos - shift - 1);
      r := Deserialize(bytes, hashFile.elmtSize);
      SizeOf(hashFile, pos - shift - 1);
    }

    method GetDataFromFile(pos: nat) returns (r: Option<Elmt>)
      requires Valid() && pos >= 1
      ensures r == DataAt(pos)
    {
      hide View, Compacted, Canonical, SumsOf, Members, Rank, Gather, Kept, KeptLeaves, IsLeaf, Lookup, AllSize, LeafCount,
        Backend.Valid, FixedFile.Valid, Height;
      Parts();
      var height := PostorderHeight(pos);
      LeafIs(pos);
      if height != 0 { return None; }
      CompactedTest(pos);
      if IsCompacted(pos) { return None; }
      ViewIs(hashFile.current, dataFile.current, hashes, slots, pruneList.leaves);
      FreshIs();
      ghost var size := |hashes|;
      if pos <= size {
        LeafPlace(pruneList.bitmap, pruneList.prunedCache, pruneList.leaves, pruneList.leafShiftCache, size, pos);
        InKept(pos, size, pruneList.leaves);
        GatherAt(slots, KeptLeaves(size, pruneList.leaves), size, pos);
      } else {
        BeyondRange(pruneList.bitmap, pruneList.prunedCache, pruneList.leaves, pruneList.shiftCache,
                    pruneList.leafShiftCache, size, pos);
        LeafCountStep(pos);
        LeafCountMonotone(size, pos - 1);
      }
      var flatfilePos := NLeaves(pos);
      var shift := pruneList.GetLeafShift(pos);
      var bytes := dataFile.Read(flatfilePos - shift - 1);
      r := Deserialize(bytes, dataFile.elmtSize);
      SizeOf(dataFile, flatfilePos - shift - 1);
    }

    lemma FreshIs()
      requires pruneList.Fresh()
      ensures pruneList.bitmap == {} || SumsOf(NodeShift, pruneList.shiftCache, Members(pruneList.bitmap))
      ensures pruneList.bitmap == {} || SumsOf(LeafShift, pruneList.leafShiftCache, Members(pruneList.bitmap))
    {
      hide SumsOf, Members;
    }

    lemma SizeOf(file: FixedFile, i: nat)
      requires file.Valid()
      ensures i < |file.current| ==> |file.current[i]| == file.elmtSize
      ensures file.elmtSize > 0
    {
      hide Flatten;
    }

    /** The hash at a position: nothing for a leaf that has been removed. */
    method GetHash(pos: nat) returns (r: Option<Elmt>)
      requires Valid() && pos >= 1
      ensures r == if prunable && IsLeaf(pos) && pos !in leafSet.bitmap then None else HashAt(pos)
    {
      hide View, Compacted, Canonical, IsLeaf;
      var height := PostorderHeight(pos);
      LeafIs(pos);
      if prunable && height == 0 && !leafSet.Includes(pos) { return None; }
      r := GetFromFile(pos);
    }

    method GetData(pos: nat) returns (r: Option<Elmt>)
      requires Valid() && pos >= 1
      ensures r == if prunable && pos !in leafSet.bitmap then None else DataAt(pos)
    {
      hide View, Compacted, Canonical, IsLeaf;
      var height := PostorderHeight(pos);
      LeafIs(pos);
      if height != 0 { return None; }
      if prunable && !leafSet.Includes(pos) { return None; }
      r := GetDataFromFile(pos);
    }

    /** Number of positions, with the compacted ones; right for a synced backend. */
    /** There is a shift for every root. */
    predicate Counted()
      reads hashFile, pruneList
    {
      hashFile.elmtSize > 0 && (Rank(pruneList.bitmap, Maximum(pruneList.bitmap)) == 0 || |pruneList.shiftCache| > 0)
    }

    function UnprunedSize(): (n: nat)
      requires Counted()
      reads hashFile, pruneList
    {
      hashFile.SizeInElmts() + pruneList.GetTotalShift()
    }

    lemma UnprunedSizeIs()
      requires Valid()
      ensures Counted() && UnprunedSize() == |hashes0|
    {
      hide View, Compacted, Canonical, SumsOf, Members, Rank, Gather, Kept, KeptLeaves, IsLeaf, Lookup, AllSize;
      ViewIs(hashFile.committed, dataFile.committed, hashes0, slots0, pruneList.leaves);
      FreshIs();
      hashFile.Counts();
      TotalShifts(pruneList.bitmap, pruneList.prunedCache, pruneList.leaves, pruneList.shiftCache,
                  pruneList.leafShiftCache, |hashes0|);
    }

    /** append: the new leaf position is recovered from the size of the compacted data file. */
    method Append(data: Elmt, newHashes: seq<Elmt>)
      requires Valid() && |newHashes| >= 1
      requires |data| == dataFile.elmtSize && AllSize(newHashes, hashFile.elmtSize)
      requires IsLeaf(|hashes| + |newHashes| + 1)
      requires forall p :: |hashes| + 1 < p <= |hashes| + |newHashes| ==> !IsLeaf(p)
      modifies this`hashes, this`slots, hashFile, dataFile, leafSet`bitmap
      ensures Valid() && hashes == old(hashes) + newHashes && slots == old(slots) + NewSlots(data, |newHashes|)
      ensures leafSet.bitmap == if prunable then old(leafSet.bitmap) + {old(|hashes|) + 1} else old(leafSet.bitmap)
      ensures hashFile.committed == old(hashFile.committed) && dataFile.committed == old(dataFile.committed)
    {
      hide View, Compacted, Canonical, SumsOf, Members, Rank, Gather, Kept, KeptLeaves, IsLeaf, Lookup, LeafCount,
        NewSlots, Flatten, Backend.Valid, FixedFile.Valid;
      Parts();
      dataFile.Counts();
      ghost var before, before' := hashFile.current, dataFile.current;
      ViewIs(before, before', hashes, slots, pruneList.leaves);
      dataFile.Append(data);
      dataFile.Counts();
      var size := dataFile.SizeUnsyncInElmts();
      for i := 0 to |newHashes|
        invariant hashFile.Valid() && hashFile.current == before + newHashes[..i]
        invariant hashFile.committed == old(hashFile.committed)
        modifies hashFile`buffer, hashFile`current
      {
        assert newHashes[..i + 1] == newHashes[..i] + [newHashes[i]];
        hashFile.Append(newHashes[i]);
      }
      assert newHashes[..|newHashes|] == newHashes;
      ViewAppend(before, before', hashes, slots, pruneList.leaves, data, newHashes);
      if prunable {
        FreshIs();
        TotalShifts(pruneList.bitmap, pruneList.prunedCache, pruneList.leaves, pruneList.shiftCache,
                    pruneList.leafShiftCache, |hashes|);
        NextLeaf(|hashes|);
        var pos := LeafPos(size + pruneList.GetTotalLeafShift());
        NotPrunedYet(pruneList.leaves, |hashes|);
        leafSet.Add(pos);
      }
      hashes := hashes + newHashes;
      slots := slots + NewSlots(data, |newHashes|);
      Parts();
    }

    /** Removing a leaf takes it out of the leaf set only. */
    method Remove(pos: nat)
      requires Valid() && prunable
      modifies leafSet`bitmap
      ensures Valid() && leafSet.bitmap == old(leafSet.bitmap) - {pos}
    {
      hide View, Canonical, SumsOf;
      leafSet.Remove(pos);
    }

    /** rewind: to the end of a smaller range that still holds all pruned leaves. */
    method Rewind(position: nat, rewindRm: set<nat>)
      requires Valid() && hashFile.buffer == [] && dataFile.buffer == []
      requires position <= |hashes0| && IsLeaf(position + 1)
      requires forall x :: x in pruneList.leaves ==> x <= position
      requires rewindRm !! pruneList.leaves
      modifies this`hashes, this`slots, hashFile, dataFile, leafSet`bitmap
      ensures |slots0| == |hashes0|
      ensures Valid() && hashes == hashes0[..position] && slots == slots0[..position]
      ensures hashFile.buffer == [] && dataFile.buffer == []
      ensures hashFile.committed == old(hashFile.committed) && dataFile.committed == old(dataFile.committed)
      ensures prunable ==> forall x :: x in leafSet.bitmap <==> (x in old(leafSet.bitmap) && x <= position) || x in rewindRm
      ensures !prunable ==> leafSet.bitmap == old(leafSet.bitmap)
    {
      hide View, Compacted, Canonical, SumsOf, Members, Rank, Gather, Kept, KeptLeaves, IsLeaf, Lookup, LeafCount, Flatten,
        AllSize, Backend.Valid, FixedFile.Valid;
      Parts();
      if prunable {
        leafSet.Rewind(position, rewindRm);
      }
      ViewIs(hashFile.committed, dataFile.committed, hashes0, slots0, pruneList.leaves);
      ViewPrefix(hashFile.committed, dataFile.committed, hashes0, slots0, pruneList.leaves, position);
      FreshIs();
      RewindPlaces(pruneList.bitmap, pruneList.prunedCache, pruneList.leaves, pruneList.shiftCache,
                   pruneList.leafShiftCache, position);
      var shift := pruneList.GetShift(position);
      hashFile.Rewind(position - shift);
      var flatfilePos := NLeaves(position);
      var leafShift := pruneList.GetLeafShift(position);
      dataFile.Rewind(flatfilePos - leafShift);
      hashes, slots := hashes0[..position], slots0[..position];
      Parts();
    }

    method Sync()
      requires Valid()
      modifies this`hashes0, this`slots0, hashFile, dataFile, leafSet`bitmapBak
      ensures Valid() && Synced() && hashes0 == hashes && slots0 == slots
      ensures prunable ==> leafSet.bitmapBak == leafSet.bitmap
      ensures !prunable ==> leafSet.bitmapBak == old(leafSet.bitmapBak)
      ensures hashFile.current == old(hashFile.current) && dataFile.current == old(dataFile.current)
    {
      hide View, Compacted, Canonical, SumsOf, Members;
      hashFile.Flush();
      dataFile.Flush();
      if prunable { leafSet.Flush(); }
      hashes0, slots0 := hashes, slots;
    }

    /** Everything since the last sync is undone. */
    method Discard()
      requires Valid()
      modifies this`hashes, this`slots, hashFile, dataFile, leafSet`bitmap
      ensures Valid() && Synced() && hashes == hashes0 && slots == slots0 && leafSet.bitmap == leafSet.bitmapBak
      ensures hashFile.committed == old(hashFile.committed) && dataFile.committed == old(dataFile.committed)
    {
      hide View, Compacted, Canonical, SumsOf, Members;
      hashFile.Discard();
      dataFile.Discard();
      leafSet.Discard();
      hashes, slots := hashes0, slots0;
    }

    /** The shifted places, counted from 0, of positions that are in the hash file. */
    method HashPlaces(rm: set<nat>) returns (drop: seq<nat>)
      requires Valid() && rm <= Kept(|hashes|, pruneList.leaves)
      ensures PlacesOf(drop, Kept(|hashes|, pruneList.leaves), rm)
    {
      hide View, Compacted, Canonical, SumsOf, Members, Rank, Gather, Kept, KeptLeaves, IsLeaf, Lookup;
      var xs := Members(rm);
      drop := [];
      FreshIs();
      for i := 0 to |xs|
        invariant |drop| == i && forall j :: 0 <= j < i ==> drop[j] + 1 == Rank(Kept(|hashes|, pruneList.leaves), xs[j])
      {
        MembersPlace(rm, i);
        KeptIs(xs[i], |hashes|, pruneList.leaves);
        NodePlace(pruneList.bitmap, pruneList.prunedCache, pruneList.leaves, pruneList.shiftCache, |hashes|, xs[i]);
        RankPositive(Kept(|hashes|, pruneList.leaves), xs[i]);
        var shift := pruneList.GetShift(xs[i]);
        drop := drop + [xs[i] - shift - 1];
      }
    }

    method DataPlaces(rm: set<nat>) returns (drop: seq<nat>)
      requires Valid() && rm <= KeptLeaves(|hashes|, pruneList.leaves)
      ensures PlacesOf(drop, KeptLeaves(|hashes|, pruneList.leaves), rm)
    {
      hide View, Compacted, Canonical, SumsOf, Members, Rank, Gather, Kept, KeptLeaves, IsLeaf, Lookup, LeafCount;
      var xs := Members(rm);
      drop := [];
      FreshIs();
      for i := 0 to |xs|
        invariant |drop| == i && forall j :: 0 <= j < i ==> drop[j] + 1 == Rank(KeptLeaves(|hashes|, pruneList.leaves), xs[j])
      {
        MembersPlace(rm, i);
        KeptIs(xs[i], |hashes|, pruneList.leaves);
        LeafPlace(pruneList.bitmap, pruneList.prunedCache, pruneList.leaves, pruneList.leafShiftCache, |hashes|, xs[i]);
        RankPositive(KeptLeaves(|hashes|, pruneList.leaves), xs[i]);
        var flatPos := NLeaves(xs[i]);
        var shift := pruneList.GetLeafShift(xs[i]);
        drop := drop + [flatPos - shift - 1];
      }
    }

    /** check_compact: removes what lies strictly below the roots of the leaves spent at the cutoff. */
    method CheckCompact(cutoff: nat, rewindRm: set<nat>)
      requires Valid() && Synced() && prunable && cutoff <= |hashes|
      modifies this`hashes0, this`slots0, hashFile, dataFile, leafSet`bitmapBak, pruneList
      ensures Valid() && Synced() && hashes == old(hashes) && slots == old(slots) && leafSet.bitmap == old(leafSet.bitmap)
      ensures hashes0 == hashes && slots0 == slots && leafSet.bitmapBak == leafSet.bitmap
      ensures Counted() && old(Counted()) && UnprunedSize() == old(UnprunedSize())
      ensures forall x :: x in pruneList.leaves <==>
                (x in old(pruneList.leaves) || (1 <= x <= cutoff && IsLeaf(x) && x !in leafSet.bitmap && x !in rewindRm))
    {
      hide *;
      SameSize();
      UnprunedSizeIs();
      CompactFiles(cutoff, rewindRm);
      UnprunedSizeIs();
    }

    /** In the files, nothing has been rewound or appended since the last sync. */
    lemma SameSize()
      requires Valid() && Synced()
      ensures |hashes0| == |hashes|
    {
      hide View, Compacted, Canonical, SumsOf, Members, Rank, Gather, Kept, KeptLeaves, IsLeaf, Lookup, AllSize, LeafCount, Flatten,
        Backend.Valid, FixedFile.Valid;
      Parts();
      hashFile.SyncedIs();
      ViewIs(hashFile.current, dataFile.current, hashes, slots, pruneList.leaves);
      ViewIs(hashFile.committed, dataFile.committed, hashes0, slots0, pruneList.leaves);
      FreshIs();
      TotalShifts(pruneList.bitmap, pruneList.prunedCache, pruneList.leaves, pruneList.shiftCache, pruneList.leafShiftCache, |hashes0|);
      TotalShifts(pruneList.bitmap, pruneList.prunedCache, pruneList.leaves, pruneList.shiftCache, pruneList.leafShiftCache, |hashes|);
    }

    /** The files without what is pruned at the cutoff. */
    method CompactFiles(cutoff: nat, rewindRm: set<nat>)
      requires Valid() && Synced() && prunable && cutoff <= |hashes|
      modifies this`hashes0, this`slots0, hashFile, dataFile, leafSet`bitmapBak, pruneList
      ensures Valid() && Synced() && hashes == old(hashes) && slots == old(slots) && leafSet.bitmap == old(leafSet.bitmap)
      ensures hashes0 == hashes && slots0 == slots && leafSet.bitmapBak == leafSet.bitmap
      ensures forall x :: x in pruneList.leaves <==>
                (x in old(pruneList.leaves) || (1 <= x <= cutoff && IsLeaf(x) && x !in leafSet.bitmap && x !in rewindRm))
    {
      hide View, Compacted, Canonical, SumsOf, Members, Rank, Gather, Kept, KeptLeaves, IsLeaf, Lookup, LeafCount,
        Flatten, Without, PlacesOf, LeavesBelow, Added, Full, Root, AllSize, Ordered, Backend.Valid, FixedFile.Valid;
      Parts();
      ghost var leaves := pruneList.leaves;
      ViewIs(hashFile.current, dataFile.current, hashes, slots, leaves);
      var leavesRemoved := leafSet.RemovedPreCutoff(cutoff, rewindRm, pruneList.prunedCache);
      PrunedLeaves(pruneList.bitmap, pruneList.prunedCache, leaves);
      ghost var leaves' := leaves + leavesRemoved;
      var posToRm := PosToRm(pruneList.bitmap, leavesRemoved, pruneList.prunedCache, leaves, |hashes|);
      var leafPosToRm := set x | x in posToRm && IsLeaf(x);
      RmKept(leaves, leaves', posToRm, leafPosToRm, |hashes|);

      var hashDrop := HashPlaces(posToRm);
      var dataDrop := DataPlaces(leafPosToRm);
      PlacesOrdered(hashDrop, Kept(|hashes|, leaves), posToRm);
      PlacesOrdered(dataDrop, KeptLeaves(|hashes|, leaves), leafPosToRm);
      hashFile.SyncedIs();
      dataFile.SyncedIs();
      ViewCompact(hashFile.current, dataFile.current, hashes, slots, leaves, leaves', posToRm, leafPosToRm, hashDrop, dataDrop);
      hashFile.SavePrune(hashDrop);
      dataFile.SavePrune(dataDrop);

      var xs := Members(leavesRemoved);
      MembersSeq(leavesRemoved);
      pruneList.AddLeaves(xs);
      pruneList.Flush();
      leafSet.Flush();
      hashes0, slots0 := hashes, slots;
      assert pruneList.leaves == leaves';
      Parts();
    }

    /** Compaction leaves the hash and the data of every leaf in the leaf set readable. */
    lemma LeafSetReadable(pos: nat)
      requires Valid() && pos in leafSet.bitmap && 1 <= pos <= |hashes| && IsLeaf(pos)
      ensures |slots| == |hashes| && HashAt(pos) == Some(hashes[pos - 1]) && DataAt(pos) == Some(slots[pos - 1])
    {
      hide View, Compacted, Canonical, IsLeaf, Full;
      ViewIs(hashFile.current, dataFile.current, hashes, slots, pruneList.leaves);
      RootIs(pos, pruneList.leaves);
      FullLeaf(pos, pruneList.leaves);
    }
  }

  lemma EmptyView()
    ensures View([], [], [], [], {})
  {
    hide Kept, KeptLeaves;
    HeightAny(0, 1);
    HeightRoot(0);
  }

  lemma NextLeaf(size: nat)
    requires IsLeaf(size + 1)
    ensures LeafPos(LeafCount(size) + 1) == size + 1
  {
    hide *;
    LeafPosInverse(size + 1);
    LeafCountStep(size + 1);
  }

  lemma NotPrunedYet(leaves: set<nat>, size: nat)
    requires forall x :: x in leaves ==> x <= size
    ensures size + 1 !in leaves
  {}

  /** The shifts at the end of a range are what is removed inside it. */
  lemma RewindPlaces(bitmap: set<nat>, cache: set<nat>, leaves: set<nat>, shiftCache: seq<nat>, leafShiftCache: seq<nat>, size: nat)
    requires Canonical(bitmap, cache, leaves)
    requires bitmap == {} || SumsOf(NodeShift, shiftCache, Members(bitmap))
    requires bitmap == {} || SumsOf(LeafShift, leafShiftCache, Members(bitmap))
    requires IsLeaf(size + 1) && forall x :: x in leaves ==> x <= size
    ensures Rank(bitmap, size) == 0 || (|shiftCache| > 0 && |leafShiftCache| > 0)
    ensures size - Lookup(bitmap, shiftCache, size) == Rank(Kept(size, leaves), size)
    ensures LeafCount(size) - Lookup(bitmap, leafShiftCache, size) == Rank(KeptLeaves(size, leaves), size)
  {
    hide *;
    if Maximum(bitmap) > 0 { RootInRange(Maximum(bitmap), bitmap, cache, leaves, size); }
    TotalCounts(bitmap, cache, leaves, size, size);
    LookupAll(NodeShift, bitmap, shiftCache, size);
    LookupAll(LeafShift, bitmap, leafShiftCache, size);
    KeptSplit(size, leaves, size);
    KeptLeavesSplit(size, leaves, size);
  }

  lemma KeptIs(p: nat, size: nat, leaves: set<nat>)
    requires p in Kept(size, leaves) || p in KeptLeaves(size, leaves)
    ensures 1 <= p <= size && !Compacted(p, leaves)
  {
    hide Compacted, IsLeaf;
  }

  lemma RankPositive(kept: set<nat>, p: nat)
    requires p in kept
    ensures Rank(kept, p) >= 1
  {
    AscendingAt(kept, p + 1, p);
  }

  /** A leaf is pruned exactly when it was added. */
  lemma PrunedLeaves(bitmap: set<nat>, cache: set<nat>, leaves: set<nat>)
    requires Canonical(bitmap, cache, leaves)
    ensures forall x :: x >= 1 && IsLeaf(x) ==> (x in cache <==> x in leaves)
  {
    hide IsLeaf, Full, Root, Canonical;
    forall x | x >= 1 && IsLeaf(x) ensures x in cache <==> x in leaves {
      CanonicalIs(bitmap, cache, leaves, x);
      FullLeaf(x, leaves);
    }
  }

  lemma MembersSeq(s: set<nat>)
    ensures forall x :: x in Members(s) <==> x in s
    ensures (set x | x in Members(s)) == s
  {
    hide Ascending, Maximum;
    forall x: nat ensures x in Members(s) <==> x in s { AscendingMember(s, Maximum(s) + 1, x); }
  }
}
