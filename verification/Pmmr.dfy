/**
  The prunable Merkle Mountain Range of core/src/core/pmmr/pmmr.rs over a backend.

  Pushing an element hashes it with the peaks before it.  Those peaks are never
  compacted, so pushing never fails, and every stored hash is the Merkle hash of
  the elements pushed, whatever has been pruned, compacted or rewound meanwhile.
 */
module Pmmrs {
  import opened AppendOnly
  import opened Backends
  import opened BackendTheory
  import opened Bitmaps
  import opened Navigation
  import opened Postorder
  import opened PruneAdd
  import opened PruneTheory
  import opened Wrappers

  datatype Result<+T> = Ok(value: T) | Err

  /** The hash functions: of an element and of two child hashes, both salted with the position. */
  datatype Hasher = Hasher(leaf: (Elmt, nat) -> Elmt, node: (Elmt, Elmt, nat) -> Elmt)

  ghost predicate HashSize(h: Hasher, size: nat) {
    && (forall e: Elmt, i: nat :: |h.leaf(e, i)| == size)
    && (forall a: Elmt, b: Elmt, i: nat :: |h.node(a, b, i)| == size)
  }

  /** The hash that belongs at a position, given the hashes before it. */
  ghost predicate HashedAt(h: Hasher, hashes: seq<Elmt>, slots: seq<Elmt>, p: nat)
    requires 1 <= p <= |hashes| && |slots| == |hashes|
  {
    if IsLeaf(p) then hashes[p - 1] == h.leaf(slots[p - 1], p - 1)
    else
      && p >= 2 && 1 <= Sibling(p - 1) < p
      && hashes[p - 1] == h.node(hashes[Sibling(p - 1) - 1], hashes[p - 2], p - 1)
  }

  /** Every hash is the Merkle hash of what lies below it. */
  ghost predicate Merkle(h: Hasher, hashes: seq<Elmt>, slots: seq<Elmt>) {
    |slots| == |hashes| && forall p :: 1 <= p <= |hashes| ==> HashedAt(h, hashes, slots, p)
  }

  /** The elements determine all hashes. */
  lemma {:induction false} MerkleUnique(h: Hasher, a: seq<Elmt>, b: seq<Elmt>, slots: seq<Elmt>, n: nat)
    requires Merkle(h, a, slots) && Merkle(h, b, slots) && n <= |slots|
    ensures a[..n] == b[..n]
  {
    hide IsLeaf, Sibling;
    if n > 0 {
      MerkleUnique(h, a, b, slots, n - 1);
      assert HashedAt(h, a, slots, n) && HashedAt(h, b, slots, n);
      assert forall i :: 0 <= i < n - 1 ==> a[i] == a[..n - 1][i] == b[..n - 1][i] == b[i];
      assert a[..n] == a[..n - 1] + [a[n - 1]] && b[..n] == b[..n - 1] + [b[n - 1]];
    }
  }

  lemma MerklePrefix(h: Hasher, hashes: seq<Elmt>, slots: seq<Elmt>, n: nat)
    requires Merkle(h, hashes, slots) && n <= |hashes|
    ensures |slots| == |hashes| && Merkle(h, hashes[..n], slots[..n])
  {
    hide IsLeaf, Sibling;
    forall p | 1 <= p <= n ensures HashedAt(h, hashes[..n], slots[..n], p) {
      assert HashedAt(h, hashes, slots, p);
    }
  }

  /** A subtree starts with a leaf. */
  lemma {:induction false} LeftIsLeaf(p: nat)
    requires p >= 1
    ensures IsLeaf(Left(p))
    decreases p
  {
    hide *;
    LeafIs(p);
    if Height(p) > 0 {
      RightChild(p);
      Family(p - 1);
      LeftIsLeaf(Sibling(p - 1));
    }
  }

  lemma {:induction false} BitAtBound(bits: nat, j: nat)
    requires BitAt(bits, j)
    ensures j < BitLen(bits)
  {
    if j > 0 { BitAtBound(bits / 2, j - 1); }
  }

  // ----- peaks -----

  /** The peaks of a range of the given size, inside a perfect tree of height b. */
  function PeaksIn(b: nat, size: nat): (r: seq<nat>) {
    if b == 0 then []
    else if size >= Size(b - 1) then [Size(b - 1)] + Shifted(PeaksIn(b - 1, size - Size(b - 1)), Size(b - 1))
    else PeaksIn(b - 1, size)
  }

  function Shifted(ps: seq<nat>, offset: nat): (r: seq<nat>)
    ensures |r| == |ps| && forall i :: 0 <= i < |ps| ==> r[i] == ps[i] + offset
  {
    seq(|ps|, i requires 0 <= i < |ps| => ps[i] + offset)
  }

  lemma PeaksBig(b: nat, size: nat, i: nat)
    requires b > 0 && size >= Size(b - 1)
    ensures |PeaksIn(b, size)| == |PeaksIn(b - 1, size - Size(b - 1))| + 1
    ensures PeaksIn(b, size)[0] == Size(b - 1)
    ensures 0 < i < |PeaksIn(b, size)| ==>
              PeaksIn(b, size)[i] == PeaksIn(b - 1, size - Size(b - 1))[i - 1] + Size(b - 1)
  {
    hide Size;
  }

  lemma PeaksSmall(b: nat, size: nat)
    requires b > 0 && size < Size(b - 1)
    ensures PeaksIn(b, size) == PeaksIn(b - 1, size)
    ensures PeaksIn(0, size) == []
  {
    hide Size;
  }

  /** A peak lies in the range and its parent does not. */
  lemma {:induction false} PeakOpen(b: nat, size: nat, i: nat)
    requires b > 0 && size < Size(b) && HeightIn(b, size + 1) == 0 && i < |PeaksIn(b, size)|
    ensures 1 <= PeaksIn(b, size)[i] <= size
    ensures PeaksIn(b, size)[i] < Size(b) && ParentIn(b, PeaksIn(b, size)[i]) > size
  {
    hide *;
    PowStep(b);
    var half := Size(b - 1);
    HeightRoot(b);
    NoPeaks();
    if size < half {
      HeightHalf(b - 1, size + 1);
      PeaksSmall(b, size);
      PeakOpen(b - 1, size, i);
      ParentHalf(b - 1, PeaksIn(b - 1, size)[i]);
    } else {
      HeightHalf(b - 1, size - half + 1);
      PeaksBig(b, size, i);
      FamilyTop(b - 1);
      if i > 0 {
        PeakOpen(b - 1, size - half, i - 1);
        ParentHalf(b - 1, PeaksIn(b - 1, size - half)[i - 1]);
      }
    }
  }

  /** The peaks of a range of complete mountains. */
  function PeaksOf(size: nat): (r: seq<nat>) { PeaksIn(BitLen(size), size) }

  lemma PeaksOpen(size: nat, i: nat)
    requires IsLeaf(size + 1) && i < |PeaksOf(size)|
    ensures 1 <= PeaksOf(size)[i] <= size && Parent(PeaksOf(size)[i]) > size
  {
    hide HeightIn, ParentIn, Size, Pow2, PeaksIn, BitLen, Height;
    var b := BitLen(size);
    BitLenBound(size);
    SizePow(b);
    HeightAny(b, size + 1);
    NoPeaks();
    PeakOpen(b, size, i);
    ParentAny(b, PeaksOf(size)[i]);
  }

  lemma SizePow(b: nat)
    ensures Size(b) == 2 * Pow2(b) - 1
  {}

  lemma ShiftedShift(ps: seq<nat>, a: nat, b: nat)
    ensures Shifted(Shifted(ps, a), b) == Shifted(ps, a + b)
    ensures Shifted(ps, 0) == ps
  {}

  lemma PeaksStep(b: nat, size: nat, before: nat)
    requires b > 0
    ensures size >= Size(b - 1) ==>
              Shifted(PeaksIn(b, size), before) ==
              [before + Size(b - 1)] + Shifted(PeaksIn(b - 1, size - Size(b - 1)), before + Size(b - 1))
    ensures size < Size(b - 1) ==> PeaksIn(b, size) == PeaksIn(b - 1, size)
    ensures PeaksIn(0, size) == []
  {
    hide Size;
    if size >= Size(b - 1) {
      ShiftedShift(PeaksIn(b - 1, size - Size(b - 1)), Size(b - 1), before);
    }
  }

  /** peaks: none for a size that is no range of complete mountains. */
  method Peaks(num: nat) returns (peaks: seq<nat>)
    ensures peaks == if IsLeaf(num + 1) then PeaksOf(num) else []
  {
    hide *;
    PeaksStart(num);
    LeafIs(num + 1);
    if num == 0 {
      NoPeaks();
      return [];
    }
    var peakSize := AllOnes(num);
    var numLeft, sumPrevPeaks := num, 0;
    peaks := [];
    ghost var b := BitLen(num);
    ShiftedShift(PeaksOf(num), 0, 0);
    while peakSize != 0
      invariant peakSize == Pow2(b) - 1
      invariant peaks + Shifted(PeaksIn(b, numLeft), sumPrevPeaks) == PeaksOf(num)
      invariant Peel(b, numLeft, 0).1 == PeakMapHeight(num).1
      decreases peakSize
    {
      PeelPeak(b, numLeft, peakSize);
      PowStep(b);
      PeaksStep(b, numLeft, sumPrevPeaks);
      if numLeft >= peakSize {
        peaks := peaks + [sumPrevPeaks + peakSize];
        sumPrevPeaks := sumPrevPeaks + peakSize;
        numLeft := numLeft - peakSize;
      }
      peakSize := peakSize / 2;
      b := b - 1;
    }
    PeelPeak(b, numLeft, peakSize);
    PeelNone(numLeft, 0);
    PeaksStep(1, numLeft, sumPrevPeaks);
    PeakMapPath(num + 1, Height(num + 1) + 1);
    if numLeft > 0 {
      return [];
    }
  }

  lemma PeaksStart(num: nat)
    ensures PeaksOf(num) == PeaksIn(BitLen(num), num)
    ensures AllOnes(num) == Pow2(BitLen(num)) - 1 && PeakMapHeight(num) == Peel(BitLen(num), num, 0)
  {}

  lemma NoPeaks()
    ensures PeaksOf(0) == [] && (forall n :: PeaksIn(0, n) == []) && forall n :: BitLen(n) == 0 <==> n == 0
  {}

  /** The peak hashes bagged from the right, salted with the size. */
  ghost function Bag(h: Hasher, peaks: seq<Elmt>, size: nat): (r: Option<Elmt>) {
    if peaks == [] then None
    else match Bag(h, peaks[1..], size)
         case None => Some(peaks[0])
         case Some(right) => Some(h.node(peaks[0], right, size))
  }

  ghost function HashesAt(hashes: seq<Elmt>, ps: seq<nat>): (r: seq<Elmt>)
    requires forall i :: 0 <= i < |ps| ==> 1 <= ps[i] <= |hashes|
  {
    seq(|ps|, i requires 0 <= i < |ps| => hashes[ps[i] - 1])
  }

  /** Up to the end of the mountain range that a position belongs to. */
  method RangeEnd(position: nat, ghost last: nat) returns (pos: nat)
    requires position <= last && IsLeaf(last + 1)
    ensures position <= pos <= last && IsLeaf(pos + 1) && forall p :: position < p <= pos ==> !IsLeaf(p)
  {
    hide IsLeaf, Height;
    pos := position;
    var height := PostorderHeight(pos + 1);
    LeafIs(pos + 1);
    while height > 0
      invariant position <= pos <= last && height == Height(pos + 1)
      invariant forall p :: position < p <= pos ==> !IsLeaf(p)
      decreases last - pos
    {
      LeafIs(last + 1);
      LeafIs(pos + 1);
      pos := pos + 1;
      height := PostorderHeight(pos + 1);
    }
    LeafIs(pos + 1);
  }

  class Pmmr {
    const backend: Backend
    const hasher: Hasher
    var lastPos: nat

    ghost predicate Valid()
      reads this, backend, backend.hashFile, backend.dataFile, backend.leafSet, backend.pruneList
    {
      && backend.Valid() && lastPos == |backend.hashes|
      && HashSize(hasher, backend.hashFile.elmtSize)
      && Merkle(hasher, backend.hashes, backend.slots)
      && Merkle(hasher, backend.hashes0, backend.slots0)
    }

    /** Two trees that share nothing. */
    ghost predicate Apart(other: Pmmr)
    {
      && this != other && backend != other.backend
      && backend.hashFile != other.backend.hashFile && backend.hashFile != other.backend.dataFile
      && backend.dataFile != other.backend.hashFile && backend.dataFile != other.backend.dataFile
      && backend.leafSet != other.backend.leafSet && backend.pruneList != other.backend.pruneList
    }

    lemma ApartIs(other: Pmmr)
      requires Apart(other)
      ensures this != other && backend != other.backend
      ensures backend.hashFile != other.backend.hashFile && backend.hashFile != other.backend.dataFile
      ensures backend.dataFile != other.backend.hashFile && backend.dataFile != other.backend.dataFile
      ensures backend.leafSet != other.backend.leafSet && backend.pruneList != other.backend.pruneList
    {}

    /** The stored hash of a leaf is the hash of its element. */
    lemma LeafHash(p: nat)
      requires Valid() && 1 <= p <= lastPos && IsLeaf(p)
      ensures |backend.hashes| == |backend.slots| == lastPos
      ensures backend.hashes[p - 1] == hasher.leaf(backend.slots[p - 1], p - 1)
    {
      hide View, IsLeaf, Compacted;
      assert HashedAt(hasher, backend.hashes, backend.slots, p);
    }

    /** A view of the backend at its current size. */
    constructor At(b: Backend, h: Hasher, last: nat)
      requires b.Valid() && HashSize(h, b.hashFile.elmtSize) && last == |b.hashes|
      requires Merkle(h, b.hashes, b.slots) && Merkle(h, b.hashes0, b.slots0)
      ensures Valid() && backend == b && hasher == h && lastPos == last
    {
      backend, hasher, lastPos := b, h, last;
    }

    lemma ValidParts()
      requires Valid()
      ensures IsLeaf(lastPos + 1) && (forall x :: x in backend.pruneList.leaves ==> x <= lastPos)
      ensures HashSize(hasher, backend.hashFile.elmtSize) && Merkle(hasher, backend.hashes, backend.slots)
      ensures lastPos == |backend.hashes| == |backend.slots| && backend.Valid()
    {
      hide Compacted, Canonical, IsLeaf, HashSize, HashedAt;
    }

    /** The hashes that a new element adds: its own and those of the parents it completes. */
    method NewHashes(elmt: Elmt) returns (r: Result<seq<Elmt>>)
      requires Valid()
      ensures r.Ok? && |r.value| >= 1 && IsLeaf(lastPos + |r.value| + 1)
      ensures Pushing(hasher, backend.hashes, backend.slots, elmt, r.value, backend.hashFile.elmtSize)
    {
      hide *;
      var elmtPos := lastPos + 1;
      ValidParts();
      LeafIs(elmtPos);
      var currentHash := hasher.leaf(elmt, elmtPos - 1);
      var newHashes := [currentHash];
      var pos := elmtPos;
      var bits, height := ComputePeakMapHeight(pos - 1);
      TurnsStart(pos);
      TurnsClimb(bits, pos, height);
      if height != 0 {
        return Err;
      }
      BelowIs(elmtPos, elmtPos);
      PushStart(hasher, backend.hashes, backend.slots, elmt, backend.hashFile.elmtSize);
      var j, peak := 0, 1;
      PowStep(1);
      while BitAt(bits, j)
        invariant pos == lastPos + |newHashes| && peak == Pow2(j) && |newHashes| >= 1
        invariant Turns(bits, pos, j) && Below(elmtPos, pos)
        invariant Pushing(hasher, backend.hashes, backend.slots, elmt, newHashes, backend.hashFile.elmtSize)
        invariant currentHash == newHashes[|newHashes| - 1]
        decreases BitLen(bits) - j
      {
        BitAtBound(bits, j);
        TurnsClimb(bits, pos, j);
        var leftSibling := pos + 1 - 2 * peak;
        LeftSiblingKept(backend.pruneList.leaves, lastPos, pos);
        HashAtIs(leftSibling);
        var left := backend.GetFromFile(leftSibling);
        if left.None? {
          return Err;
        }
        PushStep(hasher, backend.hashes, backend.slots, elmt, newHashes, backend.hashFile.elmtSize);
        PowStep(j + 1);
        BelowParent(pos, Parent(pos));
        BelowIs(Parent(pos), Parent(pos));
        BelowTransitive(elmtPos, pos, Parent(pos));
        peak := 2 * peak;
        pos := pos + 1;
        currentHash := hasher.node(left.value, currentHash, pos - 1);
        newHashes := newHashes + [currentHash];
        j := j + 1;
      }
      TurnsClimb(bits, pos, j);
      PushEnd(hasher, backend.hashes, backend.slots, elmt, newHashes, backend.hashFile.elmtSize, pos);
      r := Ok(newHashes);
    }

    lemma HashAtIs(p: nat)
      requires 1 <= p <= |backend.hashes| && !Compacted(p, backend.pruneList.leaves)
      ensures backend.HashAt(p) == Some(backend.hashes[p - 1])
    {
      hide Compacted;
    }

    lemma DataAtIs(p: nat)
      requires 1 <= p <= |backend.slots| && IsLeaf(p) && !Compacted(p, backend.pruneList.leaves)
      ensures backend.DataAt(p) == Some(backend.slots[p - 1])
    {
      hide Compacted, IsLeaf;
    }

    /** push: hashes the element with the peaks before it; no peak is ever missing. */
    method Push(elmt: Elmt) returns (r: Result<nat>)
      requires Valid() && |elmt| == backend.dataFile.elmtSize
      modifies this, backend, backend.hashFile, backend.dataFile, backend.leafSet
      ensures Valid() && r == Ok(old(lastPos) + 1) && lastPos > old(lastPos)
      ensures old(backend.slots) < backend.slots && old(backend.hashes) < backend.hashes
      ensures |backend.slots| == |backend.hashes| && backend.slots[old(lastPos)] == elmt
      ensures forall p :: old(lastPos) + 1 < p <= lastPos ==> !IsLeaf(p)
      ensures backend.hashes0 == old(backend.hashes0) && backend.slots0 == old(backend.slots0)
      ensures backend.leafSet.bitmap ==
              if backend.prunable then old(backend.leafSet.bitmap) + {old(lastPos) + 1} else old(backend.leafSet.bitmap)
      ensures backend.leafSet.bitmapBak == old(backend.leafSet.bitmapBak)
    {
      hide View, Compacted, Canonical, IsLeaf, HashSize, NewSlots, AllSize, Merkle, Flatten, Pushing;
      ValidParts();
      var newHashes := NewHashes(elmt);
      if newHashes.Err? {
        return Err;
      }
      PushingIs(hasher, backend.hashes, backend.slots, elmt, newHashes.value, backend.hashFile.elmtSize);
      backend.Append(elmt, newHashes.value);
      r := Ok(lastPos + 1);
      lastPos := lastPos + |newHashes.value|;
    }

    /** prune: takes a leaf out of the leaf set; false when it is not there to be removed. */
    method Prune(position: nat) returns (r: Result<bool>)
      requires Valid() && backend.prunable && position >= 1
      modifies backend.leafSet
      ensures Valid() && backend.leafSet.bitmapBak == old(backend.leafSet.bitmapBak)
      ensures r == if !IsLeaf(position) then Err
                   else Ok(position in old(backend.leafSet.bitmap) && position <= lastPos)
      ensures backend.leafSet.bitmap == old(backend.leafSet.bitmap) - if r == Ok(true) then {position} else {}
    {
      hide View, Compacted, Canonical, IsLeaf, Height, HashSize, Merkle;
      var height := PostorderHeight(position);
      LeafIs(position);
      if height != 0 {
        return Err;
      }
      var hash := backend.GetHash(position);
      if position in backend.leafSet.bitmap && position <= lastPos { backend.LeafSetReadable(position); }
      if hash.None? {
        return Ok(false);
      }
      backend.Remove(position);
      r := Ok(true);
    }

    /** rewind: to the end of the mountain range that the position belongs to. */
    method Rewind(position: nat, rewindRm: set<nat>)
      requires Valid() && backend.hashFile.buffer == [] && backend.dataFile.buffer == []
      requires position <= |backend.hashes0| && rewindRm !! backend.pruneList.leaves
      requires forall x :: x in backend.pruneList.leaves ==> x <= position
      modifies this, backend, backend.hashFile, backend.dataFile, backend.leafSet
      ensures Valid() && position <= lastPos <= |backend.hashes0| == |backend.slots0|
      ensures IsLeaf(lastPos + 1) && forall p :: position < p <= lastPos ==> !IsLeaf(p)
      ensures backend.hashes == old(backend.hashes0)[..lastPos] && backend.slots == old(backend.slots0)[..lastPos]
      ensures backend.hashes0 == old(backend.hashes0) && backend.slots0 == old(backend.slots0)
      ensures backend.prunable ==>
                forall x :: x in backend.leafSet.bitmap <==>
                              (x in old(backend.leafSet.bitmap) && x <= lastPos) || x in rewindRm
      ensures backend.leafSet.bitmapBak == old(backend.leafSet.bitmapBak)
    {
      hide View, Compacted, Canonical, IsLeaf, Height, HashSize, Merkle;
      ViewIs(backend.hashFile.committed, backend.dataFile.committed, backend.hashes0, backend.slots0,
             backend.pruneList.leaves);
      var pos := RangeEnd(position, |backend.hashes0|);
      MerklePrefix(hasher, backend.hashes0, backend.slots0, pos);
      backend.Rewind(pos, rewindRm);
      lastPos := pos;
    }

    /** get_hash: positions beyond the end have none. */
    method GetHash(pos: nat) returns (r: Option<Elmt>)
      requires Valid() && pos >= 1
      ensures r == if pos > lastPos || (backend.prunable && IsLeaf(pos) && pos !in backend.leafSet.bitmap) then None
                   else backend.HashAt(pos)
    {
      hide View, Compacted, Canonical, IsLeaf, Height, HashSize, Merkle;
      if pos > lastPos { return None; }
      var height := PostorderHeight(pos);
      LeafIs(pos);
      if height == 0 {
        r := backend.GetHash(pos);
      } else {
        r := backend.GetFromFile(pos);
      }
    }

    method GetData(pos: nat) returns (r: Option<Elmt>)
      requires Valid() && pos >= 1
      ensures r == if pos > lastPos || (backend.prunable && pos !in backend.leafSet.bitmap) then None
                   else backend.DataAt(pos)
    {
      hide View, Compacted, Canonical, IsLeaf, Height, HashSize, Merkle;
      if pos > lastPos { return None; }
      var height := PostorderHeight(pos);
      LeafIs(pos);
      if height == 0 {
        r := backend.GetData(pos);
      } else {
        return None;
      }
    }

    lemma PeakKept(i: nat)
      requires Valid() && i < |PeaksOf(lastPos)|
      ensures 1 <= PeaksOf(lastPos)[i] <= |backend.hashes|
      ensures backend.HashAt(PeaksOf(lastPos)[i]) == Some(backend.hashes[PeaksOf(lastPos)[i] - 1])
    {
      hide View, Compacted, Canonical, IsLeaf, HashSize, Merkle, PeaksOf;
      ViewIs(backend.hashFile.current, backend.dataFile.current, backend.hashes, backend.slots, backend.pruneList.leaves);
      PeaksOpen(lastPos, i);
      if Compacted(PeaksOf(lastPos)[i], backend.pruneList.leaves) {
        CompactedInside(PeaksOf(lastPos)[i], backend.pruneList.leaves, lastPos);
      }
    }

    /** peaks: none of them has been compacted away. */
    method PeakHashes() returns (peaks: seq<Elmt>)
      requires Valid()
      ensures forall i :: 0 <= i < |PeaksOf(lastPos)| ==> 1 <= PeaksOf(lastPos)[i] <= |backend.hashes|
      ensures peaks == HashesAt(backend.hashes, PeaksOf(lastPos))
    {
      hide *;
      ValidParts();
      var positions := Peaks(lastPos);
      forall i | 0 <= i < |positions| ensures 1 <= positions[i] <= |backend.hashes| { PeakKept(i); }
      peaks := [];
      for i := 0 to |positions|
        invariant |peaks| == i && forall j :: 0 <= j < i ==> peaks[j] == backend.hashes[positions[j] - 1]
      {
        PeakKept(i);
        var hash := backend.GetFromFile(positions[i]);
        if hash.Some? {
          peaks := peaks + [hash.value];
        }
      }
      HashesAtIs(backend.hashes, positions, peaks);
    }

    /** root: depends on the logical hashes only, since every peak is stored. */
    method Root(zeroHash: Elmt) returns (r: Elmt)
      requires Valid()
      ensures forall i :: 0 <= i < |PeaksOf(lastPos)| ==> 1 <= PeaksOf(lastPos)[i] <= |backend.hashes|
      ensures lastPos == 0 ==> r == zeroHash
      ensures lastPos > 0 ==> Bag(hasher, HashesAt(backend.hashes, PeaksOf(lastPos)), lastPos) == Some(r)
    {
      hide *;
      var peaks := PeakHashes();
      if lastPos == 0 { return zeroHash; }
      SomePeak(lastPos);
      var positions := PeaksOf(lastPos);
      HashesAtLength(backend.hashes, positions);
      var res := BagFromRight(hasher, peaks, lastPos);
      r := res.value;
    }

    /** Writes the tree to its files. */
    method Sync()
      requires Valid()
      modifies backend, backend.hashFile, backend.dataFile, backend.leafSet
      ensures Valid() && backend.Synced() && backend.hashes == old(backend.hashes) && backend.slots == old(backend.slots)
      ensures backend.hashes0 == backend.hashes && backend.slots0 == backend.slots
      ensures backend.leafSet.bitmap == old(backend.leafSet.bitmap)
      ensures backend.leafSet.bitmapBak == if backend.prunable then backend.leafSet.bitmap else old(backend.leafSet.bitmapBak)
    {
      hide View, Compacted, Canonical, IsLeaf, HashSize, Merkle;
      backend.Sync();
    }

    /** Goes back to what is in the files and to the size from before. */
    method Discard(last: nat)
      requires Valid() && last == |backend.hashes0|
      modifies this, backend, backend.hashFile, backend.dataFile, backend.leafSet
      ensures Valid() && backend.Synced() && lastPos == last
      ensures backend.hashes == backend.hashes0 == old(backend.hashes0)
      ensures backend.slots == backend.slots0 == old(backend.slots0)
      ensures backend.leafSet.bitmap == backend.leafSet.bitmapBak == old(backend.leafSet.bitmapBak)
    {
      hide View, Compacted, Canonical, IsLeaf, HashSize, Merkle;
      backend.Discard();
      lastPos := last;
    }

    /** Compaction leaves every logical hash, and with it the root, as it was. */
    method Compact(cutoff: nat, rewindRm: set<nat>)
      requires Valid() && backend.Synced() && backend.prunable && cutoff <= lastPos
      modifies backend, backend.hashFile, backend.dataFile, backend.leafSet, backend.pruneList
      ensures Valid() && backend.Synced()
      ensures backend.hashes == old(backend.hashes) && backend.slots == old(backend.slots)
      ensures backend.leafSet.bitmap == old(backend.leafSet.bitmap)
      ensures backend.hashes0 == backend.hashes && backend.slots0 == backend.slots
      ensures backend.leafSet.bitmapBak == backend.leafSet.bitmap
      ensures forall x :: x in backend.pruneList.leaves <==>
                (x in old(backend.pruneList.leaves) ||
                 (1 <= x <= cutoff && IsLeaf(x) && x !in backend.leafSet.bitmap && x !in rewindRm))
      ensures forall p: nat :: p >= 1 && !Compacted(p, backend.pruneList.leaves) ==>
                backend.HashAt(p) == old(backend.HashAt(p))
      ensures forall p: nat :: 1 <= p <= lastPos && p in backend.leafSet.bitmap && IsLeaf(p) ==>
                backend.HashAt(p).Some? && backend.HashAt(p) == old(backend.HashAt(p)) &&
                backend.DataAt(p).Some? && backend.DataAt(p) == old(backend.DataAt(p))
    {
      hide View, Compacted, Canonical, IsLeaf, HashSize, Merkle, Backend.Valid;
      ghost var leaves := backend.pruneList.leaves;
      ValidParts();
      forall p: nat | 1 <= p <= lastPos && p in backend.leafSet.bitmap && IsLeaf(p)
        ensures backend.HashAt(p) == Some(backend.hashes[p - 1]) && backend.DataAt(p) == Some(backend.slots[p - 1])
      {
        backend.LeafSetReadable(p);
      }
      backend.CheckCompact(cutoff, rewindRm);
      forall p: nat | p >= 1 && !Compacted(p, backend.pruneList.leaves) ensures !Compacted(p, leaves) {
        CompactedGrows(p, leaves, backend.pruneList.leaves);
      }
      forall p: nat | 1 <= p <= lastPos && p in backend.leafSet.bitmap && IsLeaf(p)
        ensures backend.HashAt(p) == Some(backend.hashes[p - 1]) && backend.DataAt(p) == Some(backend.slots[p - 1])
      {
        backend.LeafSetReadable(p);
      }
    }
  }

  method BagFromRight(h: Hasher, peaks: seq<Elmt>, size: nat) returns (res: Option<Elmt>)
    ensures res == Bag(h, peaks, size)
    ensures peaks != [] ==> res.Some?
  {
    hide Bag;
    res := None;
    var i := |peaks|;
    BagStep(h, peaks, i, size);
    while i > 0
      invariant 0 <= i <= |peaks| && res == Bag(h, peaks[i..], size)
      invariant i < |peaks| ==> res.Some?
    {
      i := i - 1;
      BagStep(h, peaks, i, size);
      res := match res
        case None => Some(peaks[i])
        case Some(right) => Some(h.node(peaks[i], right, size));
    }
    assert peaks[0..] == peaks;
  }

  lemma HashesAtIs(hashes: seq<Elmt>, ps: seq<nat>, peaks: seq<Elmt>)
    requires forall i :: 0 <= i < |ps| ==> 1 <= ps[i] <= |hashes|
    requires |peaks| == |ps| && forall j :: 0 <= j < |ps| ==> peaks[j] == hashes[ps[j] - 1]
    ensures peaks == HashesAt(hashes, ps)
  {}

  lemma HashesAtLength(hashes: seq<Elmt>, ps: seq<nat>)
    requires forall i :: 0 <= i < |ps| ==> 1 <= ps[i] <= |hashes|
    ensures |HashesAt(hashes, ps)| == |ps|
  {}

  lemma BagStep(h: Hasher, all: seq<Elmt>, i: nat, size: nat)
    requires i <= |all|
    ensures i == |all| ==> Bag(h, all[i..], size) == None
    ensures i < |all| ==> Bag(h, all[i..], size) == match Bag(h, all[i + 1..], size)
                                                   case None => Some(all[i])
                                                   case Some(right) => Some(h.node(all[i], right, size))
  {
    if i < |all| { assert all[i..][1..] == all[i + 1..]; }
  }

  /** A range that is not empty has a peak. */
  lemma SomePeak(size: nat)
    requires size > 0
    ensures |PeaksOf(size)| > 0
  {
    hide Size, Pow2, BitLen;
    BitLenBound(size);
    NoPeaks();
    SomePeakIn(BitLen(size), size);
  }

  lemma {:induction false} SomePeakIn(b: nat, size: nat)
    requires b > 0 && size > 0
    ensures |PeaksIn(b, size)| > 0
  {
    hide *;
    PowStep(1);
    if size < Size(b - 1) {
      PeaksSmall(b, size);
      if b == 1 { assert false; }
      SomePeakIn(b - 1, size);
    } else {
      PeaksBig(b, size, 0);
    }
  }

  /** The hashes to be appended belong where they go. */
  ghost predicate Pushing(h: Hasher, hashes: seq<Elmt>, slots: seq<Elmt>, elmt: Elmt, more: seq<Elmt>, size: nat)
  {
    && |more| >= 1 && AllSize(more, size) && IsLeaf(|hashes| + 1)
    && (forall p :: |hashes| + 1 < p <= |hashes| + |more| ==> !IsLeaf(p))
    && Merkle(h, hashes + more, slots + NewSlots(elmt, |more|))
  }

  lemma PushingIs(h: Hasher, hashes: seq<Elmt>, slots: seq<Elmt>, elmt: Elmt, more: seq<Elmt>, size: nat)
    requires Pushing(h, hashes, slots, elmt, more, size)
    ensures |more| >= 1 && AllSize(more, size)
    ensures forall p :: |hashes| + 1 < p <= |hashes| + |more| ==> !IsLeaf(p)
    ensures Merkle(h, hashes + more, slots + NewSlots(elmt, |more|))
  {
    hide Merkle, IsLeaf;
  }

  lemma PushStart(h: Hasher, hashes: seq<Elmt>, slots: seq<Elmt>, elmt: Elmt, size: nat)
    requires Merkle(h, hashes, slots) && IsLeaf(|hashes| + 1) && HashSize(h, size)
    ensures Pushing(h, hashes, slots, elmt, [h.leaf(elmt, |hashes|)], size)
  {
    hide IsLeaf, Sibling;
    var n := |hashes|;
    var hashes', slots' := hashes + [h.leaf(elmt, n)], slots + NewSlots(elmt, 1);
    forall p | 1 <= p <= |hashes'| ensures HashedAt(h, hashes', slots', p) {
      if p <= n { assert HashedAt(h, hashes, slots, p); }
    }
  }

  /** The parent of a right child comes right after it. */
  lemma PushStep(h: Hasher, hashes: seq<Elmt>, slots: seq<Elmt>, elmt: Elmt, more: seq<Elmt>, size: nat)
    requires Pushing(h, hashes, slots, elmt, more, size) && HashSize(h, size)
    requires IsRight(|hashes| + |more|) && Sibling(|hashes| + |more|) >= 1 && Sibling(|hashes| + |more|) <= |hashes|
    ensures var pos := |hashes| + |more|;
            Pushing(h, hashes, slots, elmt, more + [h.node(hashes[Sibling(pos) - 1], more[|more| - 1], pos)], size)
  {
    hide IsLeaf, Sibling, IsRight, Height;
    var pos := |hashes| + |more|;
    var hash := h.node(hashes[Sibling(pos) - 1], more[|more| - 1], pos);
    var hashes', slots' := hashes + more, slots + NewSlots(elmt, |more|);
    var hashes'', slots'' := hashes + (more + [hash]), slots + NewSlots(elmt, |more| + 1);
    assert hashes'' == hashes' + [hash];
    assert slots'' == slots' + [[]];
    Family(pos);
    LeafIs(pos + 1);
    forall p | 1 <= p <= |hashes''| ensures HashedAt(h, hashes'', slots'', p) {
      if p <= |hashes'| { assert HashedAt(h, hashes', slots', p); }
    }
  }

  /** After a left child comes a leaf. */
  lemma PushEnd(h: Hasher, hashes: seq<Elmt>, slots: seq<Elmt>, elmt: Elmt, more: seq<Elmt>, size: nat, pos: nat)
    requires Pushing(h, hashes, slots, elmt, more, size) && pos == |hashes| + |more| && !IsRight(pos)
    ensures IsLeaf(pos + 1) && AllSize(more, size)
    ensures forall p :: |hashes| + 1 < p <= pos ==> !IsLeaf(p)
    ensures Merkle(h, hashes + more, slots + NewSlots(elmt, |more|))
  {
    hide IsLeaf, Sibling, IsRight, Height, Merkle, NewSlots;
    Family(pos);
    LeftIsLeaf(Sibling(pos));
  }

  /** The sibling to the left of a new node is stored. */
  lemma LeftSiblingKept(leaves: set<nat>, size: nat, pos: nat)
    requires IsLeaf(size + 1) && (forall x :: x in leaves ==> x <= size)
    requires pos > size && Below(size + 1, pos) && IsRight(pos)
    ensures 1 <= Sibling(pos) <= size && !Compacted(Sibling(pos), leaves)
  {
    hide *;
    Family(pos);
    BelowIs(size + 1, pos);
    if Compacted(Sibling(pos), leaves) { CompactedInside(Sibling(pos), leaves, size); }
  }
}
