/**
 * The extension of chain/src/txhashset/txhashset.rs: applies blocks to the output,
 * range proof and kernel MMRs and keeps the index of output positions.
 */
module Extensions {
  import opened AppendOnly
  import opened Backends
  import opened Bitmaps
  import opened Compaction
  import opened Outputs
  import opened Pmmrs
  import opened Postorder
  import opened Wrappers
  import BackendTheory
  import Navigation
  import PruneTheory
  import S = Sums

  datatype Failure = AlreadySpent | DuplicateCommitment | TxHashSet

  datatype Applied<T> = Done(value: T) | Failed(failure: Failure)

  datatype Output = Output(id: Elmt, proof: Elmt)

  /** What a tree goes back to when it is discarded. */
  datatype Saved = Saved(hashes: seq<Elmt>, slots: seq<Elmt>, bitmap: set<nat>)

  function Ids(outputs: seq<Output>): (ids: seq<Elmt>)
    ensures |ids| == |outputs| && forall i :: 0 <= i < |ids| ==> ids[i] == outputs[i].id
  {
    seq(|outputs|, i requires 0 <= i < |outputs| => outputs[i].id)
  }

  function ProofsOf(outputs: seq<Output>): (proofs: seq<Elmt>)
    ensures |proofs| == |outputs| && forall i :: 0 <= i < |proofs| ==> proofs[i] == outputs[i].proof
  {
    seq(|outputs|, i requires 0 <= i < |outputs| => outputs[i].proof)
  }

  /** Identifiers that share a commitment have different hashes at the same place when their features differ. */
  ghost predicate Injective(h: Hasher) {
    forall a, b, i :: CommitOf(a) == CommitOf(b) && h.leaf(a, i) == h.leaf(b, i) ==> a == b
  }

  /** The entry of an identifier's commitment is an unspent leaf of another one with the same hash there. */
  ghost predicate Mistaken(h: Hasher, index: map<Elmt, nat>, slots: seq<Elmt>, unspent: set<nat>, id: Elmt) {
    var c := CommitOf(id);
    c in index && index[c] in unspent && 1 <= index[c] <= |slots| && CommitOf(slots[index[c] - 1]) != c &&
    h.leaf(slots[index[c] - 1], index[c] - 1) == h.leaf(id, index[c] - 1)
  }

  /**
   * The hash of the input tells it from the output that an entry left behind by a rewind may name, and from the new
   * outputs of its block where they may come to stand at such a place.
   */
  ghost predicate Clear(h: Hasher, index: map<Elmt, nat>, slots: seq<Elmt>, unspent: set<nat>, outputs: seq<Elmt>, id: Elmt) {
    && !Mistaken(h, index, slots, unspent, id)
    && (CommitOf(id) in index && index[CommitOf(id)] > |slots| ==>
          forall j :: 0 <= j < |outputs| && CommitOf(outputs[j]) != CommitOf(id) ==>
            h.leaf(outputs[j], index[CommitOf(id)] - 1) != h.leaf(id, index[CommitOf(id)] - 1))
  }

  /** An index without entries left behind is never mistaken. */
  lemma ExactClear(h: Hasher, index: map<Elmt, nat>, slots: seq<Elmt>, unspent: set<nat>, outputs: seq<Elmt>, id: Elmt)
    requires Exact(index, slots)
    ensures Clear(h, index, slots, unspent, outputs, id)
  {
    hide CommitOf;
  }

  lemma ClearAdded(h: Hasher, index: map<Elmt, nat>, slots: seq<Elmt>, unspent: set<nat>, outputs: seq<Elmt>, id: Elmt,
                   slots': seq<Elmt>, pos: nat)
    requires Clear(h, index, slots, unspent, outputs, id) && |outputs| > 0
    requires forall p :: p in unspent ==> 1 <= p <= |slots|
    requires slots < slots' && pos == |slots| + 1 && slots'[|slots|] == outputs[0]
    ensures Clear(h, index[CommitOf(outputs[0]) := pos], slots', unspent + {pos}, outputs[1..], id)
  {
    hide CommitOf;
  }

  lemma ClearLess(h: Hasher, index: map<Elmt, nat>, slots: seq<Elmt>, unspent: set<nat>, outputs: seq<Elmt>, less: set<nat>, id: Elmt)
    requires Clear(h, index, slots, unspent, outputs, id) && less <= unspent
    ensures Clear(h, index, slots, less, [], id)
  {
    hide CommitOf;
  }

  lemma NotMistaken(h: Hasher, index: map<Elmt, nat>, slots: seq<Elmt>, unspent: set<nat>, outputs: seq<Elmt>, id: Elmt)
    requires Clear(h, index, slots, unspent, outputs, id) && Injective(h)
    requires CommitOf(id) in index && index[CommitOf(id)] in unspent && 1 <= index[CommitOf(id)] <= |slots|
    ensures var p := index[CommitOf(id)]; h.leaf(slots[p - 1], p - 1) == h.leaf(id, p - 1) <==> slots[p - 1] == id
  {
    hide CommitOf;
  }

  /** What an output with a new commitment keeps. */
  lemma AddedParts(h: Hasher, index: map<Elmt, nat>, slots: seq<Elmt>, unspent: set<nat>, outputs: seq<Elmt>,
                   slots': seq<Elmt>, pos: nat)
    requires |outputs| > 0 && !Taken(CommitOf(outputs[0]), Utxo(slots, unspent)) && Indexed(index, slots, unspent)
    requires slots < slots' && pos == |slots| + 1 && slots'[|slots|] == outputs[0]
    requires forall p :: pos < p <= |slots'| ==> !IsLeaf(p)
    ensures var index' := index[CommitOf(outputs[0]) := pos];
            && (Latest(index, slots) ==> Latest(index', slots')) && (Exact(index, slots) ==> Exact(index', slots'))
            && (LastOf(slots, unspent, |slots|) ==> LastOf(slots', unspent + {pos}, |slots'|))
            && (forall id :: Clear(h, index, slots, unspent, outputs, id) ==>
                  Clear(h, index', slots', unspent + {pos}, outputs[1..], id))
  {
    hide *;
    forall p | p in unspent ensures 1 <= p <= |slots| { UnspentAt(index, slots, unspent, p); }
    if Latest(index, slots) { LatestAdded(index, slots, outputs[0], slots', pos); }
    if Exact(index, slots) { ExactAdded(index, slots, outputs[0], slots', pos); }
    if LastOf(slots, unspent, |slots|) { LastAdded(slots, unspent, outputs[0], slots', pos); }
    forall id | Clear(h, index, slots, unspent, outputs, id)
      ensures Clear(h, index[CommitOf(outputs[0]) := pos], slots', unspent + {pos}, outputs[1..], id)
    {
      ClearAdded(h, index, slots, unspent, outputs, id, slots', pos);
    }
  }

  class Extension {
    const outputPmmr: Pmmr
    const rproofPmmr: Pmmr
    const kernelPmmr: Pmmr
    /** The position index of the batch. */
    var index: map<Elmt, nat>

    /** The three trees are well formed and the first two agree on size and unspent leaves. */
    ghost predicate Trees()
      reads outputPmmr, outputPmmr.backend, outputPmmr.backend.hashFile, outputPmmr.backend.dataFile, outputPmmr.backend.leafSet, outputPmmr.backend.pruneList
      reads rproofPmmr, rproofPmmr.backend, rproofPmmr.backend.hashFile, rproofPmmr.backend.dataFile, rproofPmmr.backend.leafSet, rproofPmmr.backend.pruneList
      reads kernelPmmr, kernelPmmr.backend, kernelPmmr.backend.hashFile, kernelPmmr.backend.dataFile, kernelPmmr.backend.leafSet, kernelPmmr.backend.pruneList
    {
      && outputPmmr.Valid() && rproofPmmr.Valid() && kernelPmmr.Valid()
      && outputPmmr.Apart(rproofPmmr) && outputPmmr.Apart(kernelPmmr) && rproofPmmr.Apart(kernelPmmr)
      && outputPmmr.backend.prunable && rproofPmmr.backend.prunable && !kernelPmmr.backend.prunable
      && kernelPmmr.backend.pruneList.leaves == {}
      && outputPmmr.lastPos == rproofPmmr.lastPos
      && outputPmmr.backend.leafSet.bitmap == rproofPmmr.backend.leafSet.bitmap
      && forall p :: p in outputPmmr.backend.leafSet.bitmap ==> p >= 1 && IsLeaf(p)
    }

    ghost function Slots(): seq<Elmt>
      reads outputPmmr.backend
    {
      outputPmmr.backend.slots
    }

    /** What the range proof tree holds. */
    ghost function Proofs(): seq<Elmt>
      reads rproofPmmr.backend
    {
      rproofPmmr.backend.slots
    }

    /** The positions of the unspent outputs. */
    ghost function UnspentSet(): set<nat>
      reads outputPmmr, outputPmmr.backend.leafSet
    {
      Unspent(outputPmmr.backend.leafSet.bitmap, outputPmmr.lastPos)
    }

    ghost function UtxoSet(): set<Elmt>
      reads outputPmmr, outputPmmr.backend, outputPmmr.backend.leafSet
    {
      Utxo(Slots(), UnspentSet())
    }

    ghost function Base(): (Saved, Saved, Saved)
      reads outputPmmr.backend, rproofPmmr.backend, kernelPmmr.backend
      reads outputPmmr.backend.leafSet, rproofPmmr.backend.leafSet
    {
      (Saved(outputPmmr.backend.hashes0, outputPmmr.backend.slots0, outputPmmr.backend.leafSet.bitmapBak),
       Saved(rproofPmmr.backend.hashes0, rproofPmmr.backend.slots0, rproofPmmr.backend.leafSet.bitmapBak),
       Saved(kernelPmmr.backend.hashes0, kernelPmmr.backend.slots0, {}))
    }

    ghost function Live(): (Saved, Saved, Saved)
      reads outputPmmr.backend, rproofPmmr.backend, kernelPmmr.backend
      reads outputPmmr.backend.leafSet, rproofPmmr.backend.leafSet
    {
      (Saved(outputPmmr.backend.hashes, outputPmmr.backend.slots, outputPmmr.backend.leafSet.bitmap),
       Saved(rproofPmmr.backend.hashes, rproofPmmr.backend.slots, rproofPmmr.backend.leafSet.bitmap),
       Saved(kernelPmmr.backend.hashes, kernelPmmr.backend.slots, {}))
    }

    /** Nothing has happened since the files were last written. */
    ghost predicate Clean()
      reads outputPmmr.backend, rproofPmmr.backend, kernelPmmr.backend
      reads outputPmmr.backend.leafSet, rproofPmmr.backend.leafSet
      reads outputPmmr.backend.hashFile, rproofPmmr.backend.hashFile, kernelPmmr.backend.hashFile
      reads outputPmmr.backend.dataFile, rproofPmmr.backend.dataFile, kernelPmmr.backend.dataFile
    {
      && Live() == Base()
      && outputPmmr.backend.Synced() && rproofPmmr.backend.Synced() && kernelPmmr.backend.Synced()
    }

    ghost predicate Valid()
      reads this
      reads outputPmmr, outputPmmr.backend, outputPmmr.backend.hashFile, outputPmmr.backend.dataFile, outputPmmr.backend.leafSet, outputPmmr.backend.pruneList
      reads rproofPmmr, rproofPmmr.backend, rproofPmmr.backend.hashFile, rproofPmmr.backend.dataFile, rproofPmmr.backend.leafSet, rproofPmmr.backend.pruneList
      reads kernelPmmr, kernelPmmr.backend, kernelPmmr.backend.hashFile, kernelPmmr.backend.dataFile, kernelPmmr.backend.leafSet, kernelPmmr.backend.pruneList
    {
      Trees() && Indexed(index, Slots(), UnspentSet())
    }

    /** An extension of trees that are empty or come from an earlier extension. */
    constructor (outputs: Pmmr, rproofs: Pmmr, kernels: Pmmr, outputIndex: map<Elmt, nat>)
      requires outputs.Valid() && rproofs.Valid() && kernels.Valid()
      requires outputs.Apart(rproofs) && outputs.Apart(kernels) && rproofs.Apart(kernels)
      requires outputs.backend.prunable && rproofs.backend.prunable && !kernels.backend.prunable
      requires kernels.backend.pruneList.leaves == {}
      requires outputs.lastPos == rproofs.lastPos && outputs.backend.leafSet.bitmap == rproofs.backend.leafSet.bitmap
      requires forall p :: p in outputs.backend.leafSet.bitmap ==> p >= 1 && IsLeaf(p)
      requires Indexed(outputIndex, outputs.backend.slots, Unspent(outputs.backend.leafSet.bitmap, outputs.lastPos))
      ensures Valid()
      ensures outputPmmr == outputs && rproofPmmr == rproofs && kernelPmmr == kernels && index == outputIndex
    {
      outputPmmr, rproofPmmr, kernelPmmr, index := outputs, rproofs, kernels, outputIndex;
      new;
      hide *;
      AbstractIs();
      TreesFrom();
      ValidFrom();
    }

    /** The index names the last leaf of every commitment. */
    ghost predicate Newest()
      reads this, outputPmmr.backend
    {
      Latest(index, Slots())
    }

    /** Every entry of the index names a leaf with its commitment. */
    ghost predicate Exactly()
      reads this, outputPmmr.backend
    {
      Exact(index, Slots())
    }

    /** No commitment of an unspent output was created again after it. */
    ghost predicate Final()
      reads outputPmmr, outputPmmr.backend, outputPmmr.backend.leafSet
    {
      LastOf(Slots(), UnspentSet(), |Slots()|)
    }

    /** No input of the block is taken for an output it is not. */
    ghost predicate Told(outputs: seq<Elmt>, inputs: seq<Elmt>)
      reads this, outputPmmr, outputPmmr.backend, outputPmmr.backend.leafSet
    {
      forall i :: 0 <= i < |inputs| ==> Clear(outputPmmr.hasher, index, Slots(), UnspentSet(), outputs, inputs[i])
    }

    lemma ExactlyTold(outputs: seq<Elmt>, inputs: seq<Elmt>)
      requires Exactly()
      ensures Told(outputs, inputs)
    {
      hide Clear, Exact;
      forall i | 0 <= i < |inputs| ensures Clear(outputPmmr.hasher, index, Slots(), UnspentSet(), outputs, inputs[i]) {
        ExactClear(outputPmmr.hasher, index, Slots(), UnspentSet(), outputs, inputs[i]);
      }
    }

    lemma ToldAt(outputs: seq<Elmt>, inputs: seq<Elmt>)
      requires Told(outputs, inputs)
      ensures forall i :: 0 <= i < |inputs| ==> Clear(outputPmmr.hasher, index, Slots(), UnspentSet(), outputs, inputs[i])
    {
      hide Clear;
    }

    lemma ToldFrom(outputs: seq<Elmt>, inputs: seq<Elmt>)
      requires forall i :: 0 <= i < |inputs| ==> Clear(outputPmmr.hasher, index, Slots(), UnspentSet(), outputs, inputs[i])
      ensures Told(outputs, inputs)
    {
      hide Clear;
    }

    /** The output at an unspent position can be read. */
    lemma Readable(p: nat)
      requires outputPmmr.Valid() && p in UnspentSet() && IsLeaf(p)
      ensures |outputPmmr.backend.hashes| == |Slots()| == outputPmmr.lastPos && 1 <= p <= |Slots()|
      ensures outputPmmr.backend.HashAt(p) == Some(outputPmmr.hasher.leaf(Slots()[p - 1], p - 1))
      ensures outputPmmr.backend.DataAt(p) == Some(Slots()[p - 1])
    {
      hide IsLeaf, Merkle, BackendTheory.View, PruneTheory.Compacted, HashSize;
      outputPmmr.backend.LeafSetReadable(p);
      outputPmmr.LeafHash(p);
    }

    /** The hash and the data of an output and of its range proof are in the files. */
    ghost predicate Stored(p: nat)
      requires p >= 1
      reads outputPmmr.backend, outputPmmr.backend.pruneList, rproofPmmr.backend, rproofPmmr.backend.pruneList
    {
      && p <= |outputPmmr.backend.slots|
      && outputPmmr.backend.HashAt(p) == Some(outputPmmr.hasher.leaf(outputPmmr.backend.slots[p - 1], p - 1))
      && outputPmmr.backend.DataAt(p) == Some(outputPmmr.backend.slots[p - 1])
      && p <= |rproofPmmr.backend.slots|
      && rproofPmmr.backend.HashAt(p) == Some(rproofPmmr.hasher.leaf(rproofPmmr.backend.slots[p - 1], p - 1))
      && rproofPmmr.backend.DataAt(p) == Some(rproofPmmr.backend.slots[p - 1])
    }

    lemma StoredIs(p: nat)
      requires Trees() && p in UnspentSet()
      ensures p >= 1 && Stored(p)
    {
      hide *;
      TreesParts();
      AbstractIs();
      UnspentMember(outputPmmr.backend.leafSet.bitmap, outputPmmr.lastPos, p);
      outputPmmr.ValidParts();
      rproofPmmr.ValidParts();
      Readable(p);
      outputPmmr.backend.LeafSetReadable(p);
      rproofPmmr.backend.LeafSetReadable(p);
      rproofPmmr.LeafHash(p);
      StoredFrom(p);
    }

    lemma StoredFrom(p: nat)
      requires 1 <= p <= |outputPmmr.backend.slots| && p <= |rproofPmmr.backend.slots|
      requires outputPmmr.backend.HashAt(p) == Some(outputPmmr.hasher.leaf(outputPmmr.backend.slots[p - 1], p - 1))
      requires outputPmmr.backend.DataAt(p) == Some(outputPmmr.backend.slots[p - 1])
      requires rproofPmmr.backend.HashAt(p) == Some(rproofPmmr.hasher.leaf(rproofPmmr.backend.slots[p - 1], p - 1))
      requires rproofPmmr.backend.DataAt(p) == Some(rproofPmmr.backend.slots[p - 1])
      ensures Stored(p)
    {}

    /** What the index says of a commitment. */
    lemma Entry(c: Elmt)
      requires Valid() && c in index
      ensures |Slots()| == outputPmmr.lastPos && index[c] >= 1 && IsLeaf(index[c])
      ensures index[c] in UnspentSet() <==> index[c] in outputPmmr.backend.leafSet.bitmap && index[c] <= outputPmmr.lastPos
      ensures index[c] in UnspentSet() ==>
                && index[c] <= |Slots()|
                && outputPmmr.backend.HashAt(index[c]) == Some(outputPmmr.hasher.leaf(Slots()[index[c] - 1], index[c] - 1))
                && outputPmmr.backend.DataAt(index[c]) == Some(Slots()[index[c] - 1])
    {
      hide *;
      ValidIs();
      AbstractIs();
      outputPmmr.ValidParts();
      IndexedAt(index, Slots(), UnspentSet(), c);
      UnspentMember(outputPmmr.backend.leafSet.bitmap, outputPmmr.lastPos, index[c]);
      if index[c] in UnspentSet() { Readable(index[c]); }
    }

    lemma ValidParts()
      ensures Valid() <==> Trees() && Indexed(index, Slots(), UnspentSet())
    {
      hide Trees, Indexed;
    }

    lemma ValidIs()
      requires Valid()
      ensures Trees() && outputPmmr.Valid() && rproofPmmr.Valid() && kernelPmmr.Valid()
      ensures outputPmmr.backend.prunable && Indexed(index, Slots(), UnspentSet())
    {
      hide IsLeaf, Indexed, BackendTheory.View, PruneTheory.Compacted, HashSize, Merkle, Unspent;
    }

    /** validate_input: accepts exactly the members of the UTXO set. */
    method ValidateInput(id: Elmt) returns (ok: bool)
      requires Valid() && Injective(outputPmmr.hasher) && Clear(outputPmmr.hasher, index, Slots(), UnspentSet(), [], id)
      ensures ok <==> id in UtxoSet()
    {
      hide *;
      ValidIs();
      MemberIs(index, Slots(), UnspentSet(), id);
      UtxoIs();
      var commit := CommitOf(id);
      if commit in index {
        var pos := index[commit];
        Entry(commit);
        if pos in UnspentSet() { NotMistaken(outputPmmr.hasher, index, Slots(), UnspentSet(), [], id); }
        var hash := outputPmmr.GetHash(pos);
        if hash.Some? {
          if hash.value == outputPmmr.hasher.leaf(id, pos - 1) {
            return true;
          }
        }
      }
      ok := false;
    }

    lemma BaseIs()
      ensures Base().0 == Saved(outputPmmr.backend.hashes0, outputPmmr.backend.slots0, outputPmmr.backend.leafSet.bitmapBak)
      ensures Base().1 == Saved(rproofPmmr.backend.hashes0, rproofPmmr.backend.slots0, rproofPmmr.backend.leafSet.bitmapBak)
      ensures Base().2 == Saved(kernelPmmr.backend.hashes0, kernelPmmr.backend.slots0, {})
    {}

    lemma LiveIs()
      ensures Live().0 == Saved(outputPmmr.backend.hashes, outputPmmr.backend.slots, outputPmmr.backend.leafSet.bitmap)
      ensures Live().1 == Saved(rproofPmmr.backend.hashes, rproofPmmr.backend.slots, rproofPmmr.backend.leafSet.bitmap)
      ensures Live().2 == Saved(kernelPmmr.backend.hashes, kernelPmmr.backend.slots, {})
    {}

    lemma CleanIs()
      ensures Clean() <==>
                && Live().0 == Base().0 && Live().1 == Base().1 && Live().2 == Base().2
                && outputPmmr.backend.Synced() && rproofPmmr.backend.Synced() && kernelPmmr.backend.Synced()
    {}

    /** What a discard of clean trees will need. */
    lemma CleanBase()
      requires Valid() && Clean()
      ensures Live() == Base() && Base().0.bitmap == Base().1.bitmap
      ensures outputPmmr.lastPos == rproofPmmr.lastPos
      ensures outputPmmr.lastPos == |Base().0.hashes| && rproofPmmr.lastPos == |Base().1.hashes|
      ensures kernelPmmr.lastPos == |Base().2.hashes|
      ensures forall p :: p in Base().0.bitmap ==> p >= 1 && IsLeaf(p)
      ensures Slots() == Base().0.slots && UnspentSet() == Unspent(Base().0.bitmap, outputPmmr.lastPos)
      ensures kernelPmmr.backend.slots == Base().2.slots
    {
      hide *;
      ValidIs();
      TreesParts();
      LiveIs();
      BaseIs();
      CleanIs();
      AbstractIs();
      outputPmmr.ValidParts();
      rproofPmmr.ValidParts();
      kernelPmmr.ValidParts();
    }

    lemma EmptyIs()
      requires Valid() && outputPmmr.lastPos == 0 && kernelPmmr.lastPos == 0
      ensures Slots() == [] && kernelPmmr.backend.slots == [] && UnspentSet() == {} && UtxoSet() == {}
      ensures Proofs() == [] && LeafElements(Slots()) == LeafElements(Proofs()) == LeafElements(kernelPmmr.backend.slots) == []
    {
      hide Trees, Indexed;
      ValidIs();
      TreesParts();
      outputPmmr.ValidParts();
      rproofPmmr.ValidParts();
      kernelPmmr.ValidParts();
    }

    /** Nothing was ever created, so an index without entries is exact and newest. */
    lemma EmptyExactly()
      requires Slots() == [] && index == map[]
      ensures Exactly() && Newest()
    {}

    lemma AbstractIs()
      ensures Slots() == outputPmmr.backend.slots && Proofs() == rproofPmmr.backend.slots
      ensures UnspentSet() == Unspent(outputPmmr.backend.leafSet.bitmap, outputPmmr.lastPos)
    {}

    lemma NewestIs()
      ensures Newest() <==> Latest(index, Slots())
    {}

    lemma NewestExactly()
      requires Newest()
      ensures Exactly()
    {}

    lemma ExactlyIs()
      ensures Exactly() <==> Exact(index, Slots())
    {}

    lemma FinalIs()
      ensures Final() <==> LastOf(Slots(), UnspentSet(), |Slots()|)
    {}

    lemma UtxoIs()
      ensures UtxoSet() == Utxo(Slots(), UnspentSet())
    {}

    /** The duplicate test on any index, also one that a rewind has left behind. */
    method LooksNew(id: Elmt) returns (ok: bool)
      requires Trees() && forall c :: c in index ==> index[c] >= 1
      ensures ok <==> !Refused(index, Slots(), UnspentSet(), CommitOf(id))
    {
      hide *;
      TreesParts();
      AbstractIs();
      outputPmmr.ValidParts();
      var commit := CommitOf(id);
      RefusedParts(index, Slots(), UnspentSet(), commit);
      if commit in index {
        UnspentMember(outputPmmr.backend.leafSet.bitmap, outputPmmr.lastPos, index[commit]);
        if index[commit] in UnspentSet() { Readable(index[commit]); }
        var data := outputPmmr.GetData(index[commit]);
        if data.Some? {
          if CommitOf(data.value) == commit {
            return false;
          }
        }
      }
      ok := true;
    }

    /** validate_output: refuses exactly the commitments of unspent outputs. */
    method ValidateOutput(id: Elmt) returns (ok: bool)
      requires Valid()
      ensures ok <==> !Taken(CommitOf(id), UtxoSet())
    {
      hide *;
      ValidIs();
      UtxoIs();
      TakenIs(index, Slots(), UnspentSet(), CommitOf(id));
      forall c | c in index ensures index[c] >= 1 { IndexedAt(index, Slots(), UnspentSet(), c); }
      ok := LooksNew(id);
    }

    lemma TreesParts()
      requires Trees()
      ensures outputPmmr.Valid() && rproofPmmr.Valid() && kernelPmmr.Valid()
      ensures outputPmmr.Apart(rproofPmmr) && outputPmmr.Apart(kernelPmmr) && rproofPmmr.Apart(kernelPmmr)
      ensures outputPmmr.backend.prunable && rproofPmmr.backend.prunable && !kernelPmmr.backend.prunable
      ensures kernelPmmr.backend.pruneList.leaves == {}
      ensures outputPmmr.lastPos == rproofPmmr.lastPos
      ensures outputPmmr.backend.leafSet.bitmap == rproofPmmr.backend.leafSet.bitmap
      ensures forall p :: p in outputPmmr.backend.leafSet.bitmap ==> p >= 1 && IsLeaf(p)
    {
      hide IsLeaf, BackendTheory.View, PruneTheory.Compacted, HashSize, Merkle;
    }

    lemma TreesFrom()
      requires outputPmmr.Valid() && rproofPmmr.Valid() && kernelPmmr.Valid()
      requires outputPmmr.Apart(rproofPmmr) && outputPmmr.Apart(kernelPmmr) && rproofPmmr.Apart(kernelPmmr)
      requires outputPmmr.backend.prunable && rproofPmmr.backend.prunable && !kernelPmmr.backend.prunable
      requires kernelPmmr.backend.pruneList.leaves == {}
      requires outputPmmr.lastPos == rproofPmmr.lastPos
      requires outputPmmr.backend.leafSet.bitmap == rproofPmmr.backend.leafSet.bitmap
      requires forall p :: p in outputPmmr.backend.leafSet.bitmap ==> p >= 1 && IsLeaf(p)
      ensures Trees() && Base() == old(Base())
    {
      hide IsLeaf, BackendTheory.View, PruneTheory.Compacted, HashSize, Merkle, Pmmr.Valid;
    }

    lemma Separate()
      requires Trees()
      ensures outputPmmr != rproofPmmr && outputPmmr.backend != rproofPmmr.backend
      ensures outputPmmr.backend.hashFile != rproofPmmr.backend.hashFile && outputPmmr.backend.hashFile != rproofPmmr.backend.dataFile
      ensures outputPmmr.backend.dataFile != rproofPmmr.backend.hashFile && outputPmmr.backend.dataFile != rproofPmmr.backend.dataFile
      ensures outputPmmr.backend.leafSet != rproofPmmr.backend.leafSet && outputPmmr.backend.pruneList != rproofPmmr.backend.pruneList
      ensures outputPmmr != kernelPmmr && outputPmmr.backend != kernelPmmr.backend
      ensures outputPmmr.backend.hashFile != kernelPmmr.backend.hashFile && outputPmmr.backend.hashFile != kernelPmmr.backend.dataFile
      ensures outputPmmr.backend.dataFile != kernelPmmr.backend.hashFile && outputPmmr.backend.dataFile != kernelPmmr.backend.dataFile
      ensures outputPmmr.backend.leafSet != kernelPmmr.backend.leafSet && outputPmmr.backend.pruneList != kernelPmmr.backend.pruneList
      ensures rproofPmmr != kernelPmmr && rproofPmmr.backend != kernelPmmr.backend
      ensures rproofPmmr.backend.hashFile != kernelPmmr.backend.hashFile && rproofPmmr.backend.hashFile != kernelPmmr.backend.dataFile
      ensures rproofPmmr.backend.dataFile != kernelPmmr.backend.hashFile && rproofPmmr.backend.dataFile != kernelPmmr.backend.dataFile
      ensures rproofPmmr.backend.leafSet != kernelPmmr.backend.leafSet && rproofPmmr.backend.pruneList != kernelPmmr.backend.pruneList
    {
      hide *;
      TreesParts();
      outputPmmr.ApartIs(rproofPmmr);
      outputPmmr.ApartIs(kernelPmmr);
      rproofPmmr.ApartIs(kernelPmmr);
    }

    /** push to both trees: they stay in step. */
    method PushBoth(out: Output) returns (pos: nat)
      requires Trees()
      requires |out.id| == outputPmmr.backend.dataFile.elmtSize && |out.proof| == rproofPmmr.backend.dataFile.elmtSize
      modifies outputPmmr, outputPmmr.backend, outputPmmr.backend.hashFile, outputPmmr.backend.dataFile, outputPmmr.backend.leafSet
      modifies rproofPmmr, rproofPmmr.backend, rproofPmmr.backend.hashFile, rproofPmmr.backend.dataFile, rproofPmmr.backend.leafSet
      ensures Trees() && |old(Slots())| == old(outputPmmr.lastPos) && |Slots()| == outputPmmr.lastPos
      ensures pos == old(outputPmmr.lastPos) + 1 && old(Slots()) < Slots() && Slots()[pos - 1] == out.id
      ensures old(Proofs()) < Proofs() && |old(Proofs())| + 1 == pos && |Proofs()| == outputPmmr.lastPos
      ensures Proofs()[pos - 1] == out.proof
      ensures IsLeaf(pos) && UnspentSet() == old(UnspentSet()) + {pos}
      ensures forall p :: pos < p <= outputPmmr.lastPos ==> !IsLeaf(p)
      ensures Base() == old(Base())
    {
      hide *;
      TreesParts();
      AbstractIs();
      BaseIs();
      Separate();
      outputPmmr.ValidParts();
      rproofPmmr.ValidParts();
      ghost var n, bitmap := outputPmmr.lastPos, outputPmmr.backend.leafSet.bitmap;
      var outputPos := outputPmmr.Push(out.id);
      var rproofPos := rproofPmmr.Push(out.proof);
      outputPmmr.ValidParts();
      rproofPmmr.ValidParts();
      SameEnd(n, outputPmmr.lastPos, rproofPmmr.lastPos);
      UnspentPushed(bitmap, n, outputPmmr.lastPos);
      AbstractIs();
      BaseIs();
      TreesFrom();
      pos := outputPos.value;
    }

    /** apply_output: pushes the output and its proof at the same position of both trees. */
    method ApplyOutput(out: Output) returns (r: Applied<nat>)
      requires Valid()
      requires |out.id| == outputPmmr.backend.dataFile.elmtSize && |out.proof| == rproofPmmr.backend.dataFile.elmtSize
      modifies outputPmmr, outputPmmr.backend, outputPmmr.backend.hashFile, outputPmmr.backend.dataFile, outputPmmr.backend.leafSet
      modifies rproofPmmr, rproofPmmr.backend, rproofPmmr.backend.hashFile, rproofPmmr.backend.dataFile, rproofPmmr.backend.leafSet
      ensures Trees() && Base() == old(Base())
      ensures r.Failed? <==> Taken(CommitOf(out.id), old(UtxoSet()))
      ensures r.Failed? ==> Slots() == old(Slots()) && Proofs() == old(Proofs()) && UnspentSet() == old(UnspentSet())
      ensures r.Done? ==>
                && r.value == old(outputPmmr.lastPos) + 1 == |old(Slots())| + 1 == |old(Proofs())| + 1
                && old(Proofs()) < Proofs() && |Proofs()| == outputPmmr.lastPos && Proofs()[r.value - 1] == out.proof
                && old(Slots()) < Slots() && |Slots()| == outputPmmr.lastPos && Slots()[r.value - 1] == out.id
                && IsLeaf(r.value) && (forall p :: r.value < p <= outputPmmr.lastPos ==> !IsLeaf(p))
                && UnspentSet() == old(UnspentSet()) + {r.value}
    {
      hide IsLeaf, Indexed, BackendTheory.View, PruneTheory.Compacted, HashSize, Merkle, Pmmr.Valid, Utxo, Unspent, Taken;
      var unique := ValidateOutput(out.id);
      if !unique {
        return Failed(DuplicateCommitment);
      }
      var pos := PushBoth(out);
      r := Done(pos);
    }

    /** apply_input: succeeds exactly for a member of the UTXO set, which it spends in both trees. */
    method ApplyInput(id: Elmt) returns (r: Applied<nat>)
      requires Valid() && Injective(outputPmmr.hasher) && Clear(outputPmmr.hasher, index, Slots(), UnspentSet(), [], id)
      modifies outputPmmr.backend.leafSet, rproofPmmr.backend.leafSet
      ensures Valid() && Slots() == old(Slots())
      ensures r.Done? <==> id in old(UtxoSet())
      ensures r.Done? ==>
                && CommitOf(id) in index && r.value == index[CommitOf(id)] && r.value in old(UnspentSet())
                && UnspentSet() == old(UnspentSet()) - {r.value} && UtxoSet() == old(UtxoSet()) - {id}
      ensures r.Failed? ==> UnspentSet() == old(UnspentSet())
      ensures Base() == old(Base())
    {
      hide *;
      ValidIs();
      TreesParts();
      AbstractIs();
      BaseIs();
      UtxoIs();
      Separate();
      MemberIs(index, Slots(), UnspentSet(), id);
      ghost var bitmap := outputPmmr.backend.leafSet.bitmap;
      var commit := CommitOf(id);
      if commit !in index {
        return Failed(AlreadySpent);
      }
      var pos := index[commit];
      Entry(commit);
      if pos in UnspentSet() { NotMistaken(outputPmmr.hasher, index, Slots(), UnspentSet(), [], id); }
      var hash := outputPmmr.GetHash(pos);
      if hash.Some? && hash.value != outputPmmr.hasher.leaf(id, pos - 1) {
        return Failed(TxHashSet);
      }
      var pruned := outputPmmr.Prune(pos);
      AbstractIs();
      BaseIs();
      if pruned.Err? {
        assert false;
        return Failed(TxHashSet);
      }
      if !pruned.value {
        TreesFrom();
        ValidFrom();
        return Failed(AlreadySpent);
      }
      var _ := rproofPmmr.Prune(pos);
      UnspentPruned(bitmap, outputPmmr.lastPos, pos);
      InputRemoved(index, Slots(), Unspent(bitmap, outputPmmr.lastPos), pos);
      TreesFrom();
      ValidFrom();
      UtxoIs();
      BaseIs();
      r := Done(pos);
    }

    lemma ValidFrom()
      requires Trees() && Indexed(index, Slots(), UnspentSet())
      ensures Valid()
    {
      hide Trees, Indexed, UnspentSet, Slots;
    }

    /** apply_kernel */
    method ApplyKernel(kernel: Elmt)
      requires Valid() && |kernel| == kernelPmmr.backend.dataFile.elmtSize
      modifies kernelPmmr, kernelPmmr.backend, kernelPmmr.backend.hashFile, kernelPmmr.backend.dataFile, kernelPmmr.backend.leafSet
      ensures Valid() && Slots() == old(Slots()) && UnspentSet() == old(UnspentSet())
      ensures LeafElements(kernelPmmr.backend.slots) == LeafElements(old(kernelPmmr.backend.slots)) + [kernel]
      ensures old(kernelPmmr.backend.slots) < kernelPmmr.backend.slots && old(kernelPmmr.lastPos) < kernelPmmr.lastPos
      ensures IsLeaf(old(kernelPmmr.lastPos) + 1) && IsLeaf(kernelPmmr.lastPos + 1)
      ensures forall p :: old(kernelPmmr.lastPos) + 1 < p <= kernelPmmr.lastPos ==> !IsLeaf(p)
      ensures Base() == old(Base())
    {
      hide *;
      BaseIs();
      ValidIs();
      TreesParts();
      AbstractIs();
      Separate();
      kernelPmmr.ValidParts();
      ghost var slots := kernelPmmr.backend.slots;
      var _ := kernelPmmr.Push(kernel);
      kernelPmmr.ValidParts();
      LeafPushed(slots, kernelPmmr.backend.slots, kernel);
      AbstractIs();
      BaseIs();
      TreesFrom();
      ValidFrom();
    }

    /** The sizes that the files expect of the parts of a block. */
    ghost predicate Sized(outputs: seq<Output>, kernels: seq<Elmt>)
    {
      && (forall i :: 0 <= i < |outputs| ==>
            |outputs[i].id| == outputPmmr.backend.dataFile.elmtSize &&
            |outputs[i].proof| == rproofPmmr.backend.dataFile.elmtSize)
      && (forall i :: 0 <= i < |kernels| ==> |kernels[i]| == kernelPmmr.backend.dataFile.elmtSize)
    }

    lemma SizedFrom(outputs: seq<Output>, kernels: seq<Elmt>)
      requires forall i :: 0 <= i < |outputs| ==>
                 |outputs[i].id| == outputPmmr.backend.dataFile.elmtSize &&
                 |outputs[i].proof| == rproofPmmr.backend.dataFile.elmtSize
      requires forall i :: 0 <= i < |kernels| ==> |kernels[i]| == kernelPmmr.backend.dataFile.elmtSize
      ensures Sized(outputs, kernels)
    {}

    lemma SizedAt(outputs: seq<Output>, kernels: seq<Elmt>)
      requires Sized(outputs, kernels)
      ensures forall i :: 0 <= i < |outputs| ==>
            |outputs[i].id| == outputPmmr.backend.dataFile.elmtSize &&
            |outputs[i].proof| == rproofPmmr.backend.dataFile.elmtSize
      ensures forall i :: 0 <= i < |kernels| ==> |kernels[i]| == kernelPmmr.backend.dataFile.elmtSize
    {}

    /** One output of a block, indexed at its position; those behind it are still to come. */
    method AddOutput(out: Output, ghost rest: seq<Elmt>) returns (ok: bool)
      requires Valid() && rest != [] && rest[0] == out.id
      requires |out.id| == outputPmmr.backend.dataFile.elmtSize && |out.proof| == rproofPmmr.backend.dataFile.elmtSize
      modifies this`index
      modifies outputPmmr, outputPmmr.backend, outputPmmr.backend.hashFile, outputPmmr.backend.dataFile, outputPmmr.backend.leafSet
      modifies rproofPmmr, rproofPmmr.backend, rproofPmmr.backend.hashFile, rproofPmmr.backend.dataFile, rproofPmmr.backend.leafSet
      ensures Trees() && Base() == old(Base())
      ensures ok <==> !Taken(CommitOf(out.id), old(UtxoSet()))
      ensures ok ==>
                && Valid() && UtxoSet() == old(UtxoSet()) + {out.id}
                && |old(Slots())| == old(outputPmmr.lastPos) < outputPmmr.lastPos
                && old(Slots()) < Slots() && Slots()[old(outputPmmr.lastPos)] == out.id
                && IsLeaf(old(outputPmmr.lastPos) + 1) && IsLeaf(outputPmmr.lastPos + 1)
                && (forall p :: old(outputPmmr.lastPos) + 1 < p <= outputPmmr.lastPos ==> !IsLeaf(p))
                && UnspentSet() == old(UnspentSet()) + {old(outputPmmr.lastPos) + 1}
                && LeafElements(Slots()) == LeafElements(old(Slots())) + [out.id]
                && old(Proofs()) <= Proofs() && LeafElements(Proofs()) == LeafElements(old(Proofs())) + [out.proof]
                && (old(Newest()) ==> Newest()) && (old(Exactly()) ==> Exactly()) && (old(Final()) ==> Final())
                && (forall id :: old(Clear(outputPmmr.hasher, index, Slots(), UnspentSet(), rest, id)) ==>
                      Clear(outputPmmr.hasher, index, Slots(), UnspentSet(), rest[1..], id))
    {
      hide *;
      ValidIs();
      UtxoIs();
      NewestIs();
      ExactlyIs();
      FinalIs();
      ghost var slots, proofs, before, was := Slots(), Proofs(), UnspentSet(), index;
      var pos := ApplyOutput(out);
      if pos.Failed? {
        return false;
      }
      OutputAdded(index, slots, before, out.id, Slots(), pos.value);
      AddedParts(outputPmmr.hasher, was, slots, before, rest, Slots(), pos.value);
      LeafPushed(slots, Slots(), out.id);
      LeafPushed(proofs, Proofs(), out.proof);
      TreesParts();
      outputPmmr.ValidParts();
      index := index[CommitOf(out.id) := pos.value];
      ValidFrom();
      UtxoIs();
      NewestIs();
      ExactlyIs();
      FinalIs();
      ok := true;
    }

    /** The outputs of a block in order. */
    method ApplyOutputs(outputs: seq<Output>) returns (ok: bool)
      requires Valid() && Sized(outputs, [])
      modifies this`index
      modifies outputPmmr, outputPmmr.backend, outputPmmr.backend.hashFile, outputPmmr.backend.dataFile, outputPmmr.backend.leafSet
      modifies rproofPmmr, rproofPmmr.backend, rproofPmmr.backend.hashFile, rproofPmmr.backend.dataFile, rproofPmmr.backend.leafSet
      ensures ok <==> CanAdd(old(UtxoSet()), Ids(outputs))
      ensures ok ==>
                && Valid() && UtxoSet() == old(UtxoSet()) + S.ElementsOf(Ids(outputs))
                && old(outputPmmr.lastPos) <= outputPmmr.lastPos && old(Slots()) <= Slots() && old(Proofs()) <= Proofs()
                && LeafElements(Slots()) == LeafElements(old(Slots())) + Ids(outputs)
                && LeafElements(Proofs()) == LeafElements(old(Proofs())) + ProofsOf(outputs)
                && UnspentSet() == old(UnspentSet()) + NewLeaves(old(outputPmmr.lastPos), outputPmmr.lastPos)
                && outputPmmr.lastPos == SizeAfter(old(outputPmmr.lastPos), |outputs|)
                && Fills(old(outputPmmr.lastPos), outputPmmr.lastPos, Slots(), Ids(outputs))
                && (old(Newest()) ==> Newest()) && (old(Exactly()) ==> Exactly()) && (old(Final()) ==> Final())
                && (forall id :: old(Clear(outputPmmr.hasher, index, Slots(), UnspentSet(), Ids(outputs), id)) ==>
                      Clear(outputPmmr.hasher, index, Slots(), UnspentSet(), [], id))
      ensures Trees() && Base() == old(Base())
    {
      hide *;
      ValidIs();
      SizedAt(outputs, []);
      ghost var n, utxo, unspent, ids, proofs := outputPmmr.lastPos, UtxoSet(), UnspentSet(), Ids(outputs), ProofsOf(outputs);
      ghost var before, beforeProofs := LeafElements(Slots()), LeafElements(Proofs());
      CanAddAll(utxo, ids);
      NewLeavesNone(n);
      outputPmmr.ValidParts();
      SizeNow(n);
      assert ids[0..] == ids;
      FillsNone(n, Slots(), ids);
      for i := 0 to |outputs|
        invariant Fills(n, outputPmmr.lastPos, Slots(), ids)
        invariant (old(Newest()) ==> Newest()) && (old(Exactly()) ==> Exactly()) && (old(Final()) ==> Final())
        invariant forall id :: old(Clear(outputPmmr.hasher, index, Slots(), UnspentSet(), Ids(outputs), id)) ==>
                    Clear(outputPmmr.hasher, index, Slots(), UnspentSet(), ids[i..], id)
        invariant Valid() && CanAdd(utxo, ids[..i]) && UtxoSet() == utxo + S.ElementsOf(ids[..i])
        invariant Trees() && Base() == old(Base()) && outputPmmr.lastPos == SizeAfter(n, i)
        invariant old(Slots()) <= Slots() && old(Proofs()) <= Proofs()
        invariant LeafElements(Slots()) == before + ids[..i] && LeafElements(Proofs()) == beforeProofs + proofs[..i]
        invariant n <= outputPmmr.lastPos && UnspentSet() == unspent + NewLeaves(n, outputPmmr.lastPos)
      {
        CanAddStep(utxo, ids, i);
        ghost var slots, m := Slots(), outputPmmr.lastPos;
        ok := AddOutput(outputs[i], ids[i..]);
        if !ok { return; }
        NewLeavesStep(n, m, outputPmmr.lastPos);
        FillsStep(n, m, slots, outputPmmr.lastPos, Slots(), ids, ids[i]);
        SizeGrows(n, i, m, outputPmmr.lastPos);
        OneMore(before, ids, i);
        OneMore(beforeProofs, proofs, i);
        assert ids[i..][1..] == ids[i + 1..];
      }
      assert ids[|outputs|..] == [] && ids[..|outputs|] == ids && proofs[..|outputs|] == proofs;
      ValidIs();
      ok := true;
    }

    lemma OneMore(before: seq<Elmt>, xs: seq<Elmt>, i: nat)
      requires i < |xs|
      ensures before + xs[..i] + [xs[i]] == before + xs[..i + 1]
    {}

    /** The inputs of a block. */
    method ApplyInputs(inputs: seq<Elmt>) returns (ok: bool)
      requires Valid() && Injective(outputPmmr.hasher) && Told([], inputs)
      modifies outputPmmr.backend.leafSet, rproofPmmr.backend.leafSet
      ensures Valid() && Slots() == old(Slots()) && Base() == old(Base())
      ensures ok <==> CanSpend(old(UtxoSet()), inputs)
      ensures ok ==>
                && UtxoSet() == old(UtxoSet()) - S.ElementsOf(inputs)
                && InputBitmap(index, inputs) <= old(UnspentSet())
                && UnspentSet() == old(UnspentSet()) - InputBitmap(index, inputs)
    {
      hide *;
      ghost var utxo, unspent := UtxoSet(), UnspentSet();
      CanSpendAll(utxo, inputs);
      InputBitmapNone(index, inputs);
      ToldAt([], inputs);
      for i := 0 to |inputs|
        invariant Valid() && Slots() == old(Slots()) && Base() == old(Base())
        invariant CanSpend(utxo, inputs[..i]) && UtxoSet() == utxo - S.ElementsOf(inputs[..i])
        invariant InputBitmap(index, inputs[..i]) <= unspent
        invariant UnspentSet() == unspent - InputBitmap(index, inputs[..i])
      {
        CanSpendStep(utxo, inputs, i);
        ClearLess(outputPmmr.hasher, index, Slots(), unspent, [], UnspentSet(), inputs[i]);
        var spent := ApplyInput(inputs[i]);
        if spent.Failed? {
          return false;
        }
        InputBitmapStep(index, inputs, i);
      }
      ok := true;
    }

    /** The kernels of a block. */
    method ApplyKernels(kernels: seq<Elmt>)
      requires Valid() && Sized([], kernels)
      modifies kernelPmmr, kernelPmmr.backend, kernelPmmr.backend.hashFile, kernelPmmr.backend.dataFile, kernelPmmr.backend.leafSet
      ensures Valid() && Slots() == old(Slots()) && UnspentSet() == old(UnspentSet())
      ensures LeafElements(kernelPmmr.backend.slots) == LeafElements(old(kernelPmmr.backend.slots)) + kernels
      ensures old(kernelPmmr.backend.slots) <= kernelPmmr.backend.slots
      ensures Base() == old(Base()) && kernelPmmr.lastPos == SizeAfter(old(kernelPmmr.lastPos), |kernels|)
    {
      hide *;
      ValidIs();
      kernelPmmr.ValidParts();
      SizeNow(kernelPmmr.lastPos);
      SizedAt([], kernels);
      ghost var before := LeafElements(kernelPmmr.backend.slots);
      for i := 0 to |kernels|
        invariant Valid() && Slots() == old(Slots()) && UnspentSet() == old(UnspentSet()) && Base() == old(Base())
        invariant LeafElements(kernelPmmr.backend.slots) == before + kernels[..i]
        invariant kernelPmmr.lastPos == SizeAfter(old(kernelPmmr.lastPos), i)
        invariant old(kernelPmmr.backend.slots) <= kernelPmmr.backend.slots
      {
        ghost var m := kernelPmmr.lastPos;
        ApplyKernel(kernels[i]);
        SizeGrows(old(kernelPmmr.lastPos), i, m, kernelPmmr.lastPos);
        assert before + kernels[..i] + [kernels[i]] == before + kernels[..i + 1];
      }
      assert kernels[..|kernels|] == kernels;
    }

    /** apply_block: succeeds exactly when the block fits the UTXO set, and then adds its outputs and takes its inputs. */
    method ApplyBlock(outputs: seq<Output>, inputs: seq<Elmt>, kernels: seq<Elmt>) returns (ok: bool)
      requires Valid() && Sized(outputs, kernels) && Injective(outputPmmr.hasher) && Told(Ids(outputs), inputs)
      modifies this`index
      modifies outputPmmr, outputPmmr.backend, outputPmmr.backend.hashFile, outputPmmr.backend.dataFile, outputPmmr.backend.leafSet
      modifies rproofPmmr, rproofPmmr.backend, rproofPmmr.backend.hashFile, rproofPmmr.backend.dataFile, rproofPmmr.backend.leafSet
      modifies kernelPmmr, kernelPmmr.backend, kernelPmmr.backend.hashFile, kernelPmmr.backend.dataFile, kernelPmmr.backend.leafSet
      ensures ok <==> Applicable(old(UtxoSet()), Ids(outputs), inputs)
      ensures ok ==>
                && Valid() && UtxoSet() == old(UtxoSet()) + S.ElementsOf(Ids(outputs)) - S.ElementsOf(inputs)
                && LeafElements(Slots()) == LeafElements(old(Slots())) + Ids(outputs)
                && old(Proofs()) <= Proofs() && LeafElements(Proofs()) == LeafElements(old(Proofs())) + ProofsOf(outputs)
                && LeafElements(kernelPmmr.backend.slots) == LeafElements(old(kernelPmmr.backend.slots)) + kernels
                && Spends(old(UnspentSet()), old(outputPmmr.lastPos), UnspentSet(), outputPmmr.lastPos,
                          InputBitmap(index, inputs))
                && Fills(old(outputPmmr.lastPos), outputPmmr.lastPos, Slots(), Ids(outputs))
                && InputBitmap(index, inputs) ==
                   Places(Slots(), old(UnspentSet()) + NewLeaves(old(outputPmmr.lastPos), outputPmmr.lastPos), inputs)
                && |InputBitmap(index, inputs)| == |inputs|
                && old(Slots()) <= Slots() && old(kernelPmmr.backend.slots) <= kernelPmmr.backend.slots
                && outputPmmr.lastPos == SizeAfter(old(outputPmmr.lastPos), |outputs|)
                && kernelPmmr.lastPos == SizeAfter(old(kernelPmmr.lastPos), |kernels|)
                && (old(Newest()) ==> Newest()) && (old(Exactly()) ==> Exactly()) && (old(Final()) ==> Final())
      ensures Trees() && Base() == old(Base())
    {
      hide *;
      ValidIs();
      TreesParts();
      Separate();
      SizedParts(outputs, kernels);
      ApplicableIs(UtxoSet(), Ids(outputs), inputs);
      ToldAt(Ids(outputs), inputs);
      ok := ApplyOutputs(outputs);
      if !ok { return; }
      ToldFrom([], inputs);
      NewestIs();
      ExactlyIs();
      FinalIs();
      ghost var unspent := UnspentSet();
      AbstractIs();
      ValidIs();
      UtxoIs();
      SpendPlaces(index, Slots(), unspent, inputs);
      ok := ApplyInputs(inputs);
      if !ok {
        ValidIs();
        return;
      }
      UtxoIs();
      ghost var utxo := UtxoSet();
      ApplyKernels(kernels);
      AbstractIs();
      ValidIs();
      UtxoIs();
      NewestIs();
      ExactlyIs();
      FinalIs();
      if LastOf(Slots(), unspent, |Slots()|) { LastLess(Slots(), unspent, UnspentSet(), |Slots()|); }
      SpendsIs(old(UnspentSet()), old(outputPmmr.lastPos), UnspentSet(), outputPmmr.lastPos, InputBitmap(index, inputs));
    }

    /** The trees are written to their files. */
    method Sync()
      requires Valid()
      modifies outputPmmr, outputPmmr.backend, outputPmmr.backend.hashFile, outputPmmr.backend.dataFile, outputPmmr.backend.leafSet
      modifies rproofPmmr, rproofPmmr.backend, rproofPmmr.backend.hashFile, rproofPmmr.backend.dataFile, rproofPmmr.backend.leafSet
      modifies kernelPmmr, kernelPmmr.backend, kernelPmmr.backend.hashFile, kernelPmmr.backend.dataFile, kernelPmmr.backend.leafSet
      ensures Valid() && Clean() && Live() == old(Live()) && Slots() == old(Slots()) && UnspentSet() == old(UnspentSet())
      ensures outputPmmr.lastPos == old(outputPmmr.lastPos) && kernelPmmr.lastPos == old(kernelPmmr.lastPos)
    {
      hide *;
      ValidIs();
      TreesParts();
      Separate();
      AbstractIs();
      LiveIs();
      outputPmmr.ValidParts();
      rproofPmmr.ValidParts();
      kernelPmmr.ValidParts();
      outputPmmr.Sync();
      rproofPmmr.Sync();
      kernelPmmr.Sync();
      AbstractIs();
      LiveIs();
      BaseIs();
      CleanIs();
      TreesFrom();
      ValidFrom();
    }

    /** The trees go back to what is in their files and to the sizes they had then. */
    method Discard(outputPos: nat, rproofPos: nat, kernelPos: nat)
      requires Trees() && outputPos == rproofPos && Base().0.bitmap == Base().1.bitmap
      requires outputPos == |Base().0.hashes| && rproofPos == |Base().1.hashes| && kernelPos == |Base().2.hashes|
      requires forall p :: p in Base().0.bitmap ==> p >= 1 && IsLeaf(p)
      modifies outputPmmr, outputPmmr.backend, outputPmmr.backend.hashFile, outputPmmr.backend.dataFile, outputPmmr.backend.leafSet
      modifies rproofPmmr, rproofPmmr.backend, rproofPmmr.backend.hashFile, rproofPmmr.backend.dataFile, rproofPmmr.backend.leafSet
      modifies kernelPmmr, kernelPmmr.backend, kernelPmmr.backend.hashFile, kernelPmmr.backend.dataFile, kernelPmmr.backend.leafSet
      ensures Trees() && Clean() && Base() == old(Base())
      ensures outputPmmr.lastPos == outputPos && kernelPmmr.lastPos == kernelPos
      ensures Slots() == Base().0.slots && UnspentSet() == Unspent(Base().0.bitmap, outputPos)
    {
      hide *;
      TreesParts();
      Separate();
      BaseIs();
      outputPmmr.Discard(outputPos);
      rproofPmmr.Discard(rproofPos);
      kernelPmmr.Discard(kernelPos);
      AbstractIs();
      LiveIs();
      BaseIs();
      CleanIs();
      TreesFrom();
    }

    /** rewind_to_pos: the leaves beyond the size go, the given positions come back. */
    method RewindToPos(outputPos: nat, kernelPos: nat, rewindRm: set<nat>)
      requires Trees() && Clean() && IsLeaf(outputPos + 1) && IsLeaf(kernelPos + 1)
      requires outputPos <= outputPmmr.lastPos && kernelPos <= kernelPmmr.lastPos
      requires forall p :: p in rewindRm ==> p >= 1 && IsLeaf(p)
      requires rewindRm !! outputPmmr.backend.pruneList.leaves && rewindRm !! rproofPmmr.backend.pruneList.leaves
      requires forall p :: p in outputPmmr.backend.pruneList.leaves ==> p <= outputPos
      requires forall p :: p in rproofPmmr.backend.pruneList.leaves ==> p <= outputPos
      modifies outputPmmr, outputPmmr.backend, outputPmmr.backend.hashFile, outputPmmr.backend.dataFile, outputPmmr.backend.leafSet
      modifies rproofPmmr, rproofPmmr.backend, rproofPmmr.backend.hashFile, rproofPmmr.backend.dataFile, rproofPmmr.backend.leafSet
      modifies kernelPmmr, kernelPmmr.backend, kernelPmmr.backend.hashFile, kernelPmmr.backend.dataFile, kernelPmmr.backend.leafSet
      ensures Trees() && Base() == old(Base())
      ensures outputPmmr.lastPos == outputPos <= |old(Slots())| && Slots() == old(Slots())[..outputPos]
      ensures outputPos <= |old(Proofs())| && Proofs() == old(Proofs())[..outputPos]
      ensures kernelPmmr.lastPos == kernelPos <= |old(kernelPmmr.backend.slots)|
      ensures kernelPmmr.backend.slots == old(kernelPmmr.backend.slots)[..kernelPos]
      ensures UnspentSet() == Unspent(old(UnspentSet()) + rewindRm, outputPos)
      ensures forall x :: x > outputPos ==> (x in outputPmmr.backend.leafSet.bitmap <==> x in rewindRm)
    {
      hide *;
      TreesParts();
      Separate();
      BaseIs();
      LiveIs();
      CleanIs();
      AbstractIs();
      outputPmmr.ValidParts();
      rproofPmmr.ValidParts();
      kernelPmmr.ValidParts();
      outputPmmr.backend.SyncedIs();
      rproofPmmr.backend.SyncedIs();
      kernelPmmr.backend.SyncedIs();
      ghost var bitmap, n := outputPmmr.backend.leafSet.bitmap, outputPmmr.lastPos;
      outputPmmr.Rewind(outputPos, rewindRm);
      RewoundEnd(outputPos, outputPmmr.lastPos);
      rproofPmmr.Rewind(outputPos, rewindRm);
      RewoundEnd(outputPos, rproofPmmr.lastPos);
      kernelPmmr.Rewind(kernelPos, {});
      RewoundEnd(kernelPos, kernelPmmr.lastPos);
      UnspentRewound(bitmap, n, rewindRm, outputPos, outputPmmr.backend.leafSet.bitmap);
      BaseIs();
      AbstractIs();
      TreesFrom();
    }

    /** Both trees are compacted alike. */
    method Compact(cutoff: nat, rewindRm: set<nat>)
      requires Valid() && Clean() && cutoff <= outputPmmr.lastPos
      modifies outputPmmr.backend, outputPmmr.backend.hashFile, outputPmmr.backend.dataFile
      modifies outputPmmr.backend.leafSet, outputPmmr.backend.pruneList
      modifies rproofPmmr.backend, rproofPmmr.backend.hashFile, rproofPmmr.backend.dataFile
      modifies rproofPmmr.backend.leafSet, rproofPmmr.backend.pruneList
      ensures Valid() && Clean() && Live() == old(Live()) && Slots() == old(Slots()) && UnspentSet() == old(UnspentSet())
      ensures forall x :: x in outputPmmr.backend.pruneList.leaves <==>
                (x in old(outputPmmr.backend.pruneList.leaves) ||
                 (1 <= x <= cutoff && IsLeaf(x) && x !in UnspentSet() && x !in rewindRm))
      ensures forall x :: x in rproofPmmr.backend.pruneList.leaves <==>
                (x in old(rproofPmmr.backend.pruneList.leaves) ||
                 (1 <= x <= cutoff && IsLeaf(x) && x !in UnspentSet() && x !in rewindRm))
    {
      hide *;
      ValidIs();
      TreesParts();
      Separate();
      BaseIs();
      LiveIs();
      CleanIs();
      AbstractIs();
      outputPmmr.Compact(cutoff, rewindRm);
      rproofPmmr.Compact(cutoff, rewindRm);
      BaseIs();
      LiveIs();
      CleanIs();
      AbstractIs();
      TreesFrom();
      ValidFrom();
      forall x | x in outputPmmr.backend.leafSet.bitmap && 1 <= x <= cutoff ensures x in UnspentSet() {
        UnspentMember(outputPmmr.backend.leafSet.bitmap, outputPmmr.lastPos, x);
      }
      forall x | x in UnspentSet() ensures x in outputPmmr.backend.leafSet.bitmap {
        UnspentMember(outputPmmr.backend.leafSet.bitmap, outputPmmr.lastPos, x);
      }
    }

    /** validate_block: every output is new and every input is unspent. */
    method ValidateBlock(outputs: seq<Output>, inputs: seq<Elmt>) returns (ok: bool)
      requires Valid() && Injective(outputPmmr.hasher) && Told(Ids(outputs), inputs)
      ensures ok <==> Admits(UtxoSet(), Ids(outputs), inputs)
    {
      hide *;
      AdmitsIs(UtxoSet(), outputs, inputs);
      for i := 0 to |outputs|
        invariant forall k :: 0 <= k < i ==> !Taken(CommitOf(outputs[k].id), UtxoSet())
      {
        var valid := ValidateOutput(outputs[i].id);
        if !valid { return false; }
      }
      for i := 0 to |inputs|
        invariant forall k :: 0 <= k < i ==> inputs[k] in UtxoSet()
      {
        ToldAt(Ids(outputs), inputs);
        ClearLess(outputPmmr.hasher, index, Slots(), UnspentSet(), Ids(outputs), UnspentSet(), inputs[i]);
        var valid := ValidateInput(inputs[i]);
        if !valid { return false; }
      }
      ok := true;
    }

    /** outputs_committed: the commitment of every unspent output, once. */
    method OutputsCommitted(opening: Elmt -> S.Commitment) returns (commits: seq<S.Commitment>, ghost ids: seq<Elmt>)
      requires Valid()
      ensures Distinct(ids) && S.ElementsOf(ids) == UtxoSet() && commits == S.Image(opening, ids)
      ensures S.Sum(commits) == S.SumSet(opening, UtxoSet())
    {
      hide *;
      ValidIs();
      TreesParts();
      AbstractIs();
      outputPmmr.ValidParts();
      var leafPos := Members(outputPmmr.backend.leafSet.bitmap);
      commits, ids := [], [];
      ghost var places: seq<nat> := [];
      ListingStart(Slots());
      for i := 0 to |leafPos|
        invariant |commits| == |ids| && forall k :: 0 <= k < |ids| ==> commits[k] == opening(ids[k])
        invariant Listing(places, ids, Slots()) && (forall k :: 0 <= k < |places| ==> places[k] in UnspentSet())
        invariant forall k :: 0 <= k < |places| ==> places[k] in leafPos[..i]
        invariant forall k :: 0 <= k < i && leafPos[k] <= outputPmmr.lastPos ==> leafPos[k] in places
      {
        MembersPlace(outputPmmr.backend.leafSet.bitmap, i);
        UnspentMember(outputPmmr.backend.leafSet.bitmap, outputPmmr.lastPos, leafPos[i]);
        var data := outputPmmr.GetData(leafPos[i]);
        if leafPos[i] <= outputPmmr.lastPos {
          Readable(leafPos[i]);
        }
        if data.Some? {
          ListingStep(places, ids, Slots(), leafPos[i]);
          commits := commits + [opening(data.value)];
          ids := ids + [data.value];
          places := places + [leafPos[i]];
        }
      }
      MembersSet(outputPmmr.backend.leafSet.bitmap);
      forall p | p in UnspentSet() ensures p in places {
        UnspentMember(outputPmmr.backend.leafSet.bitmap, outputPmmr.lastPos, p);
      }
      ListingAll(index, places, ids, Slots(), UnspentSet());
      UtxoIs();
      S.SumSetListing(opening, ids);
    }

    /** kernels_committed: the excess of every kernel, in order. */
    method KernelsCommitted(excess: Elmt -> S.Commitment) returns (commits: seq<S.Commitment>)
      requires Valid()
      ensures commits == S.Image(excess, LeafElements(kernelPmmr.backend.slots))
    {
      hide *;
      ValidIs();
      TreesParts();
      kernelPmmr.ValidParts();
      commits := [];
      LeafElementsNone(kernelPmmr.backend.slots);
      for n := 1 to kernelPmmr.lastPos + 1
        invariant commits == S.Image(excess, LeafElements(kernelPmmr.backend.slots[..n - 1]))
      {
        LeafElementsStep(kernelPmmr.backend.slots, n);
        LeafIs(n);
        var height := Navigation.PostorderHeight(n);
        if height == 0 {
          KernelReadable(n);
          var data := kernelPmmr.GetData(n);
          if data.Some? {
            commits := commits + [excess(data.value)];
          }
        }
      }
      assert kernelPmmr.backend.slots[..kernelPmmr.lastPos] == kernelPmmr.backend.slots;
    }

    lemma KernelReadable(n: nat)
      requires kernelPmmr.Valid() && kernelPmmr.backend.pruneList.leaves == {}
      requires 1 <= n <= kernelPmmr.lastPos && IsLeaf(n)
      ensures |kernelPmmr.backend.slots| == kernelPmmr.lastPos
      ensures kernelPmmr.backend.DataAt(n) == Some(kernelPmmr.backend.slots[n - 1])
    {
      hide *;
      kernelPmmr.ValidParts();
      FirstLeaf();
      if PruneTheory.Compacted(n, {}) { BackendTheory.CompactedInside(n, {}, 0); }
      kernelPmmr.DataAtIs(n);
    }

    /** rebuild_index: from the unspent leaves alone. */
    method RebuildIndex()
      requires Trees() && Unique(Slots(), UnspentSet())
      modifies this`index
      ensures Valid() && Exactly()
    {
      hide *;
      TreesParts();
      AbstractIs();
      outputPmmr.ValidParts();
      index := map[];
      ghost var bitmap, last := outputPmmr.backend.leafSet.bitmap, outputPmmr.lastPos;
      ghost var found: set<nat> := {};
      IndexNothing(Slots());
      var leafPos := Members(outputPmmr.backend.leafSet.bitmap);
      for i := 0 to |leafPos|
        invariant Indexed(index, Slots(), found) && Exact(index, Slots()) && found <= UnspentSet()
        invariant forall p :: p in found ==> p in leafPos[..i]
        invariant forall k :: 0 <= k < i && leafPos[k] <= last ==> leafPos[k] in found
      {
        MembersPlace(bitmap, i);
        UnspentMember(bitmap, last, leafPos[i]);
        var data := outputPmmr.GetData(leafPos[i]);
        if leafPos[i] <= outputPmmr.lastPos {
          Readable(leafPos[i]);
        }
        if data.Some? {
          IndexOne(index, Slots(), found, UnspentSet(), leafPos[i]);
          index := index[CommitOf(data.value) := leafPos[i]];
          found := found + {leafPos[i]};
        }
      }
      MembersSet(bitmap);
      forall p | p in UnspentSet() ensures p in found { UnspentMember(bitmap, last, p); }
      assert found == UnspentSet();
      ExactlyIs();
      ValidFrom();
    }

    lemma SizedParts(outputs: seq<Output>, kernels: seq<Elmt>)
      requires Sized(outputs, kernels)
      ensures Sized(outputs, []) && Sized([], kernels)
    {}
  }

  lemma RefusedParts(index: map<Elmt, nat>, slots: seq<Elmt>, unspent: set<nat>, c: Elmt)
    ensures Refused(index, slots, unspent, c) <==>
              c in index && index[c] in unspent && 1 <= index[c] <= |slots| && CommitOf(slots[index[c] - 1]) == c
  {}

  /** The leaves after position n, up to n'. */
  ghost function NewLeaves(n: nat, n': nat): (ps: set<nat>)
    ensures forall p :: p in ps <==> n < p <= n' && IsLeaf(p)
  {
    set p | n < p <= n' && IsLeaf(p)
  }

  /** The leaves after position n, up to n', hold some of the identifiers. */
  ghost predicate Fills(n: nat, n': nat, slots: seq<Elmt>, ids: seq<Elmt>) {
    forall p :: n < p <= n' && p <= |slots| && IsLeaf(p) ==> slots[p - 1] in ids
  }

  lemma FillsNone(n: nat, slots: seq<Elmt>, ids: seq<Elmt>)
    ensures Fills(n, n, slots, ids)
  {}

  lemma FillsStep(n: nat, m: nat, slots: seq<Elmt>, m': nat, slots': seq<Elmt>, ids: seq<Elmt>, id: Elmt)
    requires Fills(n, m, slots, ids) && |slots| == m < m' && slots < slots' && slots'[m] == id && id in ids
    requires forall p :: m + 1 < p <= m' ==> !IsLeaf(p)
    ensures Fills(n, m', slots', ids)
  {
    hide IsLeaf;
  }

  /** From one block to the next, the new leaves come in and the bitmap goes out. */
  ghost predicate Spends(u: set<nat>, n: nat, u': set<nat>, n': nat, bitmap: set<nat>) {
    n <= n' && bitmap <= u + NewLeaves(n, n') && u' == u + NewLeaves(n, n') - bitmap
  }

  /** The positions that inputs take when they can be spent. */
  lemma SpendPlaces(index: map<Elmt, nat>, slots: seq<Elmt>, unspent: set<nat>, inputs: seq<Elmt>)
    requires Indexed(index, slots, unspent)
    ensures CanSpend(Utxo(slots, unspent), inputs) ==>
              InputBitmap(index, inputs) == Places(slots, unspent, inputs) && |InputBitmap(index, inputs)| == |inputs|
  {
    hide Indexed, Utxo, InputBitmap, Places;
    if CanSpend(Utxo(slots, unspent), inputs) {
      BitmapPlaces(index, slots, unspent, inputs);
      BitmapSize(index, slots, unspent, inputs);
    }
  }

  lemma SpendsIs(u: set<nat>, n: nat, u': set<nat>, n': nat, bitmap: set<nat>)
    ensures Spends(u, n, u', n', bitmap) <==>
              n <= n' && bitmap <= u + NewLeaves(n, n') && u' == u + NewLeaves(n, n') - bitmap
  {}

  lemma AdmitsIs(utxo: set<Elmt>, outputs: seq<Output>, inputs: seq<Elmt>)
    ensures Admits(utxo, Ids(outputs), inputs) <==>
              && (forall i :: 0 <= i < |outputs| ==> !Taken(CommitOf(outputs[i].id), utxo))
              && (forall i :: 0 <= i < |inputs| ==> inputs[i] in utxo)
  {
    hide CommitOf, Taken;
    var ids := Ids(outputs);
    assert forall i :: 0 <= i < |ids| ==> ids[i] == outputs[i].id;
  }

  lemma ApplicableIs(utxo: set<Elmt>, outputs: seq<Elmt>, inputs: seq<Elmt>)
    ensures Applicable(utxo, outputs, inputs) <==>
              CanAdd(utxo, outputs) && CanSpend(utxo + S.ElementsOf(outputs), inputs)
  {}

  /** The size of a range of size n after m more leaves. */
  function SizeAfter(n: nat, m: nat): (s: nat) {
    Navigation.MmrSize(Navigation.LeafCount(n) + m)
  }

  lemma SizeNow(n: nat)
    requires IsLeaf(n + 1)
    ensures SizeAfter(n, 0) == n
  {
    hide IsLeaf, Navigation.MmrSize, Navigation.LeafCount, Height;
    Navigation.LeafPosInverse(n + 1);
    Navigation.LeafCountStep(n + 1);
  }

  lemma {:induction false} NoLeafCount(m: nat, m': nat)
    requires m <= m' && forall p :: m < p <= m' ==> !IsLeaf(p)
    ensures Navigation.LeafCount(m') == Navigation.LeafCount(m)
  {
    hide IsLeaf, Navigation.LeafCount, Height;
    if m < m' {
      NoLeafCount(m, m' - 1);
      Navigation.LeafCountStep(m');
    }
  }

  lemma SizeGrows(n: nat, i: nat, m: nat, m': nat)
    requires m == SizeAfter(n, i) && m < m' && IsLeaf(m + 1) && IsLeaf(m' + 1)
    requires forall p :: m + 1 < p <= m' ==> !IsLeaf(p)
    ensures m' == SizeAfter(n, i + 1)
  {
    hide IsLeaf, Navigation.MmrSize, Navigation.LeafCount, Height;
    Navigation.MmrSizeLeaves(Navigation.LeafCount(n) + i);
    Navigation.LeafCountStep(m + 1);
    NoLeafCount(m + 1, m');
    Navigation.LeafPosInverse(m' + 1);
    Navigation.LeafCountStep(m' + 1);
  }

  lemma NewLeavesNone(n: nat)
    ensures NewLeaves(n, n) == {}
  {}

  lemma NewLeavesStep(n: nat, m: nat, m': nat)
    requires n <= m < m' && IsLeaf(m + 1) && forall p :: m + 1 < p <= m' ==> !IsLeaf(p)
    ensures NewLeaves(n, m') == NewLeaves(n, m) + {m + 1}
  {
    hide IsLeaf;
  }

  /** The end of a range that grows by one leaf is determined. */
  lemma SameEnd(n: nat, a: nat, b: nat)
    requires n < a && n < b && IsLeaf(a + 1) && IsLeaf(b + 1)
    requires forall p :: n + 1 < p <= a ==> !IsLeaf(p)
    requires forall p :: n + 1 < p <= b ==> !IsLeaf(p)
    ensures a == b
  {
    hide IsLeaf;
  }

  lemma UnspentMember(bitmap: set<nat>, n: nat, p: nat)
    ensures p in Unspent(bitmap, n) <==> p in bitmap && 1 <= p <= n
  {}

  lemma FirstLeaf()
    ensures IsLeaf(1)
  {}

  lemma RewoundEnd(position: nat, end: nat)
    requires position <= end && IsLeaf(position + 1) && forall p :: position < p <= end ==> !IsLeaf(p)
    ensures position == end
  {
    hide IsLeaf;
  }

  lemma UnspentRewound(bitmap: set<nat>, n: nat, rewindRm: set<nat>, n': nat, bitmap': set<nat>)
    requires n' <= n && forall x :: x in bitmap' <==> (x in bitmap && x <= n') || x in rewindRm
    ensures Unspent(bitmap', n') == Unspent(Unspent(bitmap, n) + rewindRm, n')
  {}

  lemma UnspentPruned(bitmap: set<nat>, n: nat, p: nat)
    ensures Unspent(bitmap - {p}, n) == Unspent(bitmap, n) - {p}
  {}

  lemma UnspentPushed(bitmap: set<nat>, n: nat, n': nat)
    requires n < n' && IsLeaf(n + 1) && forall p :: n + 1 < p <= n' ==> !IsLeaf(p)
    requires forall p :: p in bitmap ==> p >= 1 && IsLeaf(p)
    ensures Unspent(bitmap + {n + 1}, n') == Unspent(bitmap, n) + {n + 1}
  {
    hide IsLeaf;
  }
}
