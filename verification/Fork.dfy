/** Leaving a branch of the chain for another one, and taking back what was done. */
module Forks {
  import opened AppendOnly
  import opened Emission
  import opened Extensions
  import opened Histories
  import opened Outputs
  import opened Pmmrs
  import opened Postorder
  import opened Sums
  import opened TxHashSets
  import opened Wrappers

  // Runs of blocks

  function HeadersOf(blocks: seq<Block>): (hs: seq<Header>)
    ensures |hs| == |blocks| && forall i :: 0 <= i < |hs| ==> hs[i] == blocks[i].header
  {
    seq(|blocks|, i requires 0 <= i < |blocks| => blocks[i].header)
  }

  /** Every block continues the chain with those before it. */
  ghost predicate Branch(headers: seq<Header>, blocks: seq<Block>) {
    forall i :: 0 <= i < |blocks| ==> Continues(headers + HeadersOf(blocks[..i]), blocks[i].header)
  }

  /** The ledger that a run of blocks makes of a ledger. */
  ghost function NextAll(l: Ledger, blocks: seq<Block>): (r: Ledger) {
    if blocks == [] then l else Next(NextAll(l, blocks[..|blocks| - 1]), blocks[|blocks| - 1])
  }

  ghost predicate TakesAll(t: TxHashSet, l: Ledger, blocks: seq<Block>) {
    forall i :: 0 <= i < |blocks| ==> t.Takes(NextAll(l, blocks[..i]), blocks[i])
  }

  ghost function OutputsOf(blocks: seq<Block>): (ids: set<Elmt>) {
    set i, id | 0 <= i < |blocks| && id in Ids(blocks[i].outputs) :: id
  }

  lemma NextAllStep(l: Ledger, blocks: seq<Block>, i: nat)
    requires i < |blocks|
    ensures NextAll(l, blocks[..i + 1]) == Next(NextAll(l, blocks[..i]), blocks[i])
  {
    assert blocks[..i + 1][..i] == blocks[..i];
  }

  lemma NextAllNone(l: Ledger, blocks: seq<Block>)
    ensures NextAll(l, blocks[..0]) == l && NextAll(l, blocks[..|blocks|]) == NextAll(l, blocks)
  {
    assert blocks[..|blocks|] == blocks;
  }

  lemma {:induction false} HeadersAll(l: Ledger, blocks: seq<Block>)
    ensures NextAll(l, blocks).headers == l.headers + HeadersOf(blocks)
  {
    hide Next;
    if blocks != [] {
      var n := |blocks| - 1;
      HeadersAll(l, blocks[..n]);
      NextIs(NextAll(l, blocks[..n]), blocks[n]);
      assert HeadersOf(blocks) == HeadersOf(blocks[..n]) + [blocks[n].header];
    }
  }

  lemma {:induction false} UtxoAll(l: Ledger, blocks: seq<Block>)
    ensures NextAll(l, blocks).utxo <= l.utxo + OutputsOf(blocks)
  {
    hide Next, Ids;
    if blocks != [] {
      var n := |blocks| - 1;
      UtxoAll(l, blocks[..n]);
      NextIs(NextAll(l, blocks[..n]), blocks[n]);
      OutputsWithin(blocks, n);
    }
  }

  lemma OutputsWithin(blocks: seq<Block>, i: nat)
    requires i < |blocks|
    ensures OutputsOf(blocks[..i]) <= OutputsOf(blocks) && ElementsOf(Ids(blocks[i].outputs)) <= OutputsOf(blocks)
  {
    hide Ids;
    forall id | id in OutputsOf(blocks[..i]) ensures id in OutputsOf(blocks) {
      var j :| 0 <= j < i && id in Ids(blocks[..i][j].outputs);
      assert blocks[..i][j] == blocks[j];
    }
  }

  // Hashes

  /** The hashes of the identifiers differ from those of known identifiers with another commitment. */
  ghost predicate Tells(h: Hasher, known: set<Elmt>, ids: seq<Elmt>) {
    forall a, i, j :: a in known && 0 <= i < |ids| && CommitOf(a) != CommitOf(ids[i]) ==> h.leaf(a, j) != h.leaf(ids[i], j)
  }

  lemma TellsLess(h: Hasher, known: set<Elmt>, less: set<Elmt>, ids: seq<Elmt>)
    requires Tells(h, known, ids) && less <= known
    ensures Tells(h, less, ids)
  {
    hide CommitOf;
  }

  lemma TellsClear(h: Hasher, index: map<Elmt, nat>, slots: seq<Elmt>, unspent: set<nat>, outputs: seq<Elmt>,
                   inputs: seq<Elmt>, i: nat)
    requires Tells(h, Utxo(slots, unspent) + ElementsOf(outputs), inputs) && i < |inputs|
    requires forall c :: c in index ==> index[c] >= 1
    ensures Clear(h, index, slots, unspent, outputs, inputs[i])
  {
    hide CommitOf;
    var c := CommitOf(inputs[i]);
    if c in index && index[c] in unspent && index[c] <= |slots| {
      assert slots[index[c] - 1] in Utxo(slots, unspent);
    }
    forall j | 0 <= j < |outputs| ensures outputs[j] in ElementsOf(outputs) {}
  }

  lemma TellsTold(e: Extension, outputs: seq<Elmt>, inputs: seq<Elmt>)
    requires e.Valid() && Tells(e.outputPmmr.hasher, e.UtxoSet() + ElementsOf(outputs), inputs)
    ensures e.Told(outputs, inputs)
  {
    hide *;
    e.ValidIs();
    e.UtxoIs();
    forall c | c in e.index ensures e.index[c] >= 1 { IndexedAt(e.index, e.Slots(), e.UnspentSet(), c); }
    forall i | 0 <= i < |inputs| ensures Clear(e.outputPmmr.hasher, e.index, e.Slots(), e.UnspentSet(), outputs, inputs[i]) {
      TellsClear(e.outputPmmr.hasher, e.index, e.Slots(), e.UnspentSet(), outputs, inputs, i);
    }
    e.ToldFrom(outputs, inputs);
  }

  /** The inputs of the block are told from everything that can be unspent when its turn comes. */
  lemma TellsNext(t: TxHashSet, l: Ledger, blocks: seq<Block>, i: nat)
    requires t.ext.Valid() && i < |blocks| && t.ext.UtxoSet() == NextAll(l, blocks[..i]).utxo
    requires Tells(t.ext.outputPmmr.hasher, l.utxo + OutputsOf(blocks), blocks[i].inputs)
    ensures t.ext.Told(Ids(blocks[i].outputs), blocks[i].inputs)
  {
    hide *;
    UtxoAll(l, blocks[..i]);
    OutputsWithin(blocks, i);
    TellsLess(t.ext.outputPmmr.hasher, l.utxo + OutputsOf(blocks), t.ext.UtxoSet() + ElementsOf(Ids(blocks[i].outputs)),
              blocks[i].inputs);
    TellsTold(t.ext, Ids(blocks[i].outputs), blocks[i].inputs);
  }

  // A branch within one unit of work

  /** The marks from n on are those of the blocks. */
  ghost predicate Led(slots: seq<Elmt>, marks: seq<Mark>, n: nat, blocks: seq<Block>) {
    && 0 < n && |marks| == n + |blocks|
    && forall j :: 0 <= j < |blocks| ==> LedBy(slots, marks[n + j - 1], marks[n + j], Ids(blocks[j].outputs), blocks[j].inputs)
  }

  lemma LedNone(slots: seq<Elmt>, marks: seq<Mark>, n: nat, blocks: seq<Block>)
    requires 0 < n == |marks|
    ensures Led(slots, marks, n, blocks[..0])
  {}

  lemma LedStep(slots: seq<Elmt>, marks: seq<Mark>, n: nat, blocks: seq<Block>, i: nat, slots': seq<Elmt>, marks': seq<Mark>)
    requires i < |blocks| && Led(slots, marks, n, blocks[..i]) && slots <= slots'
    requires |marks'| == n + i + 1 && marks'[..n + i] == marks && Linked(marks')
    requires LedBy(slots', marks[n + i - 1], marks'[n + i], Ids(blocks[i].outputs), blocks[i].inputs)
    ensures Led(slots', marks', n, blocks[..i + 1])
  {
    hide LedBy, Linked, Ids;
    var next := blocks[..i + 1];
    forall j | 0 <= j < |next|
      ensures LedBy(slots', marks'[n + j - 1], marks'[n + j], Ids(next[j].outputs), next[j].inputs)
    {
      assert marks'[n + j - 1] == marks'[..n + i][n + j - 1] == marks[n + j - 1];
      if j < i {
        assert marks'[n + j] == marks'[..n + i][n + j] == marks[n + j] && blocks[..i][j] == blocks[j];
        LinkedAt(marks', n + j - 1);
        SizesGrow(marks', n + j - 1, n + j);
        LedByMore(slots, marks[n + j - 1], marks[n + j], Ids(blocks[j].outputs), blocks[j].inputs, slots');
      }
    }
  }

  lemma LedIs(slots: seq<Elmt>, marks: seq<Mark>, n: nat, blocks: seq<Block>)
    requires Led(slots, marks, n, blocks)
    ensures 0 < n && |marks| == n + |blocks|
    ensures forall j :: 0 <= j < |blocks| ==> LedBy(slots, marks[n + j - 1], marks[n + j], Ids(blocks[j].outputs), blocks[j].inputs)
  {
    hide LedBy;
  }

  /** The blocks of a branch in turn: all of them fit exactly when each is taken by what those before it have made. */
  method ExtendAll(t: TxHashSet, blocks: seq<Block>) returns (ok: bool)
    requires t.Working() && Branch(t.headers, blocks)
    requires forall i :: 0 <= i < |blocks| ==> t.ext.Sized(blocks[i].outputs, blocks[i].kernels)
    requires forall i :: 0 <= i < |blocks| ==>
               Tells(t.ext.outputPmmr.hasher, t.ext.UtxoSet() + OutputsOf(blocks), blocks[i].inputs)
    modifies t`headers, t`sums, t`marks, t.ext
    modifies t.ext.outputPmmr, t.ext.outputPmmr.backend, t.ext.outputPmmr.backend.hashFile, t.ext.outputPmmr.backend.dataFile, t.ext.outputPmmr.backend.leafSet
    modifies t.ext.rproofPmmr, t.ext.rproofPmmr.backend, t.ext.rproofPmmr.backend.hashFile, t.ext.rproofPmmr.backend.dataFile, t.ext.rproofPmmr.backend.leafSet
    modifies t.ext.kernelPmmr, t.ext.kernelPmmr.backend, t.ext.kernelPmmr.backend.hashFile, t.ext.kernelPmmr.backend.dataFile, t.ext.kernelPmmr.backend.leafSet
    ensures t.ext.Trees() && t.ext.Base() == old(t.ext.Base())
    ensures ok <==> old(TakesAll(t, t.Now(), blocks))
    ensures ok ==>
              && t.Working() && t.Now() == NextAll(old(t.Now()), blocks)
              && |t.marks| == |old(t.marks)| + |blocks| && t.marks[..|old(t.marks)|] == old(t.marks)
              && Led(t.ext.Slots(), t.marks, |old(t.marks)|, blocks) && old(t.ext.Slots()) <= t.ext.Slots()
              && (blocks != [] ==> t.marks[|t.marks| - 1].spent == InputBitmap(t.ext.index, blocks[|blocks| - 1].inputs))
  {
    hide *;
    ghost var l, n := t.Now(), |t.marks|;
    t.NowIs();
    t.WorkingParts();
    t.ext.ValidIs();
    NextAllNone(l, blocks);
    TakesAllIs(t, l, blocks);
    t.ChainedIs();
    LedNone(t.ext.Slots(), t.marks, n, blocks);
    for i := 0 to |blocks|
      invariant t.Working() && t.Now() == NextAll(l, blocks[..i]) && t.ext.Base() == old(t.ext.Base()) && t.ext.Trees()
      invariant forall k :: 0 <= k < i ==> t.Takes(NextAll(l, blocks[..k]), blocks[k])
      invariant old(t.ext.Slots()) <= t.ext.Slots()
      invariant |t.marks| == n + i && t.marks[..n] == old(t.marks) && Led(t.ext.Slots(), t.marks, n, blocks[..i])
      invariant i > 0 ==> t.marks[|t.marks| - 1].spent == InputBitmap(t.ext.index, blocks[i - 1].inputs)
    {
      t.NowIs();
      t.WorkingParts();
      HeadersAll(l, blocks[..i]);
      BranchIs(l.headers, blocks, i);
      TellsNext(t, l, blocks, i);
      NextAllStep(l, blocks, i);
      ghost var slots, marks := t.ext.Slots(), t.marks;
      ok := t.Extend(blocks[i]);
      if !ok { return; }
      t.WorkingParts();
      t.ChainedIs();
      LedStep(slots, marks, n, blocks, i, t.ext.Slots(), t.marks);
      assert t.marks[..n] == t.marks[..n + i][..n];
    }
    assert blocks[..|blocks|] == blocks;
    ok := true;
  }

  lemma BranchIs(headers: seq<Header>, blocks: seq<Block>, i: nat)
    requires Branch(headers, blocks) && i < |blocks|
    ensures Continues(headers + HeadersOf(blocks[..i]), blocks[i].header)
  {
    hide Continues;
  }

  lemma TakesAllIs(t: TxHashSet, l: Ledger, blocks: seq<Block>)
    ensures TakesAll(t, l, blocks) <==> forall i :: 0 <= i < |blocks| ==> t.Takes(NextAll(l, blocks[..i]), blocks[i])
  {
    hide TxHashSet.Takes, NextAll;
  }

  /** Everything that a unit of work needs to be taken back. */
  datatype Before = Before(headers: seq<Header>, index: map<Elmt, nat>, sums: map<nat, BlockSums>, outputPos: nat, rproofPos: nat,
                           kernelPos: nat)

  /** What a unit of work leaves alone: the trees in the files, the stored bitmaps and what is pruned. */
  datatype Ground = Ground(outputs: Saved, rproofs: Saved, kernels: Saved, bitmaps: map<nat, set<nat>>, horizon: nat,
                           leaves: set<nat>, proofLeaves: set<nat>)

  ghost function GroundOf(t: TxHashSet): (g: Ground)
    reads t`bitmaps, t`horizon, t.ext.outputPmmr.backend, t.ext.rproofPmmr.backend, t.ext.kernelPmmr.backend
    reads t.ext.outputPmmr.backend.leafSet, t.ext.rproofPmmr.backend.leafSet
    reads t.ext.outputPmmr.backend.pruneList, t.ext.rproofPmmr.backend.pruneList
  {
    var base := t.ext.Base();
    Ground(base.0, base.1, base.2, t.bitmaps, t.horizon, t.ext.outputPmmr.backend.pruneList.leaves,
           t.ext.rproofPmmr.backend.pruneList.leaves)
  }

  lemma GroundIs(t: TxHashSet)
    ensures var base := t.ext.Base();
            GroundOf(t) == Ground(base.0, base.1, base.2, t.bitmaps, t.horizon, t.ext.outputPmmr.backend.pruneList.leaves,
                                  t.ext.rproofPmmr.backend.pruneList.leaves)
  {
    hide Extension.Base;
  }

  /** What was saved before the work began is a valid chain on the trees in the files. */
  ghost predicate Restorable(t: TxHashSet, g: Ground, was: Before, marks: seq<Mark>)
  {
    && was.outputPos == was.rproofPos == |g.outputs.hashes| == |g.rproofs.hashes| && g.outputs.bitmap == g.rproofs.bitmap
    && was.kernelPos == |g.kernels.hashes| && (forall p :: p in g.outputs.bitmap ==> p >= 1 && IsLeaf(p))
    && Indexed(was.index, g.outputs.slots, Unspent(g.outputs.bitmap, was.outputPos)) && Injective(t.ext.outputPmmr.hasher)
    && g.horizon < |marks| && Stored(was.headers, g.bitmaps, marks)
    && PrunedBy(g.leaves, marks[g.horizon]) && PrunedBy(g.proofLeaves, marks[g.horizon])
    && marks[|marks| - 1].size == was.outputPos && marks[|marks| - 1].kernelSize == was.kernelPos
    && marks[|marks| - 1].unspent == Unspent(g.outputs.bitmap, was.outputPos)
    && Accounted(t.opening, t.excess, t.chain, g.outputs.slots, g.kernels.slots, was.headers, marks, was.sums)
  }

  lemma RestorableNow(t: TxHashSet)
    requires t.Valid()
    ensures Restorable(t, GroundOf(t), Before(t.headers, t.ext.index, t.sums, t.ext.outputPmmr.lastPos, t.ext.rproofPmmr.lastPos,
                                              t.ext.kernelPmmr.lastPos), t.marks)
    ensures t.ext.Live() == t.ext.Base()
  {
    hide Indexed, Injective, Stored, PrunedBy, Accounted, Unspent, IsLeaf, TxHashSet.Valid, TxHashSet.Consistent, Extension.Valid,
      Extension.Clean, Extension.Trees, TxHashSet.AtHead, TxHashSet.Pruned, Extension.Base, Extension.UnspentSet, Extension.Slots;
    t.ValidParts();
    t.ConsistentIs();
    t.ext.CleanBase();
    t.ext.ValidIs();
    t.AtHeadIs();
    t.PrunedIs();
  }

  /** The unit of work is given up. */
  method Abandon(t: TxHashSet, was: Before, ghost marks: seq<Mark>)
    requires t.ext.Trees() && Restorable(t, GroundOf(t), was, marks)
    modifies t`headers, t`marks, t`sums, t.ext`index
    modifies t.ext.outputPmmr, t.ext.outputPmmr.backend, t.ext.outputPmmr.backend.hashFile, t.ext.outputPmmr.backend.dataFile, t.ext.outputPmmr.backend.leafSet
    modifies t.ext.rproofPmmr, t.ext.rproofPmmr.backend, t.ext.rproofPmmr.backend.hashFile, t.ext.rproofPmmr.backend.dataFile, t.ext.rproofPmmr.backend.leafSet
    modifies t.ext.kernelPmmr, t.ext.kernelPmmr.backend, t.ext.kernelPmmr.backend.hashFile, t.ext.kernelPmmr.backend.dataFile, t.ext.kernelPmmr.backend.leafSet
    ensures t.Valid() && t.headers == was.headers && t.marks == marks && t.sums == was.sums && t.ext.index == was.index
    ensures t.ext.Live() == old(t.ext.Base())
  {
    hide Indexed, Injective, Stored, PrunedBy, Accounted, Unspent, IsLeaf, TxHashSet.Valid, TxHashSet.Consistent, Extension.Valid,
      Extension.Clean, Extension.Trees, TxHashSet.AtHead, TxHashSet.Pruned, Extension.Base, Extension.UnspentSet, Extension.Slots;
    ghost var base := t.ext.Base();
    t.headers, t.marks := was.headers, marks;
    t.PrunedIs();
    t.Undo(was.index, was.sums, was.outputPos, was.rproofPos, was.kernelPos, base.0.slots, Unspent(base.0.bitmap, was.outputPos));
  }

  // Changing branches

  /** The first n elements are where they were. */
  ghost predicate Starts(slots: seq<Elmt>, n: nat, slots': seq<Elmt>) {
    n <= |slots| && slots[..n] <= slots'
  }

  lemma StartsIs(slots: seq<Elmt>, n: nat, slots': seq<Elmt>)
    ensures Starts(slots, n, slots') <==> n <= |slots| && slots[..n] <= slots'
  {}

  /** The chain of the branch has all its bitmaps exactly when those of the blocks before its last are there. */
  lemma BranchStored(headers: seq<Header>, bitmaps: map<nat, set<nat>>, marks: seq<Mark>, k: nat,
                     headers': seq<Header>, bitmaps': map<nat, set<nat>>, marks': seq<Mark>)
    requires Stored(headers, bitmaps, marks) && k < |headers| && |headers'| > k + 1 && Headed(headers', marks')
    requires headers'[..k + 1] == headers[..k + 1] && |marks| == |headers| && |marks'| == |headers'|
    requires marks'[..k + 1] == marks[..k + 1]
    requires var n := |headers'| - 1; headers'[n].hash !in bitmaps && bitmaps' == bitmaps[headers'[n].hash := marks'[n].spent]
    ensures Stored(headers', bitmaps', marks') <==> forall i :: k < i < |headers'| - 1 ==> Bitmapped(headers', bitmaps, marks', i)
  {
    hide Linked;
    var n := |headers'| - 1;
    forall i | 0 < i < |headers'|
      ensures Bitmapped(headers', bitmaps', marks', i) <==> k < i < n ==> Bitmapped(headers', bitmaps, marks', i)
    {
      if i <= k {
        assert headers'[i] == headers'[..k + 1][i] == headers[i] && marks'[i] == marks'[..k + 1][i] == marks[i];
        assert Bitmapped(headers, bitmaps, marks, i);
      } else if i < n {
        assert headers'[i].hash != headers'[n].hash;
      }
    }
  }

  /** A bitmap for a block of no chain. */
  lemma StoredMore(headers: seq<Header>, bitmaps: map<nat, set<nat>>, marks: seq<Mark>, hash: nat, bitmap: set<nat>)
    requires Stored(headers, bitmaps, marks) && hash !in bitmaps
    ensures Stored(headers, bitmaps[hash := bitmap], marks)
  {
    hide Linked;
    var bitmaps' := bitmaps[hash := bitmap];
    forall i | 0 < i < |headers| ensures Bitmapped(headers, bitmaps', marks, i) {
      assert Bitmapped(headers, bitmaps, marks, i);
    }
  }

  /** rewind_and_apply_fork: back to where the branch left the chain, and its blocks in turn. */
  method RewindAndApplyFork(t: TxHashSet, k: nat, branch: seq<Block>) returns (ok: bool)
    requires t.Valid() && t.horizon <= k < |t.headers| && k < |t.marks| && t.Kept(k)
    requires t.Holds(k) && Branch(t.headers[..k + 1], branch)
    requires forall i :: 0 <= i < |branch| ==> t.ext.Sized(branch[i].outputs, branch[i].kernels)
    requires forall i :: 0 <= i < |branch| ==>
               Tells(t.ext.outputPmmr.hasher, t.At(k).utxo + OutputsOf(branch), branch[i].inputs)
    modifies t`headers, t`sums, t`marks, t.ext
    modifies t.ext.outputPmmr, t.ext.outputPmmr.backend, t.ext.outputPmmr.backend.hashFile, t.ext.outputPmmr.backend.dataFile, t.ext.outputPmmr.backend.leafSet
    modifies t.ext.rproofPmmr, t.ext.rproofPmmr.backend, t.ext.rproofPmmr.backend.hashFile, t.ext.rproofPmmr.backend.dataFile, t.ext.rproofPmmr.backend.leafSet
    modifies t.ext.kernelPmmr, t.ext.kernelPmmr.backend, t.ext.kernelPmmr.backend.hashFile, t.ext.kernelPmmr.backend.dataFile, t.ext.kernelPmmr.backend.leafSet
    ensures t.ext.Trees() && GroundOf(t) == old(GroundOf(t))
    ensures ok <==> old(TakesAll(t, t.At(k), branch))
    ensures ok ==>
              && t.Working() && t.Now() == NextAll(old(t.At(k)), branch)
              && |t.marks| == |t.headers| == k + 1 + |branch| && t.headers[..k + 1] == old(t.headers)[..k + 1]
              && t.marks[..k + 1] == old(t.marks)[..k + 1] && Led(t.ext.Slots(), t.marks, k + 1, branch)
              && Starts(old(t.ext.Slots()), old(t.marks)[k].size, t.ext.Slots())
              && (branch != [] ==>
                    && t.headers[|t.headers| - 1] == branch[|branch| - 1].header
                    && t.marks[|t.marks| - 1].spent == InputBitmap(t.ext.index, branch[|branch| - 1].inputs))
  {
    hide *;
    ghost var l, slots, n := t.At(k), t.ext.Slots(), t.marks[k].size;
    GroundIs(t);
    t.Rewind(k);
    t.ConsistentIs();
    t.WorkingParts();
    t.NowIs();
    CutIs<Elmt>();
    ok := ExtendAll(t, branch);
    StartsIs(slots, n, t.ext.Slots());
    GroundIs(t);
    HeadersAll(l, branch);
    t.NowIs();
  }

  /** Nothing of the branch is kept but its last block, stored with the positions that the chain's own index has. */
  method Shelve(t: TxHashSet, last: Block, keep: bool, was: Before, ghost marks: seq<Mark>)
    requires t.ext.Trees() && Restorable(t, GroundOf(t), was, marks) && last.header.hash !in t.bitmaps
    modifies t`headers, t`marks, t`sums, t`bitmaps, t.ext`index
    modifies t.ext.outputPmmr, t.ext.outputPmmr.backend, t.ext.outputPmmr.backend.hashFile, t.ext.outputPmmr.backend.dataFile, t.ext.outputPmmr.backend.leafSet
    modifies t.ext.rproofPmmr, t.ext.rproofPmmr.backend, t.ext.rproofPmmr.backend.hashFile, t.ext.rproofPmmr.backend.dataFile, t.ext.rproofPmmr.backend.leafSet
    modifies t.ext.kernelPmmr, t.ext.kernelPmmr.backend, t.ext.kernelPmmr.backend.hashFile, t.ext.kernelPmmr.backend.dataFile, t.ext.kernelPmmr.backend.leafSet
    ensures t.Valid() && t.headers == was.headers && t.marks == marks && t.sums == was.sums && t.ext.index == was.index
    ensures t.ext.Live() == old(t.ext.Base())
    ensures t.bitmaps == if keep then old(t.bitmaps)[last.header.hash := InputBitmap(was.index, last.inputs)] else old(t.bitmaps)
  {
    hide *;
    Abandon(t, was, marks);
    if keep {
      t.ValidParts();
      t.ConsistentIs();
      t.PrunedIs();
      t.AtHeadIs();
      StoredMore(t.headers, t.bitmaps, t.marks, last.header.hash, InputBitmap(t.ext.index, last.inputs));
      t.bitmaps := t.bitmaps[last.header.hash := InputBitmap(t.ext.index, last.inputs)];
      t.PrunedIs();
      t.AtHeadIs();
      StoredParts(t.headers, t.bitmaps, t.marks);
      t.ChainedFrom();
      t.ConsistentFrom();
      t.ValidFrom();
    }
  }

  /**
   * process_block for the last block of a branch. When a block of it does not fit, nothing has happened. When the
   * branch has no more work than the chain, its last block is stored with the positions that the index of the chain has
   * for its inputs. Otherwise the ledger becomes the one that the branch makes of the ledger where it left the chain;
   * the chain is valid again exactly when the bitmaps stored for the other blocks of the branch are right.
   */
  method Reorganise(t: TxHashSet, k: nat, branch: seq<Block>, moreWork: bool) returns (ok: bool)
    requires t.Valid() && t.horizon <= k < |t.headers| && k < |t.marks| && t.Kept(k)
    requires t.Holds(k)
    requires branch != [] && Branch(t.headers[..k + 1], branch)
    requires forall i :: 0 <= i < |branch| ==> t.ext.Sized(branch[i].outputs, branch[i].kernels)
    requires forall i :: 0 <= i < |branch| ==>
               Tells(t.ext.outputPmmr.hasher, t.At(k).utxo + OutputsOf(branch), branch[i].inputs)
    modifies t`headers, t`bitmaps, t`sums, t`marks, t.ext
    modifies t.ext.outputPmmr, t.ext.outputPmmr.backend, t.ext.outputPmmr.backend.hashFile, t.ext.outputPmmr.backend.dataFile, t.ext.outputPmmr.backend.leafSet
    modifies t.ext.rproofPmmr, t.ext.rproofPmmr.backend, t.ext.rproofPmmr.backend.hashFile, t.ext.rproofPmmr.backend.dataFile, t.ext.rproofPmmr.backend.leafSet
    modifies t.ext.kernelPmmr, t.ext.kernelPmmr.backend, t.ext.kernelPmmr.backend.hashFile, t.ext.kernelPmmr.backend.dataFile, t.ext.kernelPmmr.backend.leafSet
    ensures ok <==> branch[|branch| - 1].header.hash !in old(t.bitmaps) && old(TakesAll(t, t.At(k), branch))
    ensures !ok ==> t.Valid() && t.State() == old(t.State()) && t.marks == old(t.marks)
    ensures ok && !moreWork ==>
              && t.Valid() && t.marks == old(t.marks)
              && t.bitmaps == old(t.bitmaps)[branch[|branch| - 1].header.hash :=
                                             InputBitmap(old(t.ext.index), branch[|branch| - 1].inputs)]
              && t.State() == old(t.State()).(1 := t.bitmaps)
    ensures ok && moreWork ==>
              && t.Chained() && t.ext.Valid() && t.ext.Clean() && t.Now() == NextAll(old(t.At(k)), branch)
              && |t.marks| == |t.headers| == k + 1 + |branch| && t.marks[..k + 1] == old(t.marks)[..k + 1]
              && Led(t.ext.Slots(), t.marks, k + 1, branch) && Starts(old(t.ext.Slots()), old(t.marks)[k].size, t.ext.Slots())
              && (t.Valid() <==>
                  forall i :: k < i < k + |branch| ==> Bitmapped(t.headers, old(t.bitmaps), t.marks, i))
  {
    hide *;
    var last := branch[|branch| - 1];
    t.StateIs();
    if last.header.hash in t.bitmaps {
      return false;
    }
    var was := Before(t.headers, t.ext.index, t.sums, t.ext.outputPmmr.lastPos, t.ext.rproofPmmr.lastPos, t.ext.kernelPmmr.lastPos);
    ghost var marks, bitmaps := t.marks, t.bitmaps;
    t.ValidParts();
    t.ConsistentIs();
    RestorableNow(t);
    GroundIs(t);
    ok := RewindAndApplyFork(t, k, branch);
    GroundIs(t);
    if !ok || !moreWork {
      Shelve(t, last, ok, was, marks);
      t.StateIs();
      return;
    }
    t.Commit(last);
    t.ChainedIs();
    t.NowIs();
    BranchStored(was.headers, bitmaps, marks, k, t.headers, t.bitmaps, t.marks);
  }

  // Taking back

  /** The ledger of the head is the present one, also when blocks have come since. */
  lemma AtThen(t: TxHashSet, was: Ledger, marks: seq<Mark>, slots: seq<Elmt>, proofs: seq<Elmt>, kernels: seq<Elmt>)
    requires 0 < |was.headers| == |marks| < |t.headers| && |t.marks| == |t.headers|
    requires t.headers[..|marks|] == was.headers && t.marks[..|marks|] == marks
    requires slots <= t.ext.Slots() && proofs <= t.ext.Proofs() && kernels <= t.ext.kernelPmmr.backend.slots
    requires var m := marks[|marks| - 1];
             && m.size == was.size == |slots| == |proofs| && m.kernelSize == was.kernelSize == |kernels|
             && was.utxo == Utxo(slots, m.unspent) && was.kernels == LeafElements(kernels)
             && was.outputs == LeafElements(slots) && was.proofs == LeafElements(proofs)
             && forall p :: p in m.unspent ==> 1 <= p <= m.size
    ensures t.Holds(|marks| - 1) && t.At(|marks| - 1) == was
  {
    hide LeafElements, Utxo, Extension.Slots, Extension.Proofs, TxHashSet.At, TxHashSet.Holds;
    var n := |marks| - 1;
    assert t.marks[n] == t.marks[..|marks|][n];
    assert t.ext.kernelPmmr.backend.slots[..|kernels|] == kernels;
    assert slots[..|slots|] == slots == t.ext.Slots()[..|slots|];
    assert t.ext.Proofs()[..|proofs|] == proofs;
    UtxoAgrees(slots, t.ext.Slots(), |slots|, marks[n].unspent);
    t.HoldsIs(n);
    t.AtIs(n);
  }

  lemma HeadParts(t: TxHashSet)
    requires t.Valid()
    ensures 0 < |t.headers| == |t.marks| && t.horizon < |t.headers|
    ensures var m := t.marks[|t.marks| - 1];
            && m.size == t.Now().size == |t.ext.Slots()| == |t.ext.Proofs()|
            && m.kernelSize == t.Now().kernelSize == |t.ext.kernelPmmr.backend.slots|
            && t.Now().headers == t.headers && t.Now().utxo == Utxo(t.ext.Slots(), m.unspent)
            && t.Now().kernels == LeafElements(t.ext.kernelPmmr.backend.slots)
            && t.Now().outputs == LeafElements(t.ext.Slots()) && t.Now().proofs == LeafElements(t.ext.Proofs())
            && m.unspent == t.ext.UnspentSet() && forall p :: p in m.unspent ==> 1 <= p <= m.size
  {
    hide *;
    t.ValidParts();
    t.ConsistentIs();
    t.AtHeadIs();
    t.PrunedIs();
    t.NowIs();
    t.ext.UtxoIs();
    t.ext.ValidIs();
    t.ext.AbstractIs();
    t.ext.TreesParts();
    t.ext.outputPmmr.ValidParts();
    t.ext.rproofPmmr.ValidParts();
    t.ext.kernelPmmr.ValidParts();
    LinkedAt(t.marks, |t.marks| - 1);
  }

  /** A block is processed and taken back: the chain is what it was before. */
  method ProcessAndRewind(t: TxHashSet, b: Block) returns (ok: bool)
    requires |t.headers| <= SCHEDULE_END && t.Valid()
    requires t.ext.Sized(b.outputs, b.kernels) && t.ext.Told(Ids(b.outputs), b.inputs)
    modifies t`headers, t`bitmaps, t`sums, t`marks, t.ext
    modifies t.ext.outputPmmr, t.ext.outputPmmr.backend, t.ext.outputPmmr.backend.hashFile, t.ext.outputPmmr.backend.dataFile, t.ext.outputPmmr.backend.leafSet
    modifies t.ext.rproofPmmr, t.ext.rproofPmmr.backend, t.ext.rproofPmmr.backend.hashFile, t.ext.rproofPmmr.backend.dataFile, t.ext.rproofPmmr.backend.leafSet
    modifies t.ext.kernelPmmr, t.ext.kernelPmmr.backend, t.ext.kernelPmmr.backend.hashFile, t.ext.kernelPmmr.backend.dataFile, t.ext.kernelPmmr.backend.leafSet
    ensures ok <==> old(t.Accepts(b))
    ensures t.Consistent() && t.Now() == old(t.Now()) && t.marks == old(t.marks)
    ensures t.ext.Slots() == old(t.ext.Slots()) && t.ext.Proofs() == old(t.ext.Proofs())
    ensures t.ext.UnspentSet() == old(t.ext.UnspentSet())
  {
    hide *;
    HeadParts(t);
    ghost var l, marks, slots, proofs, kernels := t.Now(), t.marks, t.ext.Slots(), t.ext.Proofs(), t.ext.kernelPmmr.backend.slots;
    t.StateIs();
    t.NowIs();
    t.ext.LiveIs();
    t.ext.AbstractIs();
    ok := t.ProcessBlock(b);
    t.StateIs();
    HeadParts(t);
    t.ValidParts();
    NextIs(l, b);
    if !ok {
      t.NowIs();
      t.ext.LiveIs();
      t.ext.AbstractIs();
      return;
    }
    AtThen(t, l, marks, slots, proofs, kernels);
    t.Rewind(|t.headers| - 2);
    CutIs<Elmt>();
    assert t.ext.Slots() == slots && t.ext.Proofs() == proofs;
  }

  /** The end of a state sync: back to a block, the index built anew, and everything written. */
  method RewindAndRebuild(t: TxHashSet, k: nat)
    requires t.Valid() && t.horizon <= k < |t.headers| && k < |t.marks|
    requires t.Holds(k)
    modifies t`headers, t`marks, t.ext
    modifies t.ext.outputPmmr, t.ext.outputPmmr.backend, t.ext.outputPmmr.backend.hashFile, t.ext.outputPmmr.backend.dataFile, t.ext.outputPmmr.backend.leafSet
    modifies t.ext.rproofPmmr, t.ext.rproofPmmr.backend, t.ext.rproofPmmr.backend.hashFile, t.ext.rproofPmmr.backend.dataFile, t.ext.rproofPmmr.backend.leafSet
    modifies t.ext.kernelPmmr, t.ext.kernelPmmr.backend, t.ext.kernelPmmr.backend.hashFile, t.ext.kernelPmmr.backend.dataFile, t.ext.kernelPmmr.backend.leafSet
    ensures t.Valid() && t.ext.Exactly() && t.Now() == old(t.At(k))
    ensures t.headers == old(t.headers)[..k + 1] && t.marks == old(t.marks)[..k + 1]
  {
    hide *;
    t.Rewind(k);
    t.Rebuild();
  }

  /** After a rewind of a chain that never was before, the duplicate test misses exactly what was created again. */
  method RewindAndTest(t: TxHashSet, k: nat, id: Elmt) returns (unknown: bool)
    requires t.Valid() && t.ext.Newest() && t.horizon <= k < |t.headers| && k < |t.marks|
    modifies t`headers, t`marks
    modifies t.ext.outputPmmr, t.ext.outputPmmr.backend, t.ext.outputPmmr.backend.hashFile, t.ext.outputPmmr.backend.dataFile, t.ext.outputPmmr.backend.leafSet
    modifies t.ext.rproofPmmr, t.ext.rproofPmmr.backend, t.ext.rproofPmmr.backend.hashFile, t.ext.rproofPmmr.backend.dataFile, t.ext.rproofPmmr.backend.leafSet
    modifies t.ext.kernelPmmr, t.ext.kernelPmmr.backend, t.ext.kernelPmmr.backend.hashFile, t.ext.kernelPmmr.backend.dataFile, t.ext.kernelPmmr.backend.leafSet
    ensures t.Consistent()
    ensures old(t.Holds(k)) && t.Now() == old(t.At(k))
    ensures unknown <==> !Taken(CommitOf(id), t.ext.UtxoSet()) ||
                         CreatedAgain(old(t.ext.Slots()), old(t.marks)[k].size, CommitOf(id))
  {
    hide *;
    t.ValidParts();
    t.ext.ValidIs();
    forall c | c in t.ext.index ensures t.ext.index[c] >= 1 { IndexedAt(t.ext.index, t.ext.Slots(), t.ext.UnspentSet(), c); }
    t.Rewind(k);
    t.ConsistentIs();
    CutIs<Elmt>();
    StaleAt(t.ext.index, old(t.ext.Slots()), old(t.marks)[k].size, t.ext.UnspentSet(), CommitOf(id));
    t.ext.UtxoIs();
    unknown := t.ext.LooksNew(id);
  }

  lemma StaleAt(index: map<Elmt, nat>, slots: seq<Elmt>, n: nat, unspent: set<nat>, c: Elmt)
    requires Stale(index, slots, n, unspent)
    ensures n <= |slots|
    ensures Refused(index, slots[..n], unspent, c) <==> Taken(c, Utxo(slots[..n], unspent)) && !CreatedAgain(slots, n, c)
  {
    hide Refused, Taken, Utxo, CreatedAgain, Names, CommitOf;
  }

  // The bitmaps of a branch that was stored before it won

  /** What stands behind the place where the branch began comes from its blocks. */
  lemma {:induction false} FromBranch(slots: seq<Elmt>, marks: seq<Mark>, n: nat, blocks: seq<Block>, j: nat, p: nat)
    requires Led(slots, marks, n, blocks) && Linked(marks) && j < |blocks| && IsLeaf(p)
    requires marks[n - 1].size < p <= marks[n + j].size
    ensures p <= |slots| && slots[p - 1] in OutputsOf(blocks)
  {
    hide LedBy, Linked, Ids, IsLeaf, Led;
    LedIs(slots, marks, n, blocks);
    LedByIs(slots, marks[n + j - 1], marks[n + j], Ids(blocks[j].outputs), blocks[j].inputs);
    if p > marks[n + j - 1].size {
      assert slots[p - 1] in Ids(blocks[j].outputs);
    } else {
      FromBranch(slots, marks, n, blocks, j - 1, p);
    }
  }

  /** A position below the place where the branch began was unspent there. */
  lemma BeforeBranch(marks: seq<Mark>, n: nat, j: nat, p: nat)
    requires Linked(marks) && 0 < n <= j < |marks| + 1 && p in marks[j - 1].unspent && p <= marks[n - 1].size
    ensures p in marks[n - 1].unspent
  {
    hide Linked;
    LinkedPrefix(marks, j);
    LaterUnspent(marks[..j], n - 1, p);
  }

  lemma SubsetSize(a: set<nat>, b: set<nat>)
    requires a <= b && |b| <= |a|
    ensures a == b
  {
    assert b == a + (b - a);
  }

  /**
   * A block of the branch that spends nothing of the branch: the index of the chain had the right positions for it.
   */
  lemma BranchBitmap(index: map<Elmt, nat>, start: seq<Elmt>, slots: seq<Elmt>, marks: seq<Mark>, n: nat, branch: seq<Block>, j: nat)
    requires Led(slots, marks, n, branch) && Linked(marks) && j < |branch| && |start| == marks[n - 1].size && start <= slots
    requires Indexed(index, start, marks[n - 1].unspent)
    requires forall x :: x in branch[j].inputs ==> x !in OutputsOf(branch)
    ensures marks[n + j].spent == InputBitmap(index, branch[j].inputs)
  {
    hide LedBy, Linked, Ids, IsLeaf, Led, InputBitmap, OutputsOf, Indexed;
    LedIs(slots, marks, n, branch);
    LedByIs(slots, marks[n + j - 1], marks[n + j], Ids(branch[j].outputs), branch[j].inputs);
    LinkedAt(marks, n + j - 1);
    SizesGrow(marks, n + j - 1, n + j);
    var inputs := branch[j].inputs;
    forall p | p in marks[n + j].spent ensures p in InputBitmap(index, inputs) {
      if p > marks[n - 1].size { FromBranch(slots, marks, n, branch, j, p); }
      SizesGrow(marks, n - 1, n + j - 1);
      BeforeBranch(marks, n, n + j, p);
      assert slots[p - 1] == start[p - 1];
      UnspentAt(index, start, marks[n - 1].unspent, p);
      EntryIn(index, inputs, start[p - 1]);
    }
    BitmapMisses(index, inputs);
    SubsetSize(marks[n + j].spent, InputBitmap(index, inputs));
  }

  lemma EntryIn(index: map<Elmt, nat>, inputs: seq<Elmt>, id: Elmt)
    requires id in inputs && CommitOf(id) in index
    ensures index[CommitOf(id)] in InputBitmap(index, inputs)
  {
    hide CommitOf;
    var i :| 0 <= i < |inputs| && inputs[i] == id;
    assert CommitOf(inputs[i]) in index;
  }

  /** The bitmap of every block but the last is the one that the index gives for its inputs. */
  ghost predicate StoredBy(bitmaps: map<nat, set<nat>>, index: map<Elmt, nat>, branch: seq<Block>) {
    forall j :: 0 <= j < |branch| - 1 ==>
      branch[j].header.hash in bitmaps && bitmaps[branch[j].header.hash] == InputBitmap(index, branch[j].inputs)
  }

  /** No block but the last spends what a block of the branch has created. */
  ghost predicate Reaches(branch: seq<Block>) {
    forall j, x :: 0 <= j < |branch| - 1 && x in branch[j].inputs ==> x !in OutputsOf(branch)
  }

  /** Some block but the last has an input that the index does not know. */
  ghost predicate Unknown(index: map<Elmt, nat>, branch: seq<Block>) {
    exists j, i :: 0 <= j < |branch| - 1 && 0 <= i < |branch[j].inputs| && CommitOf(branch[j].inputs[i]) !in index
  }

  /** With the bitmaps that the index of the chain gave, the branch is right where it spends nothing of its own. */
  lemma RightBitmaps(headers: seq<Header>, bitmaps: map<nat, set<nat>>, index: map<Elmt, nat>, start: seq<Elmt>, slots: seq<Elmt>,
                     marks: seq<Mark>, k: nat, branch: seq<Block>)
    requires Led(slots, marks, k + 1, branch) && Linked(marks) && |start| == marks[k].size && start <= slots
    requires Indexed(index, start, marks[k].unspent) && StoredBy(bitmaps, index, branch) && Reaches(branch)
    requires |headers| == |marks| && forall j :: 0 <= j < |branch| ==> headers[k + 1 + j] == branch[j].header
    ensures forall i :: k < i < k + |branch| ==> Bitmapped(headers, bitmaps, marks, i)
  {
    hide Led, Linked, Indexed, InputBitmap, OutputsOf, LedBy;
    LedIs(slots, marks, k + 1, branch);
    forall i | k < i < k + |branch| ensures Bitmapped(headers, bitmaps, marks, i) {
      var j := i - k - 1;
      assert headers[k + 1 + j] == branch[j].header;
      BranchBitmap(index, start, slots, marks, k + 1, branch, j);
    }
  }

  /** And wrong where a block spends what the index of the chain does not know. */
  lemma WrongBitmap(headers: seq<Header>, bitmaps: map<nat, set<nat>>, index: map<Elmt, nat>, slots: seq<Elmt>, marks: seq<Mark>,
                    k: nat, branch: seq<Block>)
    requires Led(slots, marks, k + 1, branch) && StoredBy(bitmaps, index, branch) && Unknown(index, branch)
    requires |headers| == |marks| && forall j :: 0 <= j < |branch| ==> headers[k + 1 + j] == branch[j].header
    ensures !forall i :: k < i < k + |branch| ==> Bitmapped(headers, bitmaps, marks, i)
  {
    hide LedBy, Led, InputBitmap, OutputsOf, CommitOf, Ids;
    LedIs(slots, marks, k + 1, branch);
    var j, i :| 0 <= j < |branch| - 1 && 0 <= i < |branch[j].inputs| && CommitOf(branch[j].inputs[i]) !in index;
    assert headers[k + 1 + j] == branch[j].header;
    LedByIs(slots, marks[k + 1 + j - 1], marks[k + 1 + j], Ids(branch[j].outputs), branch[j].inputs);
    BitmapMisses(index, branch[j].inputs);
    assert !Bitmapped(headers, bitmaps, marks, k + 1 + j);
  }

  /**
   * A branch wins whose blocks were stored one by one while the chain was the better one. The chain is then valid when
   * no block but the last spends what the branch has created, and not valid when one has an input that the chain's own
   * index does not know: its bitmap lacks that position, and a later rewind would not bring it back.
   */
  method Switch(t: TxHashSet, k: nat, branch: seq<Block>) returns (ok: bool)
    requires t.Valid() && t.horizon <= k < |t.headers| && k < |t.marks| && t.Kept(k)
    requires t.Holds(k)
    requires branch != [] && Branch(t.headers[..k + 1], branch) && StoredBy(t.bitmaps, t.ext.index, branch)
    requires forall i :: 0 <= i < |branch| ==> t.ext.Sized(branch[i].outputs, branch[i].kernels)
    requires forall i :: 0 <= i < |branch| ==>
               Tells(t.ext.outputPmmr.hasher, t.At(k).utxo + OutputsOf(branch), branch[i].inputs)
    modifies t`headers, t`bitmaps, t`sums, t`marks, t.ext
    modifies t.ext.outputPmmr, t.ext.outputPmmr.backend, t.ext.outputPmmr.backend.hashFile, t.ext.outputPmmr.backend.dataFile, t.ext.outputPmmr.backend.leafSet
    modifies t.ext.rproofPmmr, t.ext.rproofPmmr.backend, t.ext.rproofPmmr.backend.hashFile, t.ext.rproofPmmr.backend.dataFile, t.ext.rproofPmmr.backend.leafSet
    modifies t.ext.kernelPmmr, t.ext.kernelPmmr.backend, t.ext.kernelPmmr.backend.hashFile, t.ext.kernelPmmr.backend.dataFile, t.ext.kernelPmmr.backend.leafSet
    ensures ok <==> branch[|branch| - 1].header.hash !in old(t.bitmaps) && old(TakesAll(t, t.At(k), branch))
    ensures if ok then t.Now() == NextAll(old(t.At(k)), branch) else t.Valid() && t.State() == old(t.State())
    ensures ok && Reaches(branch) ==> t.Valid()
    ensures ok && Unknown(old(t.ext.index), branch) ==> !t.Valid()
  {
    hide *;
    ghost var l, slots, index, bitmaps, n := t.At(k), t.ext.Slots(), t.ext.index, t.bitmaps, t.marks[k].size;
    t.KeptIs(k);
    t.AtIs(k);
    ok := Reorganise(t, k, branch, true);
    if !ok { return; }
    HeadersAll(l, branch);
    t.NowIs();
    t.ChainedIs();
    StartsIs(slots, n, t.ext.Slots());
    assert forall j :: 0 <= j < |branch| ==> t.headers[k + 1 + j] == branch[j].header;
    assert t.marks[k] == t.marks[..k + 1][k];
    if Reaches(branch) { RightBitmaps(t.headers, bitmaps, index, slots[..n], t.ext.Slots(), t.marks, k, branch); }
    if Unknown(index, branch) { WrongBitmap(t.headers, bitmaps, index, t.ext.Slots(), t.marks, k, branch); }
  }
}
