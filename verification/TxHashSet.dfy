/**
 * The chain of accepted blocks: block processing with the sums kept per block,
 * rewinding, and compaction.
 */
module TxHashSets {
  import opened AppendOnly
  import opened Arithmetic
  import opened Emission
  import opened Extensions
  import opened Histories
  import Navigation
  import opened Outputs
  import opened Postorder
  import opened Sums
  import opened Wrappers

  datatype Header = Header(hash: nat, prevHash: nat, height: nat, outputMmrSize: nat, kernelMmrSize: nat,
                           totalKernelOffset: int)

  datatype Block = Block(header: Header, outputs: seq<Output>, inputs: seq<Elmt>, kernels: seq<Elmt>)

  /** The headers form a chain whose sizes are those of the history. */
  ghost predicate Headed(headers: seq<Header>, marks: seq<Mark>)
  {
    && |headers| == |marks| > 0 && Linked(marks)
    && (forall i :: 0 <= i < |headers| ==>
          headers[i].height == i && headers[i].outputMmrSize == marks[i].size &&
          headers[i].kernelMmrSize == marks[i].kernelSize)
    && (forall i, j :: 0 <= i < j < |headers| ==> headers[i].hash != headers[j].hash)
    && (forall i :: 0 < i < |headers| ==> headers[i].prevHash == headers[i - 1].hash)
  }

  /** The input bitmap stored for a block has exactly the positions that the block spent. */
  ghost predicate Bitmapped(headers: seq<Header>, bitmaps: map<nat, set<nat>>, marks: seq<Mark>, i: nat)
    requires i < |headers| == |marks|
  {
    headers[i].hash in bitmaps && bitmaps[headers[i].hash] == marks[i].spent
  }

  ghost predicate Stored(headers: seq<Header>, bitmaps: map<nat, set<nat>>, marks: seq<Mark>)
  {
    Headed(headers, marks) && forall i :: 0 < i < |headers| ==> Bitmapped(headers, bitmaps, marks, i)
  }

  /** What the sums of a state are by definition: over all its unspent outputs and all its kernels. */
  ghost function StateSums(opening: Elmt -> Commitment, excess: Elmt -> Commitment, slots: seq<Elmt>, kernels: seq<Elmt>,
                           m: Mark, total: nat): (s: BlockSums)
    requires m.kernelSize <= |kernels|
  {
    FullSums(SumSet(opening, Utxo(slots, m.unspent)), Sum(Image(excess, LeafElements(kernels[..m.kernelSize]))), total)
  }

  /** The stored sums of a block are those of the state after it, and they balance. */
  ghost predicate AccountedAt(opening: Elmt -> Commitment, excess: Elmt -> Commitment, slots: seq<Elmt>, kernels: seq<Elmt>,
                              header: Header, m: Mark, sums: map<nat, BlockSums>, total: nat)
  {
    && header.hash in sums && m.size <= |slots| && m.kernelSize <= |kernels|
    && Unique(slots, m.unspent) && LastOf(slots, m.unspent, m.size)
    && sums[header.hash] == StateSums(opening, excess, slots, kernels, m, total)
    && sums[header.hash].utxoSum.value == sums[header.hash].kernelSum.value
    && (header.height > 0 ==>
          sums[header.hash].utxoSum == Add(sums[header.hash].kernelSum, Commitment(0, header.totalKernelOffset)))
  }

  ghost predicate Accounted(opening: Elmt -> Commitment, excess: Elmt -> Commitment, chain: ChainType, slots: seq<Elmt>,
                            kernels: seq<Elmt>, headers: seq<Header>, marks: seq<Mark>, sums: map<nat, BlockSums>)
  {
    && 0 < |headers| == |marks| <= SCHEDULE_END + 1
    && forall i :: 0 <= i < |headers| ==>
         AccountedAt(opening, excess, slots, kernels, headers[i], marks[i], sums,
                     Overage(chain, headers[0].kernelMmrSize > 0, i))
  }

  lemma AccountedAtIs(opening: Elmt -> Commitment, excess: Elmt -> Commitment, slots: seq<Elmt>, kernels: seq<Elmt>,
                      header: Header, m: Mark, sums: map<nat, BlockSums>, total: nat)
    requires AccountedAt(opening, excess, slots, kernels, header, m, sums, total)
    ensures header.hash in sums && m.size <= |slots| && m.kernelSize <= |kernels| && Unique(slots, m.unspent)
    ensures LastOf(slots, m.unspent, m.size)
    ensures sums[header.hash] == FullSums(SumSet(opening, Utxo(slots, m.unspent)),
                                          Sum(Image(excess, LeafElements(kernels[..m.kernelSize]))), total)
    ensures sums[header.hash].utxoSum.value == sums[header.hash].kernelSum.value
  {
    hide SumSet, Utxo, Sum, Image, LeafElements, Unique, LastOf;
  }

  lemma LastAgrees(slots: seq<Elmt>, slots': seq<Elmt>, n: nat, unspent: set<nat>)
    requires n <= |slots| && n <= |slots'| && slots[..n] == slots'[..n] && LastOf(slots, unspent, n)
    ensures LastOf(slots', unspent, n)
  {
    hide IsLeaf, CommitOf;
    forall p, q | p in unspent && 1 <= p < q <= n && q <= |slots'| && IsLeaf(q)
      ensures CommitOf(slots'[q - 1]) != CommitOf(slots'[p - 1])
    {
      assert slots[p - 1] == slots[..n][p - 1] && slots'[p - 1] == slots'[..n][p - 1];
      assert slots[q - 1] == slots[..n][q - 1] && slots'[q - 1] == slots'[..n][q - 1];
    }
  }

  lemma UtxoAgrees(slots: seq<Elmt>, slots': seq<Elmt>, n: nat, unspent: set<nat>)
    requires n <= |slots| && n <= |slots'| && slots[..n] == slots'[..n]
    requires forall p :: p in unspent ==> 1 <= p <= n
    ensures Utxo(slots, unspent) == Utxo(slots', unspent)
    ensures Unique(slots, unspent) ==> Unique(slots', unspent)
    ensures LastOf(slots, unspent, n) ==> LastOf(slots', unspent, n)
  {
    hide IsLeaf, CommitOf;
    if LastOf(slots, unspent, n) { LastAgrees(slots, slots', n, unspent); }
    hide LastOf;
    forall p | p in unspent ensures slots[p - 1] == slots'[p - 1] {
      assert slots[p - 1] == slots[..n][p - 1] && slots'[p - 1] == slots'[..n][p - 1];
    }
    assert forall p :: p in unspent ==> slots'[p - 1] == slots[p - 1];
  }

  /** The sums of a block speak of the first leaves only. */
  lemma AccountedAtAgrees(opening: Elmt -> Commitment, excess: Elmt -> Commitment, slots: seq<Elmt>, kernels: seq<Elmt>,
                          header: Header, m: Mark, sums: map<nat, BlockSums>, total: nat,
                          slots': seq<Elmt>, kernels': seq<Elmt>, sums': map<nat, BlockSums>)
    requires AccountedAt(opening, excess, slots, kernels, header, m, sums, total) && Sound(m)
    requires m.size <= |slots'| && m.kernelSize <= |kernels'|
    requires slots[..m.size] == slots'[..m.size] && kernels[..m.kernelSize] == kernels'[..m.kernelSize]
    requires header.hash in sums' && sums'[header.hash] == sums[header.hash]
    ensures AccountedAt(opening, excess, slots', kernels', header, m, sums', total)
  {
    hide IsLeaf, SumSet, Sum, Image, LeafElements, Utxo, Unique, LastOf;
    UtxoAgrees(slots, slots', m.size, m.unspent);
  }

  lemma AccountedIs(opening: Elmt -> Commitment, excess: Elmt -> Commitment, chain: ChainType, slots: seq<Elmt>,
                    kernels: seq<Elmt>, headers: seq<Header>, marks: seq<Mark>, sums: map<nat, BlockSums>, i: nat)
    requires Accounted(opening, excess, chain, slots, kernels, headers, marks, sums) && i < |headers|
    ensures 0 < |headers| == |marks| && i <= SCHEDULE_END
    ensures AccountedAt(opening, excess, slots, kernels, headers[i], marks[i], sums,
                        Overage(chain, headers[0].kernelMmrSize > 0, i))
    ensures headers[i].hash in sums && marks[i].size <= |slots| && marks[i].kernelSize <= |kernels|
  {
    hide Overage, StateSums, Unique, LastOf;
  }

  /** A prefix of the chain, when trees and sums agree on it. */
  lemma AccountedPrefix(opening: Elmt -> Commitment, excess: Elmt -> Commitment, chain: ChainType, slots: seq<Elmt>,
                        kernels: seq<Elmt>, headers: seq<Header>, marks: seq<Mark>, sums: map<nat, BlockSums>, n: nat,
                        slots': seq<Elmt>, kernels': seq<Elmt>, sums': map<nat, BlockSums>)
    requires Accounted(opening, excess, chain, slots, kernels, headers, marks, sums) && 0 < n <= |headers| && Linked(marks)
    requires forall i :: 0 <= i < n ==>
               && marks[i].size <= |slots| && marks[i].kernelSize <= |kernels|
               && marks[i].size <= |slots'| && marks[i].kernelSize <= |kernels'|
               && slots[..marks[i].size] == slots'[..marks[i].size]
               && kernels[..marks[i].kernelSize] == kernels'[..marks[i].kernelSize]
    requires forall i :: 0 <= i < n ==>
               && headers[i].hash in sums && headers[i].hash in sums'
               && sums'[headers[i].hash] == sums[headers[i].hash]
    ensures Accounted(opening, excess, chain, slots', kernels', headers[..n], marks[..n], sums')
  {
    hide Overage, StateSums, Unique, LastOf, AccountedAt, Sound, Follows;
    forall i | 0 <= i < n
      ensures AccountedAt(opening, excess, slots', kernels', headers[i], marks[i], sums',
                          Overage(chain, headers[0].kernelMmrSize > 0, i))
    {
      LinkedAt(marks, i);
      AccountedAtAgrees(opening, excess, slots, kernels, headers[i], marks[i], sums,
                        Overage(chain, headers[0].kernelMmrSize > 0, i), slots', kernels', sums');
    }
  }

  lemma AccountedPush(opening: Elmt -> Commitment, excess: Elmt -> Commitment, chain: ChainType, slots: seq<Elmt>,
                      kernels: seq<Elmt>, headers: seq<Header>, marks: seq<Mark>, sums: map<nat, BlockSums>,
                      header: Header, m: Mark)
    requires |headers| == |marks| <= SCHEDULE_END
    requires |headers| > 0 ==> Accounted(opening, excess, chain, slots, kernels, headers, marks, sums)
    requires AccountedAt(opening, excess, slots, kernels, header, m, sums,
                         Overage(chain, (headers + [header])[0].kernelMmrSize > 0, |headers|))
    ensures Accounted(opening, excess, chain, slots, kernels, headers + [header], marks + [m], sums)
  {
    hide Overage, AccountedAt;
  }

  lemma StoredParts(headers: seq<Header>, bitmaps: map<nat, set<nat>>, marks: seq<Mark>)
    ensures Stored(headers, bitmaps, marks) <==>
              Headed(headers, marks) && |headers| == |marks| &&
              forall i :: 0 < i < |headers| ==> Bitmapped(headers, bitmaps, marks, i)
  {
    hide Linked, Bitmapped;
  }

  lemma HeadedIs(headers: seq<Header>, marks: seq<Mark>, i: nat)
    requires Headed(headers, marks) && i < |headers|
    ensures |headers| == |marks| && Linked(marks) && headers[i].height == i
    ensures headers[i].outputMmrSize == marks[i].size && headers[i].kernelMmrSize == marks[i].kernelSize
    ensures forall j :: i < j < |headers| ==> headers[j].hash != headers[i].hash
  {
    hide Linked;
  }

  lemma StoredIs(headers: seq<Header>, bitmaps: map<nat, set<nat>>, marks: seq<Mark>, i: nat)
    requires Stored(headers, bitmaps, marks) && i < |headers|
    ensures |headers| == |marks| && Linked(marks) && headers[i].height == i && Headed(headers, marks)
    ensures headers[i].outputMmrSize == marks[i].size && headers[i].kernelMmrSize == marks[i].kernelSize
    ensures i > 0 ==> headers[i].hash in bitmaps && bitmaps[headers[i].hash] == marks[i].spent
    ensures forall j :: i < j < |headers| ==> headers[j].hash != headers[i].hash
  {
    hide Linked;
    assert i > 0 ==> Bitmapped(headers, bitmaps, marks, i);
  }

  lemma HeadedPush(headers: seq<Header>, marks: seq<Mark>, header: Header, m: Mark)
    requires Headed(headers, marks) && Linked(marks + [m])
    requires forall i :: 0 <= i < |headers| ==> headers[i].hash != header.hash
    requires header.prevHash == headers[|headers| - 1].hash && header.height == |headers|
    requires header.outputMmrSize == m.size && header.kernelMmrSize == m.kernelSize
    ensures Headed(headers + [header], marks + [m])
  {
    hide Linked;
  }

  /** A chain that grew by a block whose bitmap was stored last. */
  lemma StoredLast(headers: seq<Header>, bitmaps: map<nat, set<nat>>, marks: seq<Mark>, header: Header, m: Mark)
    requires Stored(headers, bitmaps, marks) && Headed(headers + [header], marks + [m])
    ensures Stored(headers + [header], bitmaps[header.hash := m.spent], marks + [m])
  {
    hide Linked;
    var headers', marks', bitmaps' := headers + [header], marks + [m], bitmaps[header.hash := m.spent];
    assert headers'[|headers|] == header;
    forall i | 0 < i < |headers'| ensures Bitmapped(headers', bitmaps', marks', i) {
      if i < |headers| {
        assert Bitmapped(headers, bitmaps, marks, i) && headers'[i] == headers[i];
      }
    }
  }

  lemma HeadedPrefix(headers: seq<Header>, marks: seq<Mark>, n: nat)
    requires Headed(headers, marks) && 0 < n <= |headers|
    ensures |headers| == |marks| && Headed(headers[..n], marks[..n])
  {
    hide Sound, Follows;
    LinkedPrefix(marks, n);
    hide Linked;
  }

  lemma StoredPrefix(headers: seq<Header>, bitmaps: map<nat, set<nat>>, marks: seq<Mark>, n: nat)
    requires Stored(headers, bitmaps, marks) && 0 < n <= |headers|
    ensures |headers| == |marks| && Stored(headers[..n], bitmaps, marks[..n])
  {
    hide Linked;
    HeadedPrefix(headers, marks, n);
    forall i | 0 < i < n ensures Bitmapped(headers[..n], bitmaps, marks[..n], i) {
      assert Bitmapped(headers, bitmaps, marks, i);
    }
  }

  lemma StoredFirst(header: Header, m: Mark)
    requires Sound(m) && header.height == 0 && header.outputMmrSize == m.size && header.kernelMmrSize == m.kernelSize
    ensures Stored([header], map[], [m])
  {
    hide Sound;
  }

  lemma VerifiedState(outputs: seq<Commitment>, kernels: seq<Commitment>, overage: int, offset: int)
    ensures Verified(Committed([], outputs, kernels), overage, offset) == Balance(Sum(outputs), Sum(kernels), overage, offset)
  {
    SumNone();
    hide Sum;
  }

  lemma OverageRange(overage: int)
    requires 0 <= overage <= I64_MAX
    ensures I64_MIN < 0 - overage <= I64_MAX
  {}

  /** What a block that is accepted on a set of unspent outputs looks like. */
  ghost predicate Fits(utxo: set<Elmt>, outputs: seq<Elmt>, inputs: seq<Elmt>) {
    CanAdd(utxo, outputs) && CanSpend(utxo, inputs)
  }

  /** Checking against the unspent outputs first and applying after. */
  lemma FitsIs(utxo: set<Elmt>, outputs: seq<Elmt>, inputs: seq<Elmt>)
    ensures Fits(utxo, outputs, inputs) <==> Applicable(utxo, outputs, inputs) && Admits(utxo, outputs, inputs)
  {
    hide CommitOf, Taken;
  }

  function Commits(b: Block, opening: Elmt -> Commitment, excess: Elmt -> Commitment): (c: Committed) {
    Committed(Image(opening, b.inputs), Image(opening, Ids(b.outputs)), Image(excess, b.kernels))
  }

  lemma UniqueIs(index: map<Elmt, nat>, slots: seq<Elmt>, unspent: set<nat>)
    requires Indexed(index, slots, unspent)
    ensures Unique(slots, unspent) && forall p :: p in unspent ==> 1 <= p <= |slots| && IsLeaf(p)
  {
    hide IsLeaf;
  }

  lemma IndexLeaves(index: map<Elmt, nat>, slots: seq<Elmt>, unspent: set<nat>)
    requires Indexed(index, slots, unspent)
    ensures forall c :: c in index ==> IsLeaf(index[c])
  {}

  lemma FollowsIs(a: Mark, b: Mark)
    ensures Follows(a, b) <==> Spends(a.unspent, a.size, b.unspent, b.size, b.spent) && a.kernelSize <= b.kernelSize
  {}

  lemma PrunedPush(marks: seq<Mark>, m: Mark)
    ensures forall i :: 0 <= i < |marks| ==> (marks + [m])[i] == marks[i]
  {}

  lemma ImageConcat(f: Elmt -> Commitment, xs: seq<Elmt>, ys: seq<Elmt>)
    ensures Sum(Image(f, xs + ys)) == Add(Sum(Image(f, xs)), Sum(Image(f, ys)))
  {
    hide Sum;
    assert Image(f, xs + ys) == Image(f, xs) + Image(f, ys);
    SumConcat(Image(f, xs), Image(f, ys));
  }

  /** One more accepted block keeps the accounts. */
  lemma AccountedNext(opening: Elmt -> Commitment, excess: Elmt -> Commitment, chain: ChainType, slots: seq<Elmt>,
                      kernels: seq<Elmt>, headers: seq<Header>, marks: seq<Mark>, sums: map<nat, BlockSums>,
                      slots': seq<Elmt>, kernels': seq<Elmt>, header: Header, m: Mark)
    requires Accounted(opening, excess, chain, slots, kernels, headers, marks, sums) && Linked(marks)
    requires 0 < |headers| <= SCHEDULE_END && slots <= slots' && kernels <= kernels'
    requires forall i :: 0 <= i < |headers| ==> headers[i].hash != header.hash
    requires m.size == |slots'| && m.kernelSize == |kernels'|
    requires Unique(slots', m.unspent) && LastOf(slots', m.unspent, m.size)
    requires var s := FullSums(SumSet(opening, Utxo(slots', m.unspent)), Sum(Image(excess, LeafElements(kernels'))),
                               Overage(chain, headers[0].kernelMmrSize > 0, |headers|));
             s.utxoSum == Add(s.kernelSum, Commitment(0, header.totalKernelOffset))
    ensures var s := FullSums(SumSet(opening, Utxo(slots', m.unspent)), Sum(Image(excess, LeafElements(kernels'))),
                              Overage(chain, headers[0].kernelMmrSize > 0, |headers|));
            Accounted(opening, excess, chain, slots', kernels', headers + [header], marks + [m], sums[header.hash := s])
  {
    hide Overage, AccountedAt, Accounted, Linked, Utxo, SumSet, Sum, Image, LeafElements, FullSums, Unique, LastOf;
    var total := Overage(chain, headers[0].kernelMmrSize > 0, |headers|);
    var s := FullSums(SumSet(opening, Utxo(slots', m.unspent)), Sum(Image(excess, LeafElements(kernels'))), total);
    var sums' := sums[header.hash := s];
    AccountedIs(opening, excess, chain, slots, kernels, headers, marks, sums, 0);
    forall i | 0 <= i < |headers|
      ensures headers[i].hash in sums && marks[i].size <= |slots| && marks[i].kernelSize <= |kernels|
      ensures slots[..marks[i].size] == slots'[..marks[i].size]
      ensures kernels[..marks[i].kernelSize] == kernels'[..marks[i].kernelSize]
    {
      AccountedIs(opening, excess, chain, slots, kernels, headers, marks, sums, i);
    }
    AccountedPrefix(opening, excess, chain, slots, kernels, headers, marks, sums, |headers|, slots', kernels', sums');
    assert headers[..|headers|] == headers && marks[..|headers|] == marks;
    AccountedAtFrom(opening, excess, slots', kernels', header, m, sums', total);
    AccountedPush(opening, excess, chain, slots', kernels', headers, marks, sums', header, m);
  }

  lemma AccountedAtFrom(opening: Elmt -> Commitment, excess: Elmt -> Commitment, slots: seq<Elmt>, kernels: seq<Elmt>,
                        header: Header, m: Mark, sums: map<nat, BlockSums>, total: nat)
    requires header.hash in sums && m.size <= |slots| && m.kernelSize == |kernels|
    requires Unique(slots, m.unspent) && LastOf(slots, m.unspent, m.size)
    requires sums[header.hash] == FullSums(SumSet(opening, Utxo(slots, m.unspent)), Sum(Image(excess, LeafElements(kernels))), total)
    requires sums[header.hash].utxoSum.value == sums[header.hash].kernelSum.value
    requires header.height > 0 ==>
               sums[header.hash].utxoSum == Add(sums[header.hash].kernelSum, Commitment(0, header.totalKernelOffset))
    ensures AccountedAt(opening, excess, slots, kernels, header, m, sums, total)
  {
    hide SumSet, Utxo, Sum, Image, LeafElements, Unique, LastOf, FullSums;
    assert kernels[..|kernels|] == kernels;
  }

  lemma PrunedNothing(m: Mark)
    ensures PrunedBy({}, m)
  {}

  lemma MmrSizeZero()
    ensures Navigation.MmrSize(0) == 0
  {}

  lemma SizeAfterNone(n: nat)
    ensures SizeAfter(0, n) > 0 <==> n > 0
  {
    hide Navigation.MmrSize, Navigation.LeafCount, IsLeaf, Height;
    Navigation.MmrSizeLeaves(0);
    Navigation.MmrSizeLeaves(n);
    Navigation.LeafCountStep(1);
    MmrSizeZero();
  }

  lemma NothingLast()
    ensures LastOf([], {}, 0)
  {}

  lemma SoundIs(m: Mark)
    requires IsLeaf(m.size + 1) && IsLeaf(m.kernelSize + 1)
    requires forall p :: p in m.unspent ==> 1 <= p <= m.size && IsLeaf(p)
    ensures Sound(m)
  {
    hide IsLeaf;
  }

  lemma NoElements()
    ensures LeafElements([]) == []
  {}

  lemma NextFirst(b: Block)
    ensures Next(Ledger([], {}, [], [], [], 0, 0), b) ==
            Ledger([b.header], ElementsOf(Ids(b.outputs)) - ElementsOf(b.inputs), Ids(b.outputs), ProofsOf(b.outputs), b.kernels,
                   SizeAfter(0, |b.outputs|), SizeAfter(0, |b.kernels|))
  {
    hide Ids, ProofsOf, ElementsOf, SizeAfter;
    assert {} + ElementsOf(Ids(b.outputs)) == ElementsOf(Ids(b.outputs));
  }

  lemma NextIs(l: Ledger, b: Block)
    ensures Next(l, b) ==
            Ledger(l.headers + [b.header], l.utxo + ElementsOf(Ids(b.outputs)) - ElementsOf(b.inputs), l.outputs + Ids(b.outputs),
                   l.proofs + ProofsOf(b.outputs), l.kernels + b.kernels, SizeAfter(l.size, |b.outputs|),
                   SizeAfter(l.kernelSize, |b.kernels|))
  {}

  lemma AccountedOffset(opening: Elmt -> Commitment, excess: Elmt -> Commitment, slots: seq<Elmt>, kernels: seq<Elmt>,
                        header: Header, m: Mark, sums: map<nat, BlockSums>, total: nat)
    requires AccountedAt(opening, excess, slots, kernels, header, m, sums, total)
    ensures header.hash in sums
    ensures header.height > 0 ==>
              sums[header.hash].utxoSum == Add(sums[header.hash].kernelSum, Commitment(0, header.totalKernelOffset))
  {
    hide SumSet, Utxo, Sum, Image, LeafElements, Unique, LastOf, Add;
  }

  /** Sums of a whole state that differ by the offset balance. */
  lemma BalanceStored(utxo: Commitment, kernels: Commitment, total: nat, offset: int)
    requires FullSums(utxo, kernels, total).utxoSum == Add(FullSums(utxo, kernels, total).kernelSum, Commitment(0, offset))
    ensures var s := FullSums(utxo, kernels, total);
            Balance(utxo, kernels, 0 - total, offset) == Sums.Result.Ok((s.utxoSum, s.kernelSum))
  {}

  lemma GenesisReward(chain: ChainType)
    ensures Overage(chain, true, 0) == RewardAtHeight(0) + AddRewardFoundation(chain, 0)
    ensures Overage(chain, false, 0) == 0
    ensures I64_MIN < 0 - (RewardAtHeight(0) + AddRewardFoundation(chain, 0)) <= I64_MAX
  {}

  lemma NoInputs(outputs: seq<Elmt>, inputs: seq<Elmt>)
    ensures outputs == [] && Applicable({}, outputs, inputs) ==> inputs == []
  {
    hide CanAdd;
    assert inputs != [] ==> inputs[0] in inputs;
    assert ElementsOf(outputs) == {} || outputs != [];
  }

  lemma NoSums(opening: Elmt -> Commitment, excess: Elmt -> Commitment, b: Block)
    ensures SumSet(opening, {}) == ZERO && Sum(Image(excess, LeafElements([]))) == ZERO
    ensures b.outputs == [] ==> Sum(Image(opening, Ids(b.outputs))) == ZERO
    ensures b.inputs == [] ==> Sum(Image(opening, b.inputs)) == ZERO
    ensures b.kernels == [] ==> Sum(Image(excess, b.kernels)) == ZERO
  {}

  // Positions to put back by a rewind

  function Union(batch: seq<set<nat>>): (u: set<nat>)
    ensures forall p :: p in u <==> exists i :: 0 <= i < |batch| && p in batch[i]
  {
    if batch == [] then {} else
      var n := |batch| - 1;
      var rest := Union(batch[..n]);
      assert forall p :: p in rest ==> exists i :: 0 <= i < n && p in batch[..n][i] && p in batch[i];
      assert forall p :: p in batch[n] ==> exists i :: 0 <= i < |batch| && p in batch[i];
      rest + batch[n]
  }

  const BATCH: nat := 256

  /** Collects one more bitmap, or all of them into one when there are enough or no more come. */
  method FastOr(next: Option<set<nat>>, batch: seq<set<nat>>)
    returns (r: Option<set<nat>>, batch': seq<set<nat>>)
    ensures Union(batch') == Union(batch) + if next.Some? then next.value else {}
    ensures next.None? ==> r == Some(Union(batch))
    ensures |batch| < BATCH ==> |batch'| < BATCH
  {
    batch' := batch;
    if next.Some? {
      batch' := batch' + [next.value];
      assert batch'[..|batch|] == batch;
      if |batch'| < BATCH {
        return None, batch';
      }
    }
    var bitmap := Union(batch');
    batch' := [bitmap];
    assert batch'[..0] == [];
    r := Some(bitmap);
  }

  /** The union of the bitmaps stored for the blocks after block n. */
  ghost function BitmapsAfter(headers: seq<Header>, bitmaps: map<nat, set<nat>>, n: nat): (s: set<nat>) {
    set i, p | n < i < |headers| && headers[i].hash in bitmaps && p in bitmaps[headers[i].hash] :: p
  }

  lemma BitmapsBack(headers: seq<Header>, bitmaps: map<nat, set<nat>>, n: nat)
    requires 0 < n < |headers|
    ensures BitmapsAfter(headers, bitmaps, n - 1) ==
            BitmapsAfter(headers, bitmaps, n) + if headers[n].hash in bitmaps then bitmaps[headers[n].hash] else {}
  {}

  lemma BitmapsNone(headers: seq<Header>, bitmaps: map<nat, set<nat>>)
    requires |headers| > 0
    ensures BitmapsAfter(headers, bitmaps, |headers| - 1) == {} && Union([]) == {}
  {}

  /** input_pos_to_rewind: walks back from the head and takes the union of the bitmaps on the way. */
  method InputPosToRewind(target: Header, headers: seq<Header>, bitmaps: map<nat, set<nat>>)
    returns (r: set<nat>, ghost n: nat)
    requires |headers| > 0 && forall i :: 0 <= i < |headers| ==> headers[i].height == i
    ensures |headers| - 1 < target.height ==> r == {}
    ensures |headers| - 1 >= target.height ==>
              && n < |headers| && (headers[n].hash == target.hash || n == 0)
              && (forall i :: n < i < |headers| ==> headers[i].hash != target.hash)
              && r == BitmapsAfter(headers, bitmaps, n)
  {
    hide Union, BitmapsAfter;
    n := |headers| - 1;
    if headers[|headers| - 1].height < target.height {
      return {}, n;
    }
    BitmapsNone(headers, bitmaps);
    var batch: seq<set<nat>> := [];
    var current := |headers| - 1;
    while headers[current].hash != target.hash
      invariant 0 <= current < |headers| && |batch| < BATCH
      invariant forall i :: current < i < |headers| ==> headers[i].hash != target.hash
      invariant Union(batch) == BitmapsAfter(headers, bitmaps, current)
      decreases current
    {
      if headers[current].height < 1 { break; }
      BitmapsBack(headers, bitmaps, current);
      if headers[current].hash in bitmaps {
        var _, next := FastOr(Some(bitmaps[headers[current].hash]), batch);
        batch := next;
      }
      current := current - 1;
    }
    n := current;
    var all, _ := FastOr(None, batch);
    r := all.value;
  }

  /** The stored bitmaps bring back exactly what the blocks after block k have spent. */
  lemma {:induction false} BitmapsAre(headers: seq<Header>, bitmaps: map<nat, set<nat>>, marks: seq<Mark>, k: nat)
    requires Stored(headers, bitmaps, marks) && k < |headers|
    ensures BitmapsAfter(headers, bitmaps, k) == SpentAfter(marks, k)
    decreases |headers| - k
  {
    hide *;
    StoredIs(headers, bitmaps, marks, k);
    SpentStep(marks, k);
    if k + 1 == |headers| {
      BitmapsNone(headers, bitmaps);
    } else {
      BitmapsAre(headers, bitmaps, marks, k + 1);
      StoredIs(headers, bitmaps, marks, k + 1);
      BitmapsBack(headers, bitmaps, k + 1);
    }
  }

  /** What a chain amounts to, whatever the files and the index look like. */
  datatype Ledger = Ledger(headers: seq<Header>, utxo: set<Elmt>, outputs: seq<Elmt>, proofs: seq<Elmt>, kernels: seq<Elmt>,
                           size: nat, kernelSize: nat)

  ghost function Next(l: Ledger, b: Block): (r: Ledger) {
    Ledger(l.headers + [b.header], l.utxo + ElementsOf(Ids(b.outputs)) - ElementsOf(b.inputs), l.outputs + Ids(b.outputs),
           l.proofs + ProofsOf(b.outputs), l.kernels + b.kernels, SizeAfter(l.size, |b.outputs|), SizeAfter(l.kernelSize, |b.kernels|))
  }

  /** The block is the next one of the chain, and another one than all before. */
  ghost predicate Continues(headers: seq<Header>, header: Header) {
    && 0 < |headers| <= SCHEDULE_END
    && header.prevHash == headers[|headers| - 1].hash && header.height == |headers|
    && forall i :: 0 <= i < |headers| ==> headers[i].hash != header.hash
  }

  lemma ContinuesIs(headers: seq<Header>, header: Header)
    ensures Continues(headers, header) <==>
              && 0 < |headers| <= SCHEDULE_END
              && header.prevHash == headers[|headers| - 1].hash && header.height == |headers|
              && forall i :: 0 <= i < |headers| ==> headers[i].hash != header.hash
  {}

  ghost predicate Cut<T>(whole: seq<T>, n: nat, part: seq<T>) {
    n <= |whole| && part == whole[..n]
  }

  lemma CutIs<T(!new)>()
    ensures forall whole: seq<T>, n: nat, part: seq<T> :: Cut(whole, n, part) <==> n <= |whole| && part == whole[..n]
  {}

  class TxHashSet {
    const ext: Extension
    const chain: ChainType
    /** The commitment in an output identifier and the excess in a kernel. */
    const opening: Elmt -> Commitment
    const excess: Elmt -> Commitment
    var headers: seq<Header>
    var bitmaps: map<nat, set<nat>>
    var sums: map<nat, BlockSums>
    ghost var marks: seq<Mark>
    /** The block of the last compaction. */
    ghost var horizon: nat

    constructor (e: Extension, c: ChainType, open: Elmt -> Commitment, x: Elmt -> Commitment)
      ensures ext == e && chain == c && opening == open && excess == x
      ensures headers == [] && bitmaps == map[] && sums == map[] && marks == [] && horizon == 0
    {
      ext, chain, opening, excess := e, c, open, x;
      headers, bitmaps, sums, marks, horizon := [], map[], map[], [], 0;
    }

    ghost predicate AtHead()
      reads this`marks, ext.outputPmmr, ext.kernelPmmr, ext.outputPmmr.backend.leafSet
    {
      && |marks| > 0
      && marks[|marks| - 1].size == ext.outputPmmr.lastPos
      && marks[|marks| - 1].kernelSize == ext.kernelPmmr.lastPos
      && marks[|marks| - 1].unspent == ext.UnspentSet()
    }

    ghost predicate Pruned()
      reads this`marks, this`horizon, ext.outputPmmr.backend.pruneList, ext.rproofPmmr.backend.pruneList
    {
      && horizon < |marks|
      && PrunedBy(ext.outputPmmr.backend.pruneList.leaves, marks[horizon])
      && PrunedBy(ext.rproofPmmr.backend.pruneList.leaves, marks[horizon])
    }

    /** The trees, the headers and the accounts, but neither the index of output positions nor the stored input bitmaps. */
    ghost predicate Chained()
      reads this
      reads ext.outputPmmr, ext.outputPmmr.backend, ext.outputPmmr.backend.hashFile, ext.outputPmmr.backend.dataFile, ext.outputPmmr.backend.leafSet, ext.outputPmmr.backend.pruneList
      reads ext.rproofPmmr, ext.rproofPmmr.backend, ext.rproofPmmr.backend.hashFile, ext.rproofPmmr.backend.dataFile, ext.rproofPmmr.backend.leafSet, ext.rproofPmmr.backend.pruneList
      reads ext.kernelPmmr, ext.kernelPmmr.backend, ext.kernelPmmr.backend.hashFile, ext.kernelPmmr.backend.dataFile, ext.kernelPmmr.backend.leafSet, ext.kernelPmmr.backend.pruneList
    {
      && ext.Trees() && AtHead() && Pruned() && Injective(ext.outputPmmr.hasher)
      && Headed(headers, marks)
      && Accounted(opening, excess, chain, ext.Slots(), ext.kernelPmmr.backend.slots, headers, marks, sums)
    }

    /** Everything but the index of output positions. */
    ghost predicate Consistent()
      reads this
      reads ext.outputPmmr, ext.outputPmmr.backend, ext.outputPmmr.backend.hashFile, ext.outputPmmr.backend.dataFile, ext.outputPmmr.backend.leafSet, ext.outputPmmr.backend.pruneList
      reads ext.rproofPmmr, ext.rproofPmmr.backend, ext.rproofPmmr.backend.hashFile, ext.rproofPmmr.backend.dataFile, ext.rproofPmmr.backend.leafSet, ext.rproofPmmr.backend.pruneList
      reads ext.kernelPmmr, ext.kernelPmmr.backend, ext.kernelPmmr.backend.hashFile, ext.kernelPmmr.backend.dataFile, ext.kernelPmmr.backend.leafSet, ext.kernelPmmr.backend.pruneList
    {
      Chained() && Stored(headers, bitmaps, marks)
    }

    /** A unit of work that can take more blocks. */
    ghost predicate Working()
      reads this, ext
      reads ext.outputPmmr, ext.outputPmmr.backend, ext.outputPmmr.backend.hashFile, ext.outputPmmr.backend.dataFile, ext.outputPmmr.backend.leafSet, ext.outputPmmr.backend.pruneList
      reads ext.rproofPmmr, ext.rproofPmmr.backend, ext.rproofPmmr.backend.hashFile, ext.rproofPmmr.backend.dataFile, ext.rproofPmmr.backend.leafSet, ext.rproofPmmr.backend.pruneList
      reads ext.kernelPmmr, ext.kernelPmmr.backend, ext.kernelPmmr.backend.hashFile, ext.kernelPmmr.backend.dataFile, ext.kernelPmmr.backend.leafSet, ext.kernelPmmr.backend.pruneList
    {
      Chained() && ext.Valid()
    }

    ghost predicate Valid()
      reads this, ext
      reads ext.outputPmmr, ext.outputPmmr.backend, ext.outputPmmr.backend.hashFile, ext.outputPmmr.backend.dataFile, ext.outputPmmr.backend.leafSet, ext.outputPmmr.backend.pruneList
      reads ext.rproofPmmr, ext.rproofPmmr.backend, ext.rproofPmmr.backend.hashFile, ext.rproofPmmr.backend.dataFile, ext.rproofPmmr.backend.leafSet, ext.rproofPmmr.backend.pruneList
      reads ext.kernelPmmr, ext.kernelPmmr.backend, ext.kernelPmmr.backend.hashFile, ext.kernelPmmr.backend.dataFile, ext.kernelPmmr.backend.leafSet, ext.kernelPmmr.backend.pruneList
    {
      Consistent() && ext.Valid() && ext.Clean()
    }

    ghost function UtxoSum(): Commitment
      reads ext.outputPmmr, ext.outputPmmr.backend, ext.outputPmmr.backend.leafSet
    {
      SumSet(opening, ext.UtxoSet())
    }

    ghost function KernelSum(): Commitment
      reads ext.kernelPmmr.backend
    {
      Sum(Image(excess, LeafElements(ext.kernelPmmr.backend.slots)))
    }

    ghost predicate GenesisHadReward()
      requires |headers| > 0
      reads this`headers
    {
      headers[0].kernelMmrSize > 0
    }

    /** The whole state after a block, checked from the beginning. */
    ghost function FullCheck(b: Block): (r: Sums.Result<(Commitment, Commitment)>)
      requires 0 < |headers| <= SCHEDULE_END
      reads this`headers, ext.outputPmmr, ext.outputPmmr.backend, ext.outputPmmr.backend.leafSet, ext.kernelPmmr.backend
    {
      Balance(UtxoAfter(b), KernelsAfter(b), 0 - Overage(chain, GenesisHadReward(), |headers|), b.header.totalKernelOffset)
    }

    /** The same check from a ledger alone. */
    ghost function CheckedOn(l: Ledger, b: Block): (r: Sums.Result<(Commitment, Commitment)>)
      requires 0 < |l.headers| <= SCHEDULE_END
    {
      Balance(Add(SumSet(opening, l.utxo), Sub(Sum(Image(opening, Ids(b.outputs))), Sum(Image(opening, b.inputs)))),
              Add(Sum(Image(excess, l.kernels)), Sum(Image(excess, b.kernels))),
              0 - Overage(chain, l.headers[0].kernelMmrSize > 0, |l.headers|), b.header.totalKernelOffset)
    }

    /** The block may come next: it spends and creates what it may, balances the whole state and names its sizes. */
    ghost predicate Takes(l: Ledger, b: Block) {
      && Continues(l.headers, b.header)
      && Fits(l.utxo, Ids(b.outputs), b.inputs)
      && CheckedOn(l, b).Ok?
      && b.header.outputMmrSize == SizeAfter(l.size, |b.outputs|)
      && b.header.kernelMmrSize == SizeAfter(l.kernelSize, |b.kernels|)
    }

    ghost function Now(): (l: Ledger)
      reads this`headers, ext.outputPmmr, ext.outputPmmr.backend, ext.outputPmmr.backend.leafSet
      reads ext.rproofPmmr.backend, ext.kernelPmmr, ext.kernelPmmr.backend
    {
      Ledger(headers, ext.UtxoSet(), LeafElements(ext.Slots()), LeafElements(ext.Proofs()),
             LeafElements(ext.kernelPmmr.backend.slots), ext.outputPmmr.lastPos, ext.kernelPmmr.lastPos)
    }

    lemma NowIs()
      ensures Now() == Ledger(headers, ext.UtxoSet(), LeafElements(ext.Slots()), LeafElements(ext.Proofs()),
                              LeafElements(ext.kernelPmmr.backend.slots), ext.outputPmmr.lastPos, ext.kernelPmmr.lastPos)
    {}

    lemma TakesIs(b: Block)
      requires Continues(headers, b.header)
      ensures Takes(Now(), b) <==>
                && Fits(ext.UtxoSet(), Ids(b.outputs), b.inputs)
                && FullCheck(b).Ok?
                && b.header.outputMmrSize == SizeAfter(ext.outputPmmr.lastPos, |b.outputs|)
                && b.header.kernelMmrSize == SizeAfter(ext.kernelPmmr.lastPos, |b.kernels|)
    {
      hide *;
      NowIs();
      ContinuesIs(headers, b.header);
      FullCheckAs(b);
      SumsAre();
      CheckedIs(Now(), b);
      TakesParts(Now(), b);
    }

    lemma CheckedIs(l: Ledger, b: Block)
      requires 0 < |l.headers| <= SCHEDULE_END
      ensures CheckedOn(l, b) ==
              Balance(Add(SumSet(opening, l.utxo), Sub(Sum(Image(opening, Ids(b.outputs))), Sum(Image(opening, b.inputs)))),
                      Add(Sum(Image(excess, l.kernels)), Sum(Image(excess, b.kernels))),
                      0 - Overage(chain, l.headers[0].kernelMmrSize > 0, |l.headers|), b.header.totalKernelOffset)
    {
      hide Sum, Image, Overage, Balance, Add, Sub, SumSet, Ids;
    }

    lemma TakesParts(l: Ledger, b: Block)
      requires 0 < |l.headers| <= SCHEDULE_END
      ensures Takes(l, b) <==>
                && Continues(l.headers, b.header)
                && Fits(l.utxo, Ids(b.outputs), b.inputs)
                && CheckedOn(l, b).Ok?
                && b.header.outputMmrSize == SizeAfter(l.size, |b.outputs|)
                && b.header.kernelMmrSize == SizeAfter(l.kernelSize, |b.kernels|)
    {
      hide Continues, Fits, CheckedOn, SizeAfter, Ids;
    }

    lemma FullCheckAs(b: Block)
      requires 0 < |headers| <= SCHEDULE_END
      ensures FullCheck(b) ==
              Balance(Add(UtxoSum(), Sub(Sum(Image(opening, Ids(b.outputs))), Sum(Image(opening, b.inputs)))),
                      Add(KernelSum(), Sum(Image(excess, b.kernels))),
                      0 - Overage(chain, headers[0].kernelMmrSize > 0, |headers|), b.header.totalKernelOffset)
    {
      hide Sum, Image, Overage, UtxoSum, KernelSum, Ids, Balance, Add, Sub;
    }

    /** The sums of the whole state after the block. */
    ghost function SumsAfter(b: Block): (s: BlockSums)
      requires 0 < |headers| <= SCHEDULE_END
      reads this`headers, ext.outputPmmr, ext.outputPmmr.backend, ext.outputPmmr.backend.leafSet, ext.kernelPmmr.backend
    {
      FullSums(UtxoAfter(b), KernelsAfter(b), Overage(chain, GenesisHadReward(), |headers|))
    }

    lemma SumsAfterIs(b: Block)
      requires 0 < |headers| <= SCHEDULE_END
      ensures SumsAfter(b) == FullSums(UtxoAfter(b), KernelsAfter(b), Overage(chain, GenesisHadReward(), |headers|))
    {
      hide FullSums, Overage, UtxoAfter, KernelsAfter;
    }

    ghost function UtxoAfter(b: Block): Commitment
      reads ext.outputPmmr, ext.outputPmmr.backend, ext.outputPmmr.backend.leafSet
    {
      Add(UtxoSum(), Sub(Sum(Image(opening, Ids(b.outputs))), Sum(Image(opening, b.inputs))))
    }

    ghost function KernelsAfter(b: Block): Commitment
      reads ext.kernelPmmr.backend
    {
      Add(KernelSum(), Sum(Image(excess, b.kernels)))
    }

    lemma SumsAre()
      ensures UtxoSum() == SumSet(opening, ext.UtxoSet())
      ensures KernelSum() == Sum(Image(excess, LeafElements(ext.kernelPmmr.backend.slots)))
      ensures |headers| > 0 ==> GenesisHadReward() == (headers[0].kernelMmrSize > 0)
    {}

    lemma ChainedIs()
      requires Chained()
      ensures 0 < |headers| == |marks| <= SCHEDULE_END + 1 && Linked(marks) && Injective(ext.outputPmmr.hasher)
      ensures ext.Trees() && AtHead() && Pruned() && Headed(headers, marks)
      ensures Accounted(opening, excess, chain, ext.Slots(), ext.kernelPmmr.backend.slots, headers, marks, sums)
    {
      hide Extension.Trees, AtHead, Pruned, Linked, Injective, AccountedAt, Overage;
    }

    lemma ConsistentIs()
      requires Consistent()
      ensures 0 < |headers| == |marks| <= SCHEDULE_END + 1 && Linked(marks) && Injective(ext.outputPmmr.hasher)
      ensures ext.Trees() && AtHead() && Pruned() && Stored(headers, bitmaps, marks) && Chained()
      ensures Accounted(opening, excess, chain, ext.Slots(), ext.kernelPmmr.backend.slots, headers, marks, sums)
    {
      hide Chained, Stored;
      ChainedIs();
    }

    lemma AtHeadIs()
      ensures AtHead() <==>
                && |marks| > 0
                && marks[|marks| - 1].size == ext.outputPmmr.lastPos
                && marks[|marks| - 1].kernelSize == ext.kernelPmmr.lastPos
                && marks[|marks| - 1].unspent == ext.UnspentSet()
    {}

    /** The sums of the whole state. */
    ghost function StateNow(): (s: BlockSums)
      requires 0 < |headers| <= SCHEDULE_END + 1
      reads this`headers, ext.outputPmmr, ext.outputPmmr.backend, ext.outputPmmr.backend.leafSet, ext.kernelPmmr.backend
    {
      FullSums(UtxoSum(), KernelSum(), Overage(chain, GenesisHadReward(), |headers| - 1))
    }

    lemma StateNowIs()
      requires 0 < |headers| <= SCHEDULE_END + 1
      ensures StateNow() == FullSums(UtxoSum(), KernelSum(), Overage(chain, GenesisHadReward(), |headers| - 1))
    {
      hide FullSums, Overage, UtxoSum, KernelSum;
    }

    /** The sums stored for the head are those of the whole state. */
    lemma HeadSums()
      requires Chained()
      ensures 0 < |headers| <= SCHEDULE_END + 1 && headers[|headers| - 1].hash in sums
      ensures sums[headers[|headers| - 1].hash] ==
              FullSums(UtxoSum(), KernelSum(), Overage(chain, GenesisHadReward(), |headers| - 1))
      ensures sums[headers[|headers| - 1].hash].utxoSum.value == sums[headers[|headers| - 1].hash].kernelSum.value
    {
      hide *;
      ChainedIs();
      AtHeadIs();
      ext.TreesParts();
      ext.kernelPmmr.ValidParts();
      ext.UtxoIs();
      SumsAre();
      var n := |headers| - 1;
      AccountedIs(opening, excess, chain, ext.Slots(), ext.kernelPmmr.backend.slots, headers, marks, sums, n);
      AccountedAtIs(opening, excess, ext.Slots(), ext.kernelPmmr.backend.slots, headers[n], marks[n], sums,
                    Overage(chain, headers[0].kernelMmrSize > 0, n));
      assert ext.kernelPmmr.backend.slots[..ext.kernelPmmr.lastPos] == ext.kernelPmmr.backend.slots;
    }

    /** The check of a first block that carries a reward. */
    ghost function GenesisCheck(b: Block): (r: Sums.Result<(Commitment, Commitment)>) {
      Balance(Sub(Sum(Image(opening, Ids(b.outputs))), Sum(Image(opening, b.inputs))), Sum(Image(excess, b.kernels)),
              0 - Overage(chain, true, 0), b.header.totalKernelOffset)
    }

    /**
     * setup_head without a stored head: the first block. The sizes in its header are
     * not checked, and without kernels its outputs would not be, so both are demanded of it.
     */
    method SetupHead(genesis: Block) returns (ok: bool)
      requires headers == [] && marks == [] && bitmaps == map[] && sums == map[] && horizon == 0
      requires ext.Valid() && ext.Clean() && ext.index == map[] && ext.outputPmmr.lastPos == 0 && ext.kernelPmmr.lastPos == 0
      requires Injective(ext.outputPmmr.hasher) && ext.Sized(genesis.outputs, genesis.kernels)
      requires ext.outputPmmr.backend.pruneList.leaves == {} && ext.rproofPmmr.backend.pruneList.leaves == {}
      requires genesis.header.height == 0 && (genesis.kernels == [] ==> genesis.outputs == [])
      requires genesis.header.outputMmrSize == SizeAfter(0, |genesis.outputs|)
      requires genesis.header.kernelMmrSize == SizeAfter(0, |genesis.kernels|)
      modifies this, ext
      modifies ext.outputPmmr, ext.outputPmmr.backend, ext.outputPmmr.backend.hashFile, ext.outputPmmr.backend.dataFile, ext.outputPmmr.backend.leafSet
      modifies ext.rproofPmmr, ext.rproofPmmr.backend, ext.rproofPmmr.backend.hashFile, ext.rproofPmmr.backend.dataFile, ext.rproofPmmr.backend.leafSet
      modifies ext.kernelPmmr, ext.kernelPmmr.backend, ext.kernelPmmr.backend.hashFile, ext.kernelPmmr.backend.dataFile, ext.kernelPmmr.backend.leafSet
      ensures ok <==>
                && Applicable({}, Ids(genesis.outputs), genesis.inputs)
                && (genesis.kernels != [] ==> GenesisCheck(genesis).Ok?)
      ensures ok ==> Valid() && headers == [genesis.header] && sums.Keys == {genesis.header.hash} && bitmaps == map[]
      ensures ok ==> |marks| == 1 && horizon == 0 && ext.Newest()
      ensures ok ==> Now() == Next(Ledger([], {}, [], [], [], 0, 0), genesis)
      ensures ok ==>
                && ext.UtxoSet() == ElementsOf(Ids(genesis.outputs)) - ElementsOf(genesis.inputs)
                && LeafElements(ext.kernelPmmr.backend.slots) == genesis.kernels
                && ext.outputPmmr.lastPos == genesis.header.outputMmrSize
                && ext.kernelPmmr.lastPos == genesis.header.kernelMmrSize
    {
      hide *;
      var first;
      ok, first := CheckFirst(genesis);
      if !ok { return; }
      ok := ApplyFirst(genesis);
      if !ok { return; }
      FirstSumsAre(genesis, first);
      SizeAfterNone(|genesis.kernels|);
      RecordFirst(genesis, first);
      NowIs();
      NextFirst(genesis);
    }

    /** The sums stored for the first block, before it is known that its inputs are in order. */
    ghost predicate FirstSums(genesis: Block, first: BlockSums) {
      && first == FullSums(Add(ZERO, Sub(Sum(Image(opening, Ids(genesis.outputs))), Sum(Image(opening, genesis.inputs)))),
                           Add(ZERO, Sum(Image(excess, genesis.kernels))), Overage(chain, |genesis.kernels| > 0, 0))
      && first.utxoSum.value == first.kernelSum.value
    }

    lemma FirstSumsFrom(genesis: Block, first: BlockSums)
      requires first == FullSums(Add(ZERO, Sub(Sum(Image(opening, Ids(genesis.outputs))), Sum(Image(opening, genesis.inputs)))),
                                 Add(ZERO, Sum(Image(excess, genesis.kernels))), Overage(chain, |genesis.kernels| > 0, 0))
      requires first.utxoSum.value == first.kernelSum.value
      ensures FirstSums(genesis, first)
    {
      hide Overage, Sum, Image, Add, Sub, FullSums, Ids;
    }

    lemma FirstSumsAre(genesis: Block, first: BlockSums)
      requires FirstSums(genesis, first) && Applicable({}, Ids(genesis.outputs), genesis.inputs)
      requires ext.UtxoSet() == ElementsOf(Ids(genesis.outputs)) - ElementsOf(genesis.inputs)
      requires LeafElements(ext.kernelPmmr.backend.slots) == genesis.kernels
      ensures first == FullSums(UtxoSum(), KernelSum(), Overage(chain, |genesis.kernels| > 0, 0))
      ensures first.utxoSum.value == first.kernelSum.value
    {
      hide Overage, Sum, Image, Add, Sub, FullSums, Ids, ElementsOf, Applicable, UtxoSum, KernelSum, SumSet, LeafElements,
        Extension.UtxoSet;
      NoSums(opening, excess, genesis);
      assert {} + ElementsOf(Ids(genesis.outputs)) == ElementsOf(Ids(genesis.outputs));
      assert LeafElements([]) + genesis.kernels == genesis.kernels by { NoElements(); }
      NextSums(genesis, {}, [], ZERO, ZERO);
    }

    /** A first block with kernels has to balance. */
    method CheckFirst(genesis: Block) returns (ok: bool, first: BlockSums)
      requires genesis.kernels == [] ==> genesis.outputs == []
      ensures ok <==> (genesis.kernels != [] ==> GenesisCheck(genesis).Ok?)
      ensures ok && Applicable({}, Ids(genesis.outputs), genesis.inputs) ==> FirstSums(genesis, first)
    {
      hide *;
      GenesisSums(genesis);
      ok, first := true, BlockSums(ZERO, ZERO);
      if |genesis.kernels| > 0 {
        var overage := 0 - (RewardAtHeight(0) + AddRewardFoundation(chain, 0));
        var verified := VerifyKernelSums(WithSums(first, Commits(genesis, opening, excess)), overage,
                                         genesis.header.totalKernelOffset);
        if verified.Err? { return false, first; }
        first := BlockSums(verified.value.0, verified.value.1);
        FirstSumsFrom(genesis, first);
      } else if Applicable({}, Ids(genesis.outputs), genesis.inputs) {
        FirstSumsFrom(genesis, first);
      }
    }

    /** The empty trees take the first block. */
    method ApplyFirst(genesis: Block) returns (ok: bool)
      requires ext.Valid() && ext.Clean() && ext.index == map[] && ext.outputPmmr.lastPos == 0 && ext.kernelPmmr.lastPos == 0
      requires Injective(ext.outputPmmr.hasher) && ext.Sized(genesis.outputs, genesis.kernels)
      modifies ext
      modifies ext.outputPmmr, ext.outputPmmr.backend, ext.outputPmmr.backend.hashFile, ext.outputPmmr.backend.dataFile, ext.outputPmmr.backend.leafSet
      modifies ext.rproofPmmr, ext.rproofPmmr.backend, ext.rproofPmmr.backend.hashFile, ext.rproofPmmr.backend.dataFile, ext.rproofPmmr.backend.leafSet
      modifies ext.kernelPmmr, ext.kernelPmmr.backend, ext.kernelPmmr.backend.hashFile, ext.kernelPmmr.backend.dataFile, ext.kernelPmmr.backend.leafSet
      ensures ok <==> Applicable({}, Ids(genesis.outputs), genesis.inputs)
      ensures ok ==>
                && ext.Valid() && ext.Clean() && ext.Newest() && ext.Final()
                && ext.UtxoSet() == ElementsOf(Ids(genesis.outputs)) - ElementsOf(genesis.inputs)
                && LeafElements(ext.Slots()) == Ids(genesis.outputs) && LeafElements(ext.Proofs()) == ProofsOf(genesis.outputs)
                && LeafElements(ext.kernelPmmr.backend.slots) == genesis.kernels
                && ext.outputPmmr.lastPos == SizeAfter(0, |genesis.outputs|)
                && ext.kernelPmmr.lastPos == SizeAfter(0, |genesis.kernels|)
    {
      hide *;
      ext.EmptyIs();
      ext.FinalIs();
      NothingLast();
      ext.EmptyExactly();
      ext.ExactlyTold(Ids(genesis.outputs), genesis.inputs);
      ok := ext.ApplyBlock(genesis.outputs, genesis.inputs, genesis.kernels);
      if !ok { return; }
      assert [] + Ids(genesis.outputs) == Ids(genesis.outputs) && [] + ProofsOf(genesis.outputs) == ProofsOf(genesis.outputs);
      ext.LiveIs();
      ext.AbstractIs();
      ext.UtxoIs();
      ext.NewestIs();
      ext.FinalIs();
      ext.Sync();
      ext.LiveIs();
      ext.AbstractIs();
      ext.UtxoIs();
      ext.NewestIs();
      ext.FinalIs();
    }

    method RecordFirst(genesis: Block, first: BlockSums)
      requires headers == [] && marks == [] && bitmaps == map[] && sums == map[] && horizon == 0
      requires ext.Valid() && ext.Clean() && ext.Final() && Injective(ext.outputPmmr.hasher)
      requires ext.outputPmmr.backend.pruneList.leaves == {} && ext.rproofPmmr.backend.pruneList.leaves == {}
      requires genesis.header.height == 0 && (genesis.header.kernelMmrSize > 0 <==> |genesis.kernels| > 0)
      requires genesis.header.outputMmrSize == ext.outputPmmr.lastPos
      requires genesis.header.kernelMmrSize == ext.kernelPmmr.lastPos
      requires first == FullSums(UtxoSum(), KernelSum(), Overage(chain, |genesis.kernels| > 0, 0))
      requires first.utxoSum.value == first.kernelSum.value
      modifies this`sums, this`headers, this`marks
      ensures Valid() && headers == [genesis.header] && sums.Keys == {genesis.header.hash} && |marks| == 1
    {
      hide *;
      sums := sums[genesis.header.hash := first];
      headers := [genesis.header];
      ghost var m := Mark(ext.outputPmmr.lastPos, ext.kernelPmmr.lastPos, ext.UnspentSet(), {});
      MarkSound(m);
      SumsAre();
      ext.UtxoIs();
      AccountedAtFrom(opening, excess, ext.Slots(), ext.kernelPmmr.backend.slots, genesis.header, m, sums,
                      Overage(chain, |genesis.kernels| > 0, 0));
      assert [] + [genesis.header] == [genesis.header] && [] + [m] == [m];
      AccountedPush(opening, excess, chain, ext.Slots(), ext.kernelPmmr.backend.slots, [], [], sums, genesis.header, m);
      StoredFirst(genesis.header, m);
      marks := [m];
      AtHeadIs();
      PrunedNothing(m);
      PrunedIs();
      ext.ValidIs();
      StoredParts(headers, bitmaps, marks);
      ChainedFrom();
      ConsistentFrom();
      ValidFrom();
    }

    /** The sums of the first block: those of its state, and balanced in value. */
    lemma GenesisSums(b: Block)
      requires b.kernels == [] ==> b.outputs == []
      ensures I64_MIN < 0 - (RewardAtHeight(0) + AddRewardFoundation(chain, 0)) <= I64_MAX
      ensures SumSet(opening, {}) == ZERO && Sum(Image(excess, LeafElements([]))) == ZERO
      ensures var full := Verified(WithSums(BlockSums(ZERO, ZERO), Commits(b, opening, excess)),
                                   0 - (RewardAtHeight(0) + AddRewardFoundation(chain, 0)), b.header.totalKernelOffset);
              && full == GenesisCheck(b)
              && (full.Ok? ==>
                    BlockSums(full.value.0, full.value.1) ==
                    FullSums(Add(ZERO, Sub(Sum(Image(opening, Ids(b.outputs))), Sum(Image(opening, b.inputs)))),
                             Add(ZERO, Sum(Image(excess, b.kernels))), Overage(chain, true, 0)))
              && (full.Ok? ==> full.value.0.value == full.value.1.value)
      ensures b.kernels == [] && b.inputs == [] ==>
                BlockSums(ZERO, ZERO) ==
                FullSums(Add(ZERO, Sub(Sum(Image(opening, Ids(b.outputs))), Sum(Image(opening, b.inputs)))),
                         Add(ZERO, Sum(Image(excess, b.kernels))), Overage(chain, false, 0))
      ensures Applicable({}, Ids(b.outputs), b.inputs) && b.kernels == [] ==> b.inputs == []
    {
      hide *;
      GenesisReward(chain);
      NoInputs(Ids(b.outputs), b.inputs);
      NoSums(opening, excess, b);
      CommitsAre(b);
      IncrementalIsFull(Commits(b, opening, excess), ZERO, ZERO, 0, RewardAtHeight(0) + AddRewardFoundation(chain, 0),
                        b.header.totalKernelOffset);
      ZeroSums(Sub(Sum(Image(opening, Ids(b.outputs))), Sum(Image(opening, b.inputs))));
      ZeroSums(Sum(Image(excess, b.kernels)));
      ZeroFull();
      BalancedValue(Sub(Sum(Image(opening, Ids(b.outputs))), Sum(Image(opening, b.inputs))), Sum(Image(excess, b.kernels)),
                    0 - Overage(chain, true, 0), b.header.totalKernelOffset);
    }

    lemma CommitsAre(b: Block)
      ensures Commits(b, opening, excess) ==
              Committed(Image(opening, b.inputs), Image(opening, Ids(b.outputs)), Image(excess, b.kernels))
      ensures GenesisCheck(b) ==
              Balance(Sub(Sum(Image(opening, Ids(b.outputs))), Sum(Image(opening, b.inputs))), Sum(Image(excess, b.kernels)),
                      0 - Overage(chain, true, 0), b.header.totalKernelOffset)
      ensures b.outputs == [] ==> Ids(b.outputs) == []
    {}

    /** verify_block_sums: the check against the stored sums of the previous block is the check of the whole state. */
    method VerifyBlockSums(b: Block) returns (ok: bool)
      requires 0 < |headers| <= SCHEDULE_END
      requires b.header.prevHash == headers[|headers| - 1].hash && b.header.height == |headers|
      requires b.header.prevHash in sums && sums[b.header.prevHash] == StateNow()
      modifies this`sums
      ensures ok <==> FullCheck(b).Ok?
      ensures sums == if ok then old(sums)[b.header.hash := SumsAfter(b)] else old(sums)
    {
      hide *;
      StateNowIs();
      SumsAfterIs(b);
      var blockSums := sums[b.header.prevHash];
      OverageNext();
      var overage := 0 - (RewardAtHeight(b.header.height) + AddRewardFoundation(chain, b.header.height));
      var verified := VerifyKernelSums(WithSums(blockSums, Commits(b, opening, excess)), overage, b.header.totalKernelOffset);
      FullCheckIs(b);
      if verified.Err? { return false; }
      sums := sums[b.header.hash := BlockSums(verified.value.0, verified.value.1)];
      ok := true;
    }

    lemma OverageNext()
      requires 0 < |headers| <= SCHEDULE_END
      ensures var h := |headers|;
              && Overage(chain, GenesisHadReward(), h)
                 == Overage(chain, GenesisHadReward(), h - 1) + (RewardAtHeight(h) + AddRewardFoundation(chain, h))
              && I64_MIN < 0 - (RewardAtHeight(h) + AddRewardFoundation(chain, h)) <= 0 <= I64_MAX
    {
      hide RewardAtHeight, AddRewardFoundation, GenesisHadReward;
      OverageCapped(chain, GenesisHadReward(), |headers|);
    }

    lemma FullCheckIs(b: Block)
      requires 0 < |headers| <= SCHEDULE_END
      ensures var h := |headers|;
              var total := Overage(chain, GenesisHadReward(), h - 1);
              var reward := RewardAtHeight(h) + AddRewardFoundation(chain, h);
              && Verified(WithSums(FullSums(UtxoSum(), KernelSum(), total), Commits(b, opening, excess)), 0 - reward,
                          b.header.totalKernelOffset) == FullCheck(b)
              && (FullCheck(b).Ok? ==>
                    BlockSums(FullCheck(b).value.0, FullCheck(b).value.1) ==
                    FullSums(UtxoAfter(b), KernelsAfter(b), Overage(chain, GenesisHadReward(), h)))
    {
      hide RewardAtHeight, AddRewardFoundation, GenesisHadReward, Sum, SumSet, Image, Balance, Verified, FullSums;
      OverageNext();
      hide Overage;
      var h := |headers|;
      IncrementalIsFull(Commits(b, opening, excess), UtxoSum(), KernelSum(), Overage(chain, GenesisHadReward(), h - 1),
                        RewardAtHeight(h) + AddRewardFoundation(chain, h), b.header.totalKernelOffset);
    }

    /** validate_kernel_sums: the verdict from all unspent outputs and all kernels, which are the stored sums of the head. */
    method ValidateKernelSums() returns (r: Sums.Result<(Commitment, Commitment)>)
      requires Valid()
      ensures 0 < |headers| <= SCHEDULE_END + 1 && headers[|headers| - 1].hash in sums
      ensures r == Balance(UtxoSum(), KernelSum(), 0 - Overage(chain, GenesisHadReward(), |headers| - 1),
                           headers[|headers| - 1].totalKernelOffset)
      ensures |headers| > 1 ==>
                var head := sums[headers[|headers| - 1].hash];
                r == Sums.Result.Ok((head.utxoSum, head.kernelSum))
    {
      hide *;
      ValidParts();
      ConsistentIs();
      SumsAre();
      HeadSums();
      HeadBalances();
      var outputs, ids := ext.OutputsCommitted(opening);
      SumSetListing(opening, ids);
      var kernels := ext.KernelsCommitted(excess);
      var overage := TotalOverageAtHeight(chain, headers[0].kernelMmrSize > 0, |headers| - 1);
      OverageRange(overage);
      r := VerifyKernelSums(Committed([], outputs, kernels), 0 - overage, headers[|headers| - 1].totalKernelOffset);
      VerifiedState(outputs, kernels, 0 - overage, headers[|headers| - 1].totalKernelOffset);
    }

    /** An accepted chain passes the full check, with the sums that are stored for its head. */
    lemma HeadBalances()
      requires Chained()
      ensures 0 < |headers| <= SCHEDULE_END + 1 && headers[|headers| - 1].hash in sums
      ensures |headers| > 1 ==>
                var head := sums[headers[|headers| - 1].hash];
                Balance(UtxoSum(), KernelSum(), 0 - Overage(chain, GenesisHadReward(), |headers| - 1),
                        headers[|headers| - 1].totalKernelOffset) == Sums.Result.Ok((head.utxoSum, head.kernelSum))
    {
      hide *;
      ChainedIs();
      HeadSums();
      var n := |headers| - 1;
      HeadedIs(headers, marks, n);
      AccountedIs(opening, excess, chain, ext.Slots(), ext.kernelPmmr.backend.slots, headers, marks, sums, n);
      AccountedOffset(opening, excess, ext.Slots(), ext.kernelPmmr.backend.slots, headers[n], marks[n], sums,
                      Overage(chain, headers[0].kernelMmrSize > 0, n));
      if n > 0 {
        BalanceStored(UtxoSum(), KernelSum(), Overage(chain, GenesisHadReward(), n), headers[n].totalKernelOffset);
      }
    }

    lemma ValidParts()
      requires Valid()
      ensures Consistent() && ext.Valid() && ext.Clean()
    {
      hide Consistent, Extension.Valid, Extension.Clean;
    }

    lemma WorkingParts()
      ensures Working() <==> Chained() && ext.Valid()
    {
      hide Chained, Extension.Valid;
    }

    ghost predicate Accepts(b: Block)
      reads this, ext.outputPmmr, ext.outputPmmr.backend, ext.outputPmmr.backend.leafSet
      reads ext.rproofPmmr.backend, ext.kernelPmmr, ext.kernelPmmr.backend
    {
      b.header.hash !in sums && b.header.hash !in bitmaps && Takes(Now(), b)
    }

    lemma AcceptsIs(b: Block)
      ensures Accepts(b) <==> b.header.hash !in sums && b.header.hash !in bitmaps && Takes(Now(), b)
      ensures Takes(Now(), b) ==> Continues(headers, b.header)
    {
      hide Continues, Fits, CheckedOn, SizeAfter;
    }

    /** The state that a failed block leaves as it was. */
    ghost function State(): (seq<Header>, map<nat, set<nat>>, map<nat, BlockSums>, map<Elmt, nat>, (Saved, Saved, Saved))
      reads this, ext, ext.outputPmmr.backend, ext.rproofPmmr.backend, ext.kernelPmmr.backend
      reads ext.outputPmmr.backend.leafSet, ext.rproofPmmr.backend.leafSet
    {
      (headers, bitmaps, sums, ext.index, ext.Live())
    }

    /** The hashes of a chain have sums stored, so a block without is another one. */
    lemma NewHash(header: Header)
      requires Chained() && header.hash !in sums
      ensures forall i :: 0 <= i < |headers| ==> headers[i].hash != header.hash
    {
      hide *;
      ChainedIs();
      forall i | 0 <= i < |headers| ensures headers[i].hash != header.hash {
        AccountedIs(opening, excess, chain, ext.Slots(), ext.kernelPmmr.backend.slots, headers, marks, sums, i);
      }
    }

    /**
     * process_block for a block on top of the head: accepted exactly when it is new and next,
     * spends and creates what it may, balances the whole state and names its sizes.
     * A block that is not accepted leaves no trace.
     */
    method ProcessBlock(b: Block) returns (ok: bool)
      requires |headers| <= SCHEDULE_END && Valid() && ext.Sized(b.outputs, b.kernels) && ext.Told(Ids(b.outputs), b.inputs)
      modifies this`headers, this`bitmaps, this`sums, this`marks, ext
      modifies ext.outputPmmr, ext.outputPmmr.backend, ext.outputPmmr.backend.hashFile, ext.outputPmmr.backend.dataFile, ext.outputPmmr.backend.leafSet
      modifies ext.rproofPmmr, ext.rproofPmmr.backend, ext.rproofPmmr.backend.hashFile, ext.rproofPmmr.backend.dataFile, ext.rproofPmmr.backend.leafSet
      modifies ext.kernelPmmr, ext.kernelPmmr.backend, ext.kernelPmmr.backend.hashFile, ext.kernelPmmr.backend.dataFile, ext.kernelPmmr.backend.leafSet
      ensures Valid()
      ensures ok <==> old(Accepts(b))
      ensures !ok ==> State() == old(State()) && marks == old(marks)
      ensures ok ==>
                && Now() == Next(old(Now()), b) && old(ext.Slots()) <= ext.Slots() && old(ext.Proofs()) <= ext.Proofs()
                && old(ext.kernelPmmr.backend.slots) <= ext.kernelPmmr.backend.slots
                && |marks| == |old(marks)| + 1 && marks[..|old(marks)|] == old(marks)
                && sums.Keys == old(sums).Keys + {b.header.hash} && bitmaps.Keys == old(bitmaps).Keys + {b.header.hash}
      ensures (old(ext.Newest()) ==> ext.Newest()) && (old(ext.Exactly()) ==> ext.Exactly())
    {
      hide *;
      ValidParts();
      AcceptsIs(b);
      ConsistentIs();
      ContinuesIs(headers, b.header);
      if b.header.hash in sums || b.header.hash in bitmaps { return false; }
      if b.header.prevHash != headers[|headers| - 1].hash || b.header.height != |headers| { return false; }
      NewHash(b.header);
      ok := Apply(b);
    }

    /** The unit of work: the sums, the trees and the index, all of them or none. */
    method Apply(b: Block) returns (ok: bool)
      requires Valid() && Continues(headers, b.header)
      requires ext.Sized(b.outputs, b.kernels) && ext.Told(Ids(b.outputs), b.inputs)
      modifies this`headers, this`bitmaps, this`sums, this`marks, ext
      modifies ext.outputPmmr, ext.outputPmmr.backend, ext.outputPmmr.backend.hashFile, ext.outputPmmr.backend.dataFile, ext.outputPmmr.backend.leafSet
      modifies ext.rproofPmmr, ext.rproofPmmr.backend, ext.rproofPmmr.backend.hashFile, ext.rproofPmmr.backend.dataFile, ext.rproofPmmr.backend.leafSet
      modifies ext.kernelPmmr, ext.kernelPmmr.backend, ext.kernelPmmr.backend.hashFile, ext.kernelPmmr.backend.dataFile, ext.kernelPmmr.backend.leafSet
      ensures Valid()
      ensures ok <==> old(Takes(Now(), b))
      ensures !ok ==> State() == old(State()) && marks == old(marks)
      ensures ok ==>
                && Now() == Next(old(Now()), b) && old(ext.Slots()) <= ext.Slots() && old(ext.Proofs()) <= ext.Proofs()
                && old(ext.kernelPmmr.backend.slots) <= ext.kernelPmmr.backend.slots
                && |marks| == |old(marks)| + 1 && marks[..|old(marks)|] == old(marks)
                && sums.Keys == old(sums).Keys + {b.header.hash} && bitmaps.Keys == old(bitmaps).Keys + {b.header.hash}
      ensures (old(ext.Newest()) ==> ext.Newest()) && (old(ext.Exactly()) ==> ext.Exactly())
    {
      hide *;
      ValidParts();
      ConsistentIs();
      WorkingParts();
      ext.CleanBase();
      ext.ValidIs();
      ext.NewestIs();
      ext.ExactlyIs();
      ext.LiveIs();
      ext.AbstractIs();
      AtHeadIs();
      StateIs();
      NowIs();
      PrunedIs();
      var index, before := ext.index, sums;
      var outputPos, rproofPos, kernelPos := ext.outputPmmr.lastPos, ext.rproofPmmr.lastPos, ext.kernelPmmr.lastPos;
      ok := Extend(b);
      if !ok {
        Undo(index, before, outputPos, rproofPos, kernelPos, old(ext.Slots()), old(ext.UnspentSet()));
        StateIs();
        ext.LiveIs();
        ext.AbstractIs();
        ext.NewestIs();
        ext.ExactlyIs();
        return;
      }
      NowIs();
      NextIs(old(Now()), b);
      WorkingParts();
      ChainedIs();
      assert headers[..|headers| - 1] == old(headers);
      Commit(b);
    }

    /** One more block within a unit of work: validated, summed up and applied, and nothing written yet. */
    method Extend(b: Block) returns (ok: bool)
      requires Working() && Continues(headers, b.header)
      requires ext.Sized(b.outputs, b.kernels) && ext.Told(Ids(b.outputs), b.inputs)
      modifies this`headers, this`sums, this`marks, ext
      modifies ext.outputPmmr, ext.outputPmmr.backend, ext.outputPmmr.backend.hashFile, ext.outputPmmr.backend.dataFile, ext.outputPmmr.backend.leafSet
      modifies ext.rproofPmmr, ext.rproofPmmr.backend, ext.rproofPmmr.backend.hashFile, ext.rproofPmmr.backend.dataFile, ext.rproofPmmr.backend.leafSet
      modifies ext.kernelPmmr, ext.kernelPmmr.backend, ext.kernelPmmr.backend.hashFile, ext.kernelPmmr.backend.dataFile, ext.kernelPmmr.backend.leafSet
      ensures ext.Trees() && ext.Base() == old(ext.Base())
      ensures ok <==> old(Takes(Now(), b))
      ensures !ok ==> headers == old(headers) && marks == old(marks)
      ensures ok ==>
                && Working() && Now() == Next(old(Now()), b) && old(ext.Slots()) <= ext.Slots() && old(ext.Proofs()) <= ext.Proofs()
                && old(ext.kernelPmmr.backend.slots) <= ext.kernelPmmr.backend.slots
                && |marks| == |old(marks)| + 1 && marks[..|old(marks)|] == old(marks)
                && marks[|old(marks)|].spent == InputBitmap(ext.index, b.inputs)
                && |old(marks)| > 0 && LedBy(ext.Slots(), old(marks)[|old(marks)| - 1], marks[|old(marks)|], Ids(b.outputs), b.inputs)
                && (old(ext.Newest()) ==> ext.Newest()) && (old(ext.Exactly()) ==> ext.Exactly())
                && sums.Keys == old(sums).Keys + {b.header.hash}
    {
      hide *;
      ExtendReady(b);
      var valid := ext.ValidateBlock(b.outputs, b.inputs);
      if !valid { return false; }
      ghost var before := sums;
      ok := VerifyBlockSums(b);
      if !ok { return; }
      ok := Settle(b, before);
    }

    /** What a block meets that is to be taken, and what it has to fulfil. */
    lemma ExtendReady(b: Block)
      requires Working() && Continues(headers, b.header)
      ensures ext.Valid() && ext.Trees() && ext.Final() && Injective(ext.outputPmmr.hasher) && AtHead() && Pruned()
      ensures 0 < |headers| == |marks| <= SCHEDULE_END && Headed(headers, marks)
      ensures Accounted(opening, excess, chain, ext.Slots(), ext.kernelPmmr.backend.slots, headers, marks, sums)
      ensures b.header.prevHash == headers[|headers| - 1].hash && b.header.height == |headers|
      ensures b.header.prevHash in sums && sums[b.header.prevHash] == StateNow()
      ensures Takes(Now(), b) <==>
                && Admits(ext.UtxoSet(), Ids(b.outputs), b.inputs) && FullCheck(b).Ok?
                && Applicable(ext.UtxoSet(), Ids(b.outputs), b.inputs)
                && b.header.outputMmrSize == SizeAfter(ext.outputPmmr.lastPos, |b.outputs|)
                && b.header.kernelMmrSize == SizeAfter(ext.kernelPmmr.lastPos, |b.kernels|)
    {
      hide *;
      WorkingParts();
      ChainedIs();
      ContinuesIs(headers, b.header);
      TakesIs(b);
      FitsIs(ext.UtxoSet(), Ids(b.outputs), b.inputs);
      HeadFinal();
      HeadSums();
      StateNowIs();
    }

    /** The trees and the index take the block, and its sizes are compared. */
    method Settle(b: Block, ghost before: map<nat, BlockSums>) returns (ok: bool)
      requires ext.Valid() && ext.Final() && Injective(ext.outputPmmr.hasher) && AtHead() && Pruned() && Headed(headers, marks)
      requires Accounted(opening, excess, chain, ext.Slots(), ext.kernelPmmr.backend.slots, headers, marks, before)
      requires Continues(headers, b.header) && 0 < |headers| <= SCHEDULE_END && FullCheck(b).Ok?
      requires sums == before[b.header.hash := SumsAfter(b)]
      requires ext.Sized(b.outputs, b.kernels) && ext.Told(Ids(b.outputs), b.inputs)
      modifies this`headers, this`marks, ext
      modifies ext.outputPmmr, ext.outputPmmr.backend, ext.outputPmmr.backend.hashFile, ext.outputPmmr.backend.dataFile, ext.outputPmmr.backend.leafSet
      modifies ext.rproofPmmr, ext.rproofPmmr.backend, ext.rproofPmmr.backend.hashFile, ext.rproofPmmr.backend.dataFile, ext.rproofPmmr.backend.leafSet
      modifies ext.kernelPmmr, ext.kernelPmmr.backend, ext.kernelPmmr.backend.hashFile, ext.kernelPmmr.backend.dataFile, ext.kernelPmmr.backend.leafSet
      ensures ext.Trees() && ext.Base() == old(ext.Base())
      ensures ok <==>
                && Applicable(old(ext.UtxoSet()), Ids(b.outputs), b.inputs)
                && b.header.outputMmrSize == SizeAfter(old(ext.outputPmmr.lastPos), |b.outputs|)
                && b.header.kernelMmrSize == SizeAfter(old(ext.kernelPmmr.lastPos), |b.kernels|)
      ensures !ok ==> headers == old(headers) && marks == old(marks)
      ensures ok ==>
                && Working() && Now() == Next(old(Now()), b) && old(ext.Slots()) <= ext.Slots() && old(ext.Proofs()) <= ext.Proofs()
                && old(ext.kernelPmmr.backend.slots) <= ext.kernelPmmr.backend.slots
                && |marks| == |old(marks)| + 1 && marks[..|old(marks)|] == old(marks)
                && marks[|old(marks)|].spent == InputBitmap(ext.index, b.inputs)
                && |old(marks)| > 0 && LedBy(ext.Slots(), old(marks)[|old(marks)| - 1], marks[|old(marks)|], Ids(b.outputs), b.inputs)
                && (old(ext.Newest()) ==> ext.Newest()) && (old(ext.Exactly()) ==> ext.Exactly())
    {
      hide *;
      NowIs();
      NextIs(Now(), b);
      HeadedIs(headers, marks, 0);
      AtHeadIs();
      PrunedIs();
      SumsAre();
      FullCheckBalance(b);
      SumsAfterIs(b);
      ext.ValidIs();
      ext.kernelPmmr.ValidParts();
      ok := ext.ApplyBlock(b.outputs, b.inputs, b.kernels);
      if !ok || ext.outputPmmr.lastPos != b.header.outputMmrSize || ext.kernelPmmr.lastPos != b.header.kernelMmrSize {
        ok := false;
        return;
      }
      ext.ValidIs();
      ext.kernelPmmr.ValidParts();
      NextSums(b, old(ext.UtxoSet()), old(ext.kernelPmmr.backend.slots), old(UtxoSum()), old(KernelSum()));
      Record(b, before, old(ext.Slots()), old(ext.kernelPmmr.backend.slots));
      NowIs();
      ext.outputPmmr.ValidParts();
      ext.AbstractIs();
      LedByIs(ext.Slots(), old(marks)[|old(marks)| - 1], marks[|old(marks)|], Ids(b.outputs), b.inputs);
    }

    /** At the head no commitment of an unspent output was created again. */
    lemma HeadFinal()
      requires Chained()
      ensures ext.Final()
    {
      hide *;
      ChainedIs();
      AtHeadIs();
      ext.TreesParts();
      ext.AbstractIs();
      ext.outputPmmr.ValidParts();
      ext.FinalIs();
      var n := |headers| - 1;
      AccountedIs(opening, excess, chain, ext.Slots(), ext.kernelPmmr.backend.slots, headers, marks, sums, n);
      AccountedAtIs(opening, excess, ext.Slots(), ext.kernelPmmr.backend.slots, headers[n], marks[n], sums,
                    Overage(chain, headers[0].kernelMmrSize > 0, n));
    }

    /** The unit of work is written, and the positions that its last block spent are stored; the index still has them. */
    method Commit(b: Block)
      requires Working() && 1 < |headers| == |marks| && headers[|headers| - 1] == b.header
      requires marks[|marks| - 1].spent == InputBitmap(ext.index, b.inputs)
      modifies this`bitmaps
      modifies ext.outputPmmr, ext.outputPmmr.backend, ext.outputPmmr.backend.hashFile, ext.outputPmmr.backend.dataFile, ext.outputPmmr.backend.leafSet
      modifies ext.rproofPmmr, ext.rproofPmmr.backend, ext.rproofPmmr.backend.hashFile, ext.rproofPmmr.backend.dataFile, ext.rproofPmmr.backend.leafSet
      modifies ext.kernelPmmr, ext.kernelPmmr.backend, ext.kernelPmmr.backend.hashFile, ext.kernelPmmr.backend.dataFile, ext.kernelPmmr.backend.leafSet
      ensures Chained() && ext.Valid() && ext.Clean() && Now() == old(Now()) && ext.Slots() == old(ext.Slots())
      ensures ext.Proofs() == old(ext.Proofs()) && ext.kernelPmmr.backend.slots == old(ext.kernelPmmr.backend.slots)
      ensures (old(ext.Newest()) ==> ext.Newest()) && (old(ext.Exactly()) ==> ext.Exactly())
      ensures bitmaps == old(bitmaps)[b.header.hash := InputBitmap(ext.index, b.inputs)]
      ensures Stored(headers[..|headers| - 1], old(bitmaps), marks[..|headers| - 1]) ==> Valid()
      ensures Valid() <==> Stored(headers, bitmaps, marks)
    {
      hide *;
      WorkingParts();
      ChainedIs();
      AtHeadIs();
      PrunedIs();
      ext.LiveIs();
      ext.AbstractIs();
      NowIs();
      ext.UtxoIs();
      ext.NewestIs();
      ext.ExactlyIs();
      ext.Sync();
      ext.LiveIs();
      ext.AbstractIs();
      ext.UtxoIs();
      ext.NewestIs();
      ext.ExactlyIs();
      bitmaps := bitmaps[b.header.hash := InputBitmap(ext.index, b.inputs)];
      ext.ValidIs();
      AtHeadIs();
      PrunedIs();
      ChainedFrom();
      NowIs();
      ValidIff();
      ghost var n := |headers| - 1;
      assert headers == headers[..n] + [b.header] && marks == marks[..n] + [marks[n]];
      if Stored(headers[..n], old(bitmaps), marks[..n]) { StoredLast(headers[..n], old(bitmaps), marks[..n], b.header, marks[n]); }
    }

    /** Rolls back to the state in the files. */
    method Undo(index: map<Elmt, nat>, before: map<nat, BlockSums>, outputPos: nat, rproofPos: nat, kernelPos: nat,
                ghost slots: seq<Elmt>, ghost unspent: set<nat>)
      requires ext.Trees() && outputPos == rproofPos && ext.Base().0.bitmap == ext.Base().1.bitmap
      requires outputPos == |ext.Base().0.hashes| && rproofPos == |ext.Base().1.hashes|
      requires kernelPos == |ext.Base().2.hashes|
      requires forall p :: p in ext.Base().0.bitmap ==> p >= 1 && IsLeaf(p)
      requires slots == ext.Base().0.slots && unspent == Unspent(ext.Base().0.bitmap, outputPos)
      requires Indexed(index, slots, unspent) && Injective(ext.outputPmmr.hasher) && Pruned()
      requires |marks| > 0 && Stored(headers, bitmaps, marks)
      requires marks[|marks| - 1].size == outputPos && marks[|marks| - 1].kernelSize == kernelPos
      requires marks[|marks| - 1].unspent == unspent
      requires Accounted(opening, excess, chain, slots, ext.Base().2.slots, headers, marks, before)
      modifies this`sums, ext`index
      modifies ext.outputPmmr, ext.outputPmmr.backend, ext.outputPmmr.backend.hashFile, ext.outputPmmr.backend.dataFile, ext.outputPmmr.backend.leafSet
      modifies ext.rproofPmmr, ext.rproofPmmr.backend, ext.rproofPmmr.backend.hashFile, ext.rproofPmmr.backend.dataFile, ext.rproofPmmr.backend.leafSet
      modifies ext.kernelPmmr, ext.kernelPmmr.backend, ext.kernelPmmr.backend.hashFile, ext.kernelPmmr.backend.dataFile, ext.kernelPmmr.backend.leafSet
      ensures Valid() && sums == before && ext.index == index && ext.Live() == old(ext.Base())
    {
      hide *;
      StoredParts(headers, bitmaps, marks);
      ext.Discard(outputPos, rproofPos, kernelPos);
      ext.index := index;
      sums := before;
      ext.ValidFrom();
      ext.CleanBase();
      AtHeadIs();
      PrunedIs();
      ChainedFrom();
      ConsistentFrom();
      ValidFrom();
    }

    /** The block is added to the chain. */
    method Record(b: Block, ghost before: map<nat, BlockSums>, ghost slots: seq<Elmt>, ghost kernels: seq<Elmt>)
      requires 0 < |headers| == |marks| && Linked(marks) && Headed(headers, marks) && Pruned() && Continues(headers, b.header)
      requires Accounted(opening, excess, chain, slots, kernels, headers, marks, before)
      requires slots <= ext.Slots() && kernels <= ext.kernelPmmr.backend.slots
      requires ext.Valid() && ext.Final() && Injective(ext.outputPmmr.hasher)
      requires b.header.outputMmrSize == ext.outputPmmr.lastPos && b.header.kernelMmrSize == ext.kernelPmmr.lastPos
      requires Spends(marks[|marks| - 1].unspent, marks[|marks| - 1].size, ext.UnspentSet(), ext.outputPmmr.lastPos,
                      InputBitmap(ext.index, b.inputs))
      requires marks[|marks| - 1].kernelSize <= ext.kernelPmmr.lastPos && |headers| <= SCHEDULE_END
      requires var s := FullSums(UtxoSum(), KernelSum(), Overage(chain, GenesisHadReward(), |headers|));
               s.utxoSum == Add(s.kernelSum, Commitment(0, b.header.totalKernelOffset)) &&
               sums == before[b.header.hash := s]
      modifies this`headers, this`marks
      ensures Working() && headers == old(headers) + [b.header]
      ensures |marks| == |old(marks)| + 1 && marks[..|old(marks)|] == old(marks)
      ensures marks[|old(marks)|].spent == InputBitmap(ext.index, b.inputs)
      ensures marks[|old(marks)|].size == ext.outputPmmr.lastPos
    {
      hide *;
      ContinuesIs(headers, b.header);
      ghost var m := Mark(ext.outputPmmr.lastPos, ext.kernelPmmr.lastPos, ext.UnspentSet(), InputBitmap(ext.index, b.inputs));
      MarkSound(m);
      FollowsIs(marks[|marks| - 1], m);
      LinkedPush(marks, m);
      SumsAre();
      ext.UtxoIs();
      PrunedIs();
      AccountedNext(opening, excess, chain, slots, kernels, headers, marks, before,
                    ext.Slots(), ext.kernelPmmr.backend.slots, b.header, m);
      HeadedPush(headers, marks, b.header, m);
      headers := headers + [b.header];
      PrunedPush(marks, m);
      marks := marks + [m];
      AtHeadIs();
      PrunedIs();
      ext.ValidIs();
      ChainedFrom();
      WorkingParts();
    }

    lemma ChainedFrom()
      requires ext.Trees() && AtHead() && Pruned() && Injective(ext.outputPmmr.hasher) && Headed(headers, marks)
      requires Accounted(opening, excess, chain, ext.Slots(), ext.kernelPmmr.backend.slots, headers, marks, sums)
      ensures Chained()
    {
      hide Extension.Trees, AtHead, Pruned, Injective, Headed, Accounted;
    }

    lemma ConsistentFrom()
      requires Chained() && Stored(headers, bitmaps, marks)
      ensures Consistent()
    {
      hide Chained, Stored;
    }

    lemma ValidFrom()
      requires Consistent() && ext.Valid() && ext.Clean()
      ensures Valid()
    {
      hide Consistent, Extension.Valid, Extension.Clean;
    }

    lemma ValidIff()
      requires Chained() && ext.Valid() && ext.Clean()
      ensures Valid() <==> Stored(headers, bitmaps, marks)
    {
      hide Chained, Extension.Valid, Extension.Clean, Stored;
    }

    lemma StateIs()
      ensures State() == (headers, bitmaps, sums, ext.index, ext.Live())
    {}

    lemma PrunedIs()
      ensures Pruned() <==>
                && horizon < |marks|
                && PrunedBy(ext.outputPmmr.backend.pruneList.leaves, marks[horizon])
                && PrunedBy(ext.rproofPmmr.backend.pruneList.leaves, marks[horizon])
    {}

    /** The mark of the present state. */
    lemma MarkSound(m: Mark)
      requires ext.Valid() && ext.Final() && m.size == ext.outputPmmr.lastPos && m.kernelSize == ext.kernelPmmr.lastPos
      requires m.unspent == ext.UnspentSet()
      ensures Sound(m) && Unique(ext.Slots(), m.unspent) && LastOf(ext.Slots(), m.unspent, m.size)
      ensures m.size == |ext.Slots()| && m.kernelSize == |ext.kernelPmmr.backend.slots|
    {
      hide *;
      ext.ValidIs();
      ext.FinalIs();
      ext.AbstractIs();
      ext.outputPmmr.ValidParts();
      ext.kernelPmmr.ValidParts();
      UniqueIs(ext.index, ext.Slots(), ext.UnspentSet());
      SoundIs(m);
    }

    /** The block has moved the sums to what the check computed. */
    lemma NextSums(b: Block, utxo: set<Elmt>, kernels: seq<Elmt>, utxoSum: Commitment, kernelSum: Commitment)
      requires Applicable(utxo, Ids(b.outputs), b.inputs)
      requires ext.UtxoSet() == utxo + ElementsOf(Ids(b.outputs)) - ElementsOf(b.inputs)
      requires LeafElements(ext.kernelPmmr.backend.slots) == LeafElements(kernels) + b.kernels
      requires utxoSum == SumSet(opening, utxo) && kernelSum == Sum(Image(excess, LeafElements(kernels)))
      ensures UtxoSum() == Add(utxoSum, Sub(Sum(Image(opening, Ids(b.outputs))), Sum(Image(opening, b.inputs))))
      ensures KernelSum() == Add(kernelSum, Sum(Image(excess, b.kernels)))
    {
      hide *;
      SumsAre();
      AppliedSum(opening, utxo, Ids(b.outputs), b.inputs);
      ImageConcat(excess, LeafElements(kernels), b.kernels);
    }

    lemma FullCheckBalance(b: Block)
      requires 0 < |headers| <= SCHEDULE_END
      ensures UtxoAfter(b) == Add(UtxoSum(), Sub(Sum(Image(opening, Ids(b.outputs))), Sum(Image(opening, b.inputs))))
      ensures KernelsAfter(b) == Add(KernelSum(), Sum(Image(excess, b.kernels)))
      ensures FullCheck(b).Ok? ==>
                var s := FullSums(UtxoAfter(b), KernelsAfter(b), Overage(chain, GenesisHadReward(), |headers|));
                s.utxoSum == Add(s.kernelSum, Commitment(0, b.header.totalKernelOffset))
    {
      hide Sum, SumSet, Image, Overage;
    }

    /**
     * No inflation: as long as kernels hold no value, the unspent outputs hold exactly
     * what the schedule has issued.
     */
    lemma SupplyIsEmission()
      requires Chained()
      requires ValueZero(Image(excess, LeafElements(ext.kernelPmmr.backend.slots)))
      ensures 0 < |headers| <= SCHEDULE_END + 1
      ensures SumSet(opening, ext.UtxoSet()).value == Overage(chain, GenesisHadReward(), |headers| - 1)
      ensures SumSet(opening, ext.UtxoSet()).value < 21_000_000 * EPIC_BASE
    {
      hide Sum, SumSet, Image, LeafElements, Overage, Chained, ValueZero, Extension.UtxoSet;
      HeadSums();
      ValueZeroSum(Image(excess, LeafElements(ext.kernelPmmr.backend.slots)));
      OverageCapped(chain, GenesisHadReward(), |headers| - 1);
    }

    /** The ledger that the blocks up to block k made. */
    ghost function At(k: nat): (l: Ledger)
      requires k < |headers| && Holds(k)
      reads this`headers, this`marks, ext.outputPmmr.backend, ext.rproofPmmr.backend, ext.kernelPmmr.backend
    {
      Ledger(headers[..k + 1], Utxo(ext.Slots(), marks[k].unspent), LeafElements(ext.Slots()[..marks[k].size]),
             LeafElements(ext.Proofs()[..marks[k].size]), LeafElements(ext.kernelPmmr.backend.slots[..marks[k].kernelSize]),
             marks[k].size, marks[k].kernelSize)
    }

    /** The trees have all that block k left in them. */
    ghost predicate Holds(k: nat)
      reads this`marks, ext.outputPmmr.backend, ext.rproofPmmr.backend, ext.kernelPmmr.backend
    {
      && k < |marks| && marks[k].size <= |ext.Slots()| && marks[k].size <= |ext.Proofs()|
      && marks[k].kernelSize <= |ext.kernelPmmr.backend.slots|
    }

    lemma HoldsIs(k: nat)
      ensures Holds(k) <==>
                && k < |marks| && marks[k].size <= |ext.Slots()| && marks[k].size <= |ext.Proofs()|
                && marks[k].kernelSize <= |ext.kernelPmmr.backend.slots|
    {}

    lemma AtIs(k: nat)
      requires k < |headers| && Holds(k)
      ensures k < |marks| && marks[k].size <= |ext.Slots()| && marks[k].size <= |ext.Proofs()|
      ensures marks[k].kernelSize <= |ext.kernelPmmr.backend.slots|
      ensures At(k) == Ledger(headers[..k + 1], Utxo(ext.Slots(), marks[k].unspent), LeafElements(ext.Slots()[..marks[k].size]),
                              LeafElements(ext.Proofs()[..marks[k].size]),
                              LeafElements(ext.kernelPmmr.backend.slots[..marks[k].kernelSize]), marks[k].size, marks[k].kernelSize)
    {}

    lemma Within(k: nat)
      requires Chained() && k < |headers|
      ensures |headers| == |marks| <= SCHEDULE_END + 1
      ensures marks[k].size <= |ext.Slots()| && marks[k].size <= |ext.Proofs()|
      ensures marks[k].kernelSize <= |ext.kernelPmmr.backend.slots| && Holds(k)
    {
      hide *;
      ChainedIs();
      HoldsIs(k);
      ext.TreesParts();
      ext.AbstractIs();
      ext.outputPmmr.ValidParts();
      ext.rproofPmmr.ValidParts();
      AccountedIs(opening, excess, chain, ext.Slots(), ext.kernelPmmr.backend.slots, headers, marks, sums, k);
    }

    /** The index still names everything that was unspent at block k. */
    ghost predicate Kept(k: nat)
      requires k < |marks|
      reads this`marks, ext, ext.outputPmmr.backend
    {
      marks[k].size <= |ext.Slots()| && Indexed(ext.index, ext.Slots()[..marks[k].size], marks[k].unspent)
    }

    lemma KeptIs(k: nat)
      requires k < |marks|
      ensures Kept(k) <==> marks[k].size <= |ext.Slots()| && Indexed(ext.index, ext.Slots()[..marks[k].size], marks[k].unspent)
    {
      hide Indexed;
    }

    /** On a chain that was never rewound this is so exactly when none of it was created again since. */
    lemma KeptExactly(k: nat)
      requires Valid() && ext.Newest() && k < |headers|
      ensures |marks| == |headers| && (Kept(k) <==> NoneAgain(ext.Slots(), marks[k].size, marks[k].unspent))
    {
      hide *;
      RewoundIndex(k);
      ValidParts();
      ext.ValidIs();
      ConsistentIs();
      LinkedAt(marks, k);
      IndexLeaves(ext.index, ext.Slots(), ext.UnspentSet());
      StaleIndexed(ext.index, ext.Slots(), marks[k].size, marks[k].unspent);
      KeptIs(k);
    }

    /**
     * rewind: back to a block that is not before the last compaction. The ledger is again the
     * one of that block, and the output and the range proof of every unspent position are still in the files.
     */
    method Rewind(k: nat)
      requires Valid() && horizon <= k < |headers|
      modifies this`headers, this`marks
      modifies ext.outputPmmr, ext.outputPmmr.backend, ext.outputPmmr.backend.hashFile, ext.outputPmmr.backend.dataFile, ext.outputPmmr.backend.leafSet
      modifies ext.rproofPmmr, ext.rproofPmmr.backend, ext.rproofPmmr.backend.hashFile, ext.rproofPmmr.backend.dataFile, ext.rproofPmmr.backend.leafSet
      modifies ext.kernelPmmr, ext.kernelPmmr.backend, ext.kernelPmmr.backend.hashFile, ext.kernelPmmr.backend.dataFile, ext.kernelPmmr.backend.leafSet
      ensures Consistent() && headers == old(headers)[..k + 1] && marks == old(marks)[..k + 1]
      ensures ext.UnspentSet() == old(marks)[k].unspent
      ensures Cut(old(ext.Slots()), old(marks)[k].size, ext.Slots()) && Cut(old(ext.Proofs()), old(marks)[k].size, ext.Proofs())
      ensures old(Holds(k)) && Now() == old(At(k))
      ensures Unique(ext.Slots(), ext.UnspentSet()) && ext.Base() == old(ext.Base())
      ensures forall p :: p in ext.UnspentSet() ==> p >= 1 && ext.Stored(p)
      ensures forall x :: x > old(marks)[k].size ==>
                (x in ext.outputPmmr.backend.leafSet.bitmap <==> x in SpentAfter(old(marks), k))
      ensures old(ext.Newest()) ==> Stale(ext.index, old(ext.Slots()), old(marks)[k].size, ext.UnspentSet())
      ensures ext.Valid() <==> old(Kept(k))
    {
      hide *;
      ValidParts();
      ConsistentIs();
      if ext.Newest() { RewoundIndex(k); }
      ghost var slots := ext.Slots();
      Within(k);
      LinkedAt(marks, k);
      AtIs(k);
      KeptIs(k);
      CutIs<Elmt>();
      RewindChain(k);
      ConsistentIs();
      AtHeadIs();
      AllStored();
      ext.UtxoIs();
      UtxoAgrees(slots, ext.Slots(), marks[k].size, marks[k].unspent);
      NowIs();
      ext.ValidParts();
    }

    method RewindChain(k: nat)
      requires Valid() && horizon <= k < |headers| && k < |marks|
      modifies this`headers, this`marks
      modifies ext.outputPmmr, ext.outputPmmr.backend, ext.outputPmmr.backend.hashFile, ext.outputPmmr.backend.dataFile, ext.outputPmmr.backend.leafSet
      modifies ext.rproofPmmr, ext.rproofPmmr.backend, ext.rproofPmmr.backend.hashFile, ext.rproofPmmr.backend.dataFile, ext.rproofPmmr.backend.leafSet
      modifies ext.kernelPmmr, ext.kernelPmmr.backend, ext.kernelPmmr.backend.hashFile, ext.kernelPmmr.backend.dataFile, ext.kernelPmmr.backend.leafSet
      ensures Consistent() && headers == old(headers)[..k + 1] && marks == old(marks)[..k + 1]
      ensures ext.UnspentSet() == old(marks)[k].unspent && ext.Base() == old(ext.Base())
      ensures Cut(old(ext.Slots()), old(marks)[k].size, ext.Slots()) && Unique(ext.Slots(), ext.UnspentSet())
      ensures Cut(old(ext.Proofs()), old(marks)[k].size, ext.Proofs())
      ensures Cut(old(ext.kernelPmmr.backend.slots), old(marks)[k].kernelSize, ext.kernelPmmr.backend.slots)
      ensures forall x :: x > old(marks)[k].size ==>
                (x in ext.outputPmmr.backend.leafSet.bitmap <==> x in SpentAfter(old(marks), k))
    {
      hide *;
      ValidParts();
      ConsistentIs();
      RewindReady(k);
      RewoundAccounts(k);
      CutIs<Elmt>();
      RewindTrees(k);
      headers, marks := headers[..k + 1], marks[..k + 1];
      AtHeadIs();
      PrunedIs();
      StoredParts(headers, bitmaps, marks);
      ChainedFrom();
      ConsistentFrom();
    }

    method RewindTrees(k: nat)
      requires Valid() && horizon <= k < |headers| && k < |marks|
      modifies ext.outputPmmr, ext.outputPmmr.backend, ext.outputPmmr.backend.hashFile, ext.outputPmmr.backend.dataFile, ext.outputPmmr.backend.leafSet
      modifies ext.rproofPmmr, ext.rproofPmmr.backend, ext.rproofPmmr.backend.hashFile, ext.rproofPmmr.backend.dataFile, ext.rproofPmmr.backend.leafSet
      modifies ext.kernelPmmr, ext.kernelPmmr.backend, ext.kernelPmmr.backend.hashFile, ext.kernelPmmr.backend.dataFile, ext.kernelPmmr.backend.leafSet
      ensures ext.Trees() && ext.UnspentSet() == marks[k].unspent
      ensures ext.outputPmmr.lastPos == marks[k].size && ext.kernelPmmr.lastPos == marks[k].kernelSize
      ensures Cut(old(ext.Slots()), marks[k].size, ext.Slots()) && Cut(old(ext.Proofs()), marks[k].size, ext.Proofs())
      ensures Cut(old(ext.kernelPmmr.backend.slots), marks[k].kernelSize, ext.kernelPmmr.backend.slots)
      ensures ext.Base() == old(ext.Base())
      ensures forall x :: x > marks[k].size ==> (x in ext.outputPmmr.backend.leafSet.bitmap <==> x in SpentAfter(marks, k))
    {
      hide *;
      CutIs<Elmt>();
      ValidParts();
      ConsistentIs();
      HeadersAre();
      var rewindRm, n := InputPosToRewind(headers[k], headers, bitmaps);
      RewindReady(k);
      ext.RewindToPos(headers[k].outputMmrSize, headers[k].kernelMmrSize, rewindRm);
    }

    /** What the trees can be rewound to, and with which positions put back. */
    lemma RewindReady(k: nat)
      requires Consistent() && horizon <= k < |headers|
      ensures |marks| == |headers| && headers[k].height == k && IsLeaf(marks[k].size + 1) && IsLeaf(marks[k].kernelSize + 1)
      ensures headers[k].outputMmrSize == marks[k].size <= ext.outputPmmr.lastPos
      ensures headers[k].kernelMmrSize == marks[k].kernelSize <= ext.kernelPmmr.lastPos
      ensures BitmapsAfter(headers, bitmaps, k) == SpentAfter(marks, k)
      ensures forall p :: p in SpentAfter(marks, k) ==> p >= 1 && IsLeaf(p)
      ensures SpentAfter(marks, k) !! ext.outputPmmr.backend.pruneList.leaves
      ensures SpentAfter(marks, k) !! ext.rproofPmmr.backend.pruneList.leaves
      ensures forall p :: p in ext.outputPmmr.backend.pruneList.leaves ==> p <= marks[k].size
      ensures forall p :: p in ext.rproofPmmr.backend.pruneList.leaves ==> p <= marks[k].size
      ensures Unspent(ext.UnspentSet() + SpentAfter(marks, k), marks[k].size) == marks[k].unspent
      ensures forall p :: p in marks[k].unspent ==> 1 <= p <= marks[k].size
      ensures Stored(headers[..k + 1], bitmaps, marks[..k + 1])
      ensures PrunedBy(ext.outputPmmr.backend.pruneList.leaves, marks[horizon])
      ensures PrunedBy(ext.rproofPmmr.backend.pruneList.leaves, marks[horizon])
    {
      hide *;
      ConsistentIs();
      AtHeadIs();
      PrunedIs();
      StoredIs(headers, bitmaps, marks, k);
      BitmapsAre(headers, bitmaps, marks, k);
      LinkedAt(marks, k);
      SizesGrow(marks, k, |marks| - 1);
      SpentAfterLeaves(marks, k);
      PrunedStays(marks, horizon, k, ext.outputPmmr.backend.pruneList.leaves);
      PrunedStays(marks, horizon, k, ext.rproofPmmr.backend.pruneList.leaves);
      RewindExact(marks, k);
      StoredPrefix(headers, bitmaps, marks, k + 1);
    }

    /** The accounts of the blocks up to k need no more than their trees. */
    lemma RewoundAccounts(k: nat)
      requires Consistent() && k < |headers|
      ensures |headers| == |marks| && marks[k].size <= |ext.Slots()| && marks[k].kernelSize <= |ext.kernelPmmr.backend.slots|
      ensures Accounted(opening, excess, chain, ext.Slots()[..marks[k].size],
                        ext.kernelPmmr.backend.slots[..marks[k].kernelSize], headers[..k + 1], marks[..k + 1], sums)
      ensures Unique(ext.Slots()[..marks[k].size], marks[k].unspent)
    {
      hide *;
      ConsistentIs();
      var slots, kernels := ext.Slots(), ext.kernelPmmr.backend.slots;
      AccountedIs(opening, excess, chain, slots, kernels, headers, marks, sums, k);
      var slots', kernels' := slots[..marks[k].size], kernels[..marks[k].kernelSize];
      forall i | 0 <= i < k + 1
        ensures marks[i].size <= |slots| && marks[i].kernelSize <= |kernels| && headers[i].hash in sums
        ensures marks[i].size <= |slots'| && marks[i].kernelSize <= |kernels'|
        ensures slots[..marks[i].size] == slots'[..marks[i].size]
        ensures kernels[..marks[i].kernelSize] == kernels'[..marks[i].kernelSize]
      {
        AccountedIs(opening, excess, chain, slots, kernels, headers, marks, sums, i);
        SizesGrow(marks, i, k);
      }
      AccountedPrefix(opening, excess, chain, slots, kernels, headers, marks, sums, k + 1, slots', kernels', sums);
      AccountedIs(opening, excess, chain, slots', kernels', headers[..k + 1], marks[..k + 1], sums, k);
      AccountedAtIs(opening, excess, slots', kernels', headers[k], marks[k], sums,
                    Overage(chain, headers[0].kernelMmrSize > 0, k));
    }

    /** The index is not rewound. */
    lemma RewoundIndex(k: nat)
      requires Valid() && ext.Newest() && k < |headers|
      ensures |marks| == |headers| && Stale(ext.index, ext.Slots(), marks[k].size, marks[k].unspent)
    {
      hide *;
      ValidParts();
      ConsistentIs();
      ext.ValidIs();
      ext.NewestIs();
      LinkedAt(marks, k);
      AccountedIs(opening, excess, chain, ext.Slots(), ext.kernelPmmr.backend.slots, headers, marks, sums, k);
      AccountedAtIs(opening, excess, ext.Slots(), ext.kernelPmmr.backend.slots, headers[k], marks[k], sums,
                    Overage(chain, headers[0].kernelMmrSize > 0, k));
      IndexLeaves(ext.index, ext.Slots(), ext.UnspentSet());
      StaleIs(ext.index, ext.Slots(), marks[k].size, marks[k].unspent);
    }

    lemma AllStored()
      requires ext.Trees()
      ensures forall p :: p in ext.UnspentSet() ==> p >= 1 && ext.Stored(p)
    {
      hide *;
      forall p | p in ext.UnspentSet() ensures p >= 1 && ext.Stored(p) {
        ext.StoredIs(p);
      }
    }

    /** rebuild_index, and the trees are written: from any consistent state, also a rewound one, the chain can go on. */
    method Rebuild()
      requires Consistent()
      modifies ext
      modifies ext.outputPmmr, ext.outputPmmr.backend, ext.outputPmmr.backend.hashFile, ext.outputPmmr.backend.dataFile, ext.outputPmmr.backend.leafSet
      modifies ext.rproofPmmr, ext.rproofPmmr.backend, ext.rproofPmmr.backend.hashFile, ext.rproofPmmr.backend.dataFile, ext.rproofPmmr.backend.leafSet
      modifies ext.kernelPmmr, ext.kernelPmmr.backend, ext.kernelPmmr.backend.hashFile, ext.kernelPmmr.backend.dataFile, ext.kernelPmmr.backend.leafSet
      ensures Valid() && ext.Exactly() && Now() == old(Now()) && ext.Slots() == old(ext.Slots())
    {
      hide *;
      ConsistentIs();
      HeadUnique();
      AtHeadIs();
      PrunedIs();
      NowIs();
      ext.UtxoIs();
      ext.AbstractIs();
      ext.RebuildIndex();
      ext.ExactlyIs();
      ext.LiveIs();
      ext.Sync();
      ext.LiveIs();
      ext.ExactlyIs();
      ext.UtxoIs();
      ext.AbstractIs();
      ext.ValidIs();
      AtHeadIs();
      PrunedIs();
      StoredParts(headers, bitmaps, marks);
      ChainedFrom();
      ConsistentFrom();
      ValidFrom();
      NowIs();
    }

    lemma HeadUnique()
      requires Chained()
      ensures Unique(ext.Slots(), ext.UnspentSet())
    {
      hide *;
      ChainedIs();
      AtHeadIs();
      var n := |headers| - 1;
      AccountedIs(opening, excess, chain, ext.Slots(), ext.kernelPmmr.backend.slots, headers, marks, sums, n);
      AccountedAtIs(opening, excess, ext.Slots(), ext.kernelPmmr.backend.slots, headers[n], marks[n], sums,
                    Overage(chain, headers[0].kernelMmrSize > 0, n));
    }

    /** compact: at the horizon below the head. */
    method Compact(cutThroughHorizon: nat)
      requires Valid()
      modifies this`horizon
      modifies ext.outputPmmr.backend, ext.outputPmmr.backend.hashFile, ext.outputPmmr.backend.dataFile
      modifies ext.outputPmmr.backend.leafSet, ext.outputPmmr.backend.pruneList
      modifies ext.rproofPmmr.backend, ext.rproofPmmr.backend.hashFile, ext.rproofPmmr.backend.dataFile
      modifies ext.rproofPmmr.backend.leafSet, ext.rproofPmmr.backend.pruneList
      ensures Valid() && ext.Live() == old(ext.Live()) && ext.UtxoSet() == old(ext.UtxoSet())
      ensures Now() == old(Now()) && marks == old(marks) && ext.index == old(ext.index)
      ensures (old(ext.Newest()) ==> ext.Newest()) && (old(ext.Exactly()) ==> ext.Exactly())
      ensures var h := |headers| - 1;
              var k := if h < cutThroughHorizon then 0 else h - cutThroughHorizon;
              && horizon == (if old(horizon) < k then k else old(horizon)) && k < |marks|
              && ext.outputPmmr.backend.pruneList.leaves == old(ext.outputPmmr.backend.pruneList.leaves) + SpentAt(marks[k])
              && ext.rproofPmmr.backend.pruneList.leaves == old(ext.rproofPmmr.backend.pruneList.leaves) + SpentAt(marks[k])
    {
      hide *;
      ValidParts();
      ConsistentIs();
      AtHeadIs();
      PrunedIs();
      ext.UtxoIs();
      NowIs();
      HeadersAre();
      ext.NewestIs();
      ext.ExactlyIs();
      ext.AbstractIs();
      var h := |headers| - 1;
      var k := if h < cutThroughHorizon then 0 else h - cutThroughHorizon;
      var rewindRm, n := InputPosToRewind(headers[k], headers, bitmaps);
      CompactReady(k);
      ghost var outputLeaves, rproofLeaves := ext.outputPmmr.backend.pruneList.leaves, ext.rproofPmmr.backend.pruneList.leaves;
      ext.LiveIs();
      ext.Compact(headers[k].outputMmrSize, rewindRm);
      ext.LiveIs();
      AtHeadIs();
      SpentLeaves(marks, k, outputLeaves, ext.outputPmmr.backend.pruneList.leaves);
      SpentLeaves(marks, k, rproofLeaves, ext.rproofPmmr.backend.pruneList.leaves);
      Recompacted(k, outputLeaves, rproofLeaves);
      ext.UtxoIs();
      ext.NewestIs();
      ext.ExactlyIs();
      ext.AbstractIs();
      NowIs();
    }

    lemma CompactReady(k: nat)
      requires Consistent() && k < |headers|
      ensures |marks| == |headers| && headers[k].height == k
      ensures headers[k].outputMmrSize == marks[k].size <= ext.outputPmmr.lastPos
      ensures BitmapsAfter(headers, bitmaps, k) == SpentAfter(marks, k)
    {
      hide *;
      ConsistentIs();
      AtHeadIs();
      StoredIs(headers, bitmaps, marks, k);
      BitmapsAre(headers, bitmaps, marks, k);
      SizesGrow(marks, k, |marks| - 1);
    }

    /** The horizon moves up to block k. */
    ghost method Recompacted(k: nat, outputLeaves: set<nat>, rproofLeaves: set<nat>)
      requires ext.Valid() && ext.Clean() && AtHead() && Injective(ext.outputPmmr.hasher)
      requires Stored(headers, bitmaps, marks) && Linked(marks) && horizon < |marks| && k < |marks|
      requires Accounted(opening, excess, chain, ext.Slots(), ext.kernelPmmr.backend.slots, headers, marks, sums)
      requires PrunedBy(outputLeaves, marks[horizon]) && PrunedBy(rproofLeaves, marks[horizon])
      requires forall x :: x in ext.outputPmmr.backend.pruneList.leaves ==>
                 (x in outputLeaves || (1 <= x <= marks[k].size && x !in ext.UnspentSet() && x !in SpentAfter(marks, k)))
      requires forall x :: x in ext.rproofPmmr.backend.pruneList.leaves ==>
                 (x in rproofLeaves || (1 <= x <= marks[k].size && x !in ext.UnspentSet() && x !in SpentAfter(marks, k)))
      modifies this`horizon
      ensures Valid() && horizon == if old(horizon) < k then k else old(horizon)
    {
      hide *;
      AtHeadIs();
      PrunedMore(marks, horizon, k, outputLeaves, ext.outputPmmr.backend.pruneList.leaves);
      PrunedMore(marks, horizon, k, rproofLeaves, ext.rproofPmmr.backend.pruneList.leaves);
      horizon := if horizon < k then k else horizon;
      PrunedIs();
      ext.ValidIs();
      AtHeadIs();
      StoredParts(headers, bitmaps, marks);
      ChainedFrom();
      ConsistentFrom();
      ValidFrom();
    }

    lemma HeadersAre()
      requires Stored(headers, bitmaps, marks)
      ensures Headed(headers, marks)
      ensures forall i :: 0 <= i < |headers| ==> headers[i].height == i
      ensures forall i, j :: 0 <= i < j < |headers| ==> headers[i].hash != headers[j].hash
    {
      hide Linked;
    }
  }
}
