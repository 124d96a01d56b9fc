/** A chain from nothing: empty files, a first block, and a first block on top of it. */
module Genesis {
  import opened AppendOnly
  import opened Arithmetic
  import opened Backends
  import opened Emission
  import opened Extensions
  import opened Forks
  import opened Histories
  import opened Outputs
  import opened Pmmrs
  import opened Postorder
  import opened Sums
  import opened TxHashSets
  import opened Wrappers
  import BackendTheory
  import Navigation

  const HASH_SIZE: nat := 32
  /** Features and commitment of an output. */
  const ID_SIZE: nat := 34
  /** Length and bytes of a range proof. */
  const PROOF_SIZE: nat := 683
  /** Features, fee, lock height, excess and signature of a kernel. */
  const KERNEL_SIZE: nat := 114

  lemma EmptyMerkle(h: Hasher)
    ensures Merkle(h, [], [])
  {}

  /** An empty tree on its own files. */
  method NewTree(h: Hasher, prunable: bool, dataSize: nat) returns (p: Pmmr)
    requires HashSize(h, HASH_SIZE) && dataSize > 0
    ensures p.Valid() && p.hasher == h && p.lastPos == 0 && p.backend.prunable == prunable
    ensures fresh(p) && fresh(p.backend.Repr())
    ensures p.backend.Synced() && p.backend.dataFile.elmtSize == dataSize
    ensures p.backend.hashes == p.backend.hashes0 == [] && p.backend.slots == p.backend.slots0 == []
    ensures p.backend.leafSet.bitmap == {} && p.backend.leafSet.bitmapBak == {} && p.backend.pruneList.leaves == {}
  {
    hide HashSize, Merkle;
    var b := new Backend(prunable, HASH_SIZE, dataSize);
    EmptyMerkle(h);
    p := new Pmmr.At(b, h, 0);
  }

  /** Three empty trees and an empty index. */
  method NewExtension(h: Hasher) returns (e: Extension)
    requires HashSize(h, HASH_SIZE)
    ensures e.Valid() && e.Clean() && e.outputPmmr.hasher == h && e.index == map[] && fresh(e)
    ensures e.outputPmmr.lastPos == 0 && e.kernelPmmr.lastPos == 0
    ensures e.outputPmmr.backend.pruneList.leaves == {} && e.rproofPmmr.backend.pruneList.leaves == {}
    ensures e.outputPmmr.backend.dataFile.elmtSize == ID_SIZE && e.rproofPmmr.backend.dataFile.elmtSize == PROOF_SIZE
    ensures e.kernelPmmr.backend.dataFile.elmtSize == KERNEL_SIZE
    ensures fresh(e.outputPmmr) && fresh(e.outputPmmr.backend.Repr())
    ensures fresh(e.rproofPmmr) && fresh(e.rproofPmmr.backend.Repr())
    ensures fresh(e.kernelPmmr) && fresh(e.kernelPmmr.backend.Repr())
  {
    hide HashSize, IsLeaf, Pmmr.Valid, Indexed;
    var outputs := NewTree(h, true, ID_SIZE);
    var rproofs := NewTree(h, true, PROOF_SIZE);
    var kernels := NewTree(h, false, KERNEL_SIZE);
    IndexNothing([]);
    assert Unspent({}, 0) == {};
    e := new Extension(outputs, rproofs, kernels, map[]);
    e.LiveIs();
    e.BaseIs();
    e.CleanIs();
  }

  // A chain

  /** A node has the first block: its parts are new and nothing else has changed. */
  method NewChain(h: Hasher, chain: ChainType, opening: Elmt -> Commitment, excess: Elmt -> Commitment, genesis: Block)
    returns (t: TxHashSet, ok: bool)
    requires HashSize(h, HASH_SIZE) && Injective(h)
    requires forall i :: 0 <= i < |genesis.outputs| ==> |genesis.outputs[i].id| == ID_SIZE && |genesis.outputs[i].proof| == PROOF_SIZE
    requires forall i :: 0 <= i < |genesis.kernels| ==> |genesis.kernels[i]| == KERNEL_SIZE
    requires genesis.header.height == 0 && (genesis.kernels == [] ==> genesis.outputs == [])
    requires genesis.header.outputMmrSize == SizeAfter(0, |genesis.outputs|)
    requires genesis.header.kernelMmrSize == SizeAfter(0, |genesis.kernels|)
    ensures t.chain == chain && t.opening == opening && t.excess == excess && t.ext.outputPmmr.hasher == h
    ensures t.ext.outputPmmr.backend.dataFile.elmtSize == ID_SIZE && t.ext.rproofPmmr.backend.dataFile.elmtSize == PROOF_SIZE
    ensures t.ext.kernelPmmr.backend.dataFile.elmtSize == KERNEL_SIZE
    ensures fresh(t) && fresh(t.ext)
    ensures fresh(t.ext.outputPmmr) && fresh(t.ext.outputPmmr.backend.Repr())
    ensures fresh(t.ext.rproofPmmr) && fresh(t.ext.rproofPmmr.backend.Repr())
    ensures fresh(t.ext.kernelPmmr) && fresh(t.ext.kernelPmmr.backend.Repr())
    ensures ok <==>
              && Applicable({}, Ids(genesis.outputs), genesis.inputs)
              && (genesis.kernels != [] ==> t.GenesisCheck(genesis).Ok?)
    ensures ok ==> t.Valid() && t.headers == [genesis.header] && t.sums.Keys == {genesis.header.hash} && t.bitmaps == map[]
    ensures ok ==> |t.marks| == 1 && t.horizon == 0 && t.ext.Newest()
    ensures ok ==>
              && t.ext.UtxoSet() == ElementsOf(Ids(genesis.outputs)) - ElementsOf(genesis.inputs)
              && LeafElements(t.ext.kernelPmmr.backend.slots) == genesis.kernels
              && t.ext.outputPmmr.lastPos == genesis.header.outputMmrSize
              && t.ext.kernelPmmr.lastPos == genesis.header.kernelMmrSize
  {
    hide HashSize, Injective, Extension.Valid, Extension.Clean, Extension.Sized, TxHashSet.Valid, Applicable, SizeAfter,
      TxHashSet.GenesisCheck, Extension.UtxoSet, LeafElements, ElementsOf;
    var e := NewExtension(h);
    t := new TxHashSet(e, chain, opening, excess);
    e.SizedFrom(genesis.outputs, genesis.kernels);
    ok := t.SetupHead(genesis);
  }

  // Two blocks

  function FirstByte(e: Elmt, i: nat): (h: Elmt) {
    [if e == [] then 0 else 1, if e == [] then 0 else e[0]] + seq(30, _ => 0)
  }

  function NoByte(left: Elmt, right: Elmt, i: nat): (h: Elmt) {
    seq(32, _ => 0)
  }

  /** Hashes of the right size that tell apart outputs with the same commitment. */
  lemma HashersExist()
    ensures HashSize(Hasher(FirstByte, NoByte), HASH_SIZE) && Injective(Hasher(FirstByte, NoByte))
  {
    var h := Hasher(FirstByte, NoByte);
    forall a, b, i | CommitOf(a) == CommitOf(b) && h.leaf(a, i) == h.leaf(b, i) ensures a == b {
      assert FirstByte(a, i)[0] == FirstByte(b, i)[0] && FirstByte(a, i)[1] == FirstByte(b, i)[1];
      if a != [] { assert a == [a[0]] + a[1..] && b == [b[0]] + b[1..]; }
    }
  }

  lemma FirstSizes()
    ensures SizeAfter(0, 0) == 0 && SizeAfter(0, 1) == 1
  {}

  /** Every output holds v, and no kernel has an excess. */
  function Holding(v: nat): (f: Elmt -> Commitment) {
    (id: Elmt) => Commitment(v, 0)
  }

  function NoExcess(kernel: Elmt): (c: Commitment) { ZERO }

  lemma SumNone(f: Elmt -> Commitment)
    ensures Sum(Image(f, [])) == ZERO && SumSet(f, {}) == ZERO
  {}

  lemma SumOne(f: Elmt -> Commitment, x: Elmt)
    ensures Sum(Image(f, [x])) == f(x)
  {
    hide Image, Sum;
    SumNone(f);
    ImagePush(f, [], x);
    assert [] + [x] == [x];
  }

  lemma FirstFits(id: Elmt)
    ensures Fits({}, [id], []) && ElementsOf([id]) - ElementsOf<Elmt>([]) == {id}
  {
    hide CommitOf;
  }

  lemma AcceptsReward(t: TxHashSet, v: nat, b: Block, id: Elmt, proof: Elmt, kernel: Elmt)
    requires |t.headers| == 1 && t.headers[0] == Header(0, 0, 0, 0, 0, 0) && t.sums.Keys == {0} && t.bitmaps == map[]
    requires v == Overage(t.chain, false, |t.headers|) && t.opening == Holding(v) && t.excess == NoExcess
    requires t.ext.UtxoSet() == {} && LeafElements(t.ext.kernelPmmr.backend.slots) == []
    requires t.ext.outputPmmr.lastPos == 0 && t.ext.kernelPmmr.lastPos == 0
    requires b == Block(Header(1, 0, 1, 1, 1, 0), [Output(id, proof)], [], [kernel])
    ensures t.Accepts(b)
  {
    hide *;
    FirstSizes();
    HoldingIs(v, id, kernel);
    Started(t);
    SumNone(Holding(v));
    SumNone(NoExcess);
    SumOne(Holding(v), id);
    SumOne(NoExcess, kernel);
    FirstFits(id);
    assert Ids(b.outputs) == [id];
    t.SumsAre();
    t.FullCheckAs(b);
    BalancedReward(ZERO, Commitment(v, 0), v);
    ContinuesIs(t.headers, b.header);
    t.TakesIs(b);
    t.AcceptsIs(b);
  }

  lemma Started(t: TxHashSet)
    requires |t.headers| == 1
    ensures |t.headers| <= SCHEDULE_END
  {}

  lemma HoldingIs(v: nat, id: Elmt, kernel: Elmt)
    ensures Holding(v)(id) == Commitment(v, 0) && NoExcess(kernel) == ZERO && ZERO.value == 0 && ZERO.blind == 0
  {}

  /** A chain whose second block pays the reward to one output: the invariants of the chain hold of it. */
  method TwoBlocks(id: Elmt, proof: Elmt, kernel: Elmt) returns (t: TxHashSet)
    requires |id| == ID_SIZE && |proof| == PROOF_SIZE && |kernel| == KERNEL_SIZE
    ensures t.Valid() && |t.headers| == 2 && t.ext.UtxoSet() == {id}
    ensures LeafElements(t.ext.kernelPmmr.backend.slots) == [kernel]
  {
    hide HashSize, Injective, Extension.Valid, Extension.Clean, Extension.Sized, TxHashSet.Valid, Applicable, SizeAfter,
      TxHashSet.GenesisCheck, Extension.UtxoSet, LeafElements, TxHashSet.Accepts, Fits, Overage, Holding,
      TxHashSet.Now, Next, Extension.Told, Extension.Exactly, Extension.Newest;
    HashersExist();
    FirstSizes();
    var genesis := Block(Header(0, 0, 0, 0, 0, 0), [], [], []);
    assert Applicable({}, Ids(genesis.outputs), genesis.inputs) by { FirstApplies(); }
    var ok;
    var v := Overage(Mainnet, false, 1);
    t, ok := NewChain(Hasher(FirstByte, NoByte), Mainnet, Holding(v), NoExcess, genesis);
    assert t.ext.UtxoSet() == {};
    var b := Block(Header(1, 0, 1, 1, 1, 0), [Output(id, proof)], [], [kernel]);
    AcceptsReward(t, v, b, id, proof, kernel);
    t.ext.SizedFrom(b.outputs, b.kernels);
    t.ext.NewestExactly();
    t.ext.ExactlyTold(Ids(b.outputs), b.inputs);
    Started(t);
    t.NowIs();
    NextIs(t.Now(), b);
    ok := t.ProcessBlock(b);
    t.NowIs();
    FirstFits(id);
    assert Ids(b.outputs) == [id];
  }

  lemma FirstApplies()
    ensures Applicable({}, Ids([]), [])
  {}

  // A chain that creates an output again

  ghost predicate Nothing(c: Commitment) { c.value == 0 && c.blind == 0 }

  lemma NothingMore(a: Commitment, b: Commitment)
    requires Nothing(a) && Nothing(b)
    ensures Nothing(Add(a, b))
  {
    hide *;
    NothingIs(a);
    NothingIs(b);
    NothingIs(Add(a, b));
    AddIs(a, b);
  }

  lemma NothingIs(c: Commitment)
    ensures Nothing(c) <==> c.value == 0 && c.blind == 0
  {}

  lemma ZeroIsNothing(kernel: Elmt)
    ensures Nothing(ZERO) && Nothing(NoExcess(kernel))
  {}

  lemma {:induction false} NoExcesses(kernels: seq<Elmt>)
    ensures Nothing(Sum(Image(NoExcess, kernels)))
  {
    hide *;
    if kernels == [] {
      SumNone(NoExcess);
      ZeroIsNothing([]);
    } else {
      var n := |kernels| - 1;
      NoExcesses(kernels[..n]);
      ImagePush(NoExcess, kernels[..n], kernels[n]);
      ZeroIsNothing(kernels[n]);
      NothingMore(Sum(Image(NoExcess, kernels[..n])), NoExcess(kernels[n]));
      assert kernels[..n] + [kernels[n]] == kernels;
    }
  }

  lemma ExactBalance(net: Commitment, kernels: Commitment, more: Commitment, owed: int)
    requires net.value == owed && net.blind == 0 && Nothing(kernels) && Nothing(more)
    ensures Balance(net, Add(kernels, more), 0 - owed, 0).Ok?
  {
    hide *;
    NothingIs(kernels);
    NothingIs(more);
    AddIs(kernels, more);
    BalanceIs(net, Add(kernels, more), 0 - owed, 0);
  }

  /** The next block, with one kernel and whatever sizes it has to name. */
  method Mine(t: TxHashSet, hash: nat, outputs: seq<Output>, inputs: seq<Elmt>, kernel: Elmt)
    requires t.Valid() && t.ext.Newest() && 0 < |t.headers| <= SCHEDULE_END && t.excess == NoExcess
    requires hash !in t.sums && hash !in t.bitmaps && |kernel| == KERNEL_SIZE
    requires t.ext.Sized(outputs, [kernel]) && Fits(t.ext.UtxoSet(), Ids(outputs), inputs)
    requires Add(SumSet(t.opening, t.ext.UtxoSet()), Sub(Sum(Image(t.opening, Ids(outputs))), Sum(Image(t.opening, inputs)))) ==
             Commitment(Overage(t.chain, t.headers[0].kernelMmrSize > 0, |t.headers|), 0)
    modifies t`headers, t`bitmaps, t`sums, t`marks, t.ext
    modifies t.ext.outputPmmr, t.ext.outputPmmr.backend, t.ext.outputPmmr.backend.hashFile, t.ext.outputPmmr.backend.dataFile, t.ext.outputPmmr.backend.leafSet
    modifies t.ext.rproofPmmr, t.ext.rproofPmmr.backend, t.ext.rproofPmmr.backend.hashFile, t.ext.rproofPmmr.backend.dataFile, t.ext.rproofPmmr.backend.leafSet
    modifies t.ext.kernelPmmr, t.ext.kernelPmmr.backend, t.ext.kernelPmmr.backend.hashFile, t.ext.kernelPmmr.backend.dataFile, t.ext.kernelPmmr.backend.leafSet
    ensures t.Valid() && t.ext.Newest() && |t.headers| == |old(t.headers)| + 1 && t.headers[0] == old(t.headers)[0]
    ensures t.headers[..|old(t.headers)|] == old(t.headers)
    ensures t.ext.UtxoSet() == old(t.ext.UtxoSet()) + ElementsOf(Ids(outputs)) - ElementsOf(inputs)
    ensures t.sums.Keys == old(t.sums).Keys + {hash} && t.bitmaps.Keys == old(t.bitmaps).Keys + {hash}
    ensures |t.marks| == |old(t.marks)| + 1 && t.marks[..|old(t.marks)|] == old(t.marks)
    ensures old(t.ext.Slots()) <= t.ext.Slots() && old(t.ext.Proofs()) <= t.ext.Proofs()
    ensures old(t.ext.kernelPmmr.backend.slots) <= t.ext.kernelPmmr.backend.slots
  {
    hide *;
    var b := Block(Header(hash, t.headers[|t.headers| - 1].hash, |t.headers|,
                          SizeAfter(t.ext.outputPmmr.lastPos, |outputs|), SizeAfter(t.ext.kernelPmmr.lastPos, 1), 0),
                   outputs, inputs, [kernel]);
    t.ValidParts();
    t.ConsistentIs();
    t.NewHash(b.header);
    ContinuesIs(t.headers, b.header);
    t.SumsAre();
    t.FullCheckAs(b);
    NoExcesses(LeafElements(t.ext.kernelPmmr.backend.slots));
    NoExcesses([kernel]);
    ExactBalance(Commitment(Overage(t.chain, t.headers[0].kernelMmrSize > 0, |t.headers|), 0), t.KernelSum(),
                 Sum(Image(t.excess, [kernel])), Overage(t.chain, t.headers[0].kernelMmrSize > 0, |t.headers|));
    t.TakesIs(b);
    t.AcceptsIs(b);
    t.ext.NewestExactly();
    t.ext.ExactlyTold(Ids(outputs), inputs);
    t.NowIs();
    NextIs(t.Now(), b);
    ghost var l := t.Now();
    var ok := t.ProcessBlock(b);
    t.NowIs();
  }

  /** What the outputs of the chain below hold. */
  function Amounts(a: Elmt, c: Elmt, v: nat, w: nat, x: nat): (f: Elmt -> Commitment) {
    (id: Elmt) => Commitment(if id == a then v else if id == c then w else x - v, 0)
  }

  lemma AmountsAre(a: Elmt, c: Elmt, d: Elmt, v: nat, w: nat, x: nat)
    requires a != c && d != a && d != c
    ensures var f := Amounts(a, c, v, w, x);
            f(a) == Commitment(v, 0) && f(c) == Commitment(w, 0) && f(d) == Commitment(x - v, 0)
    ensures Nothing(ZERO)
  {}

  lemma SetOfOne(f: Elmt -> Commitment, id: Elmt)
    ensures SumSet(f, {id}) == Add(ZERO, f(id))
  {
    hide SumSet, Add;
    SumNone(f);
    SumSetRemove(f, {id}, id);
    assert {id} - {id} == {};
  }

  lemma SumTwo(f: Elmt -> Commitment, a: Elmt, b: Elmt)
    ensures Sum(Image(f, [a, b])) == Add(f(a), f(b))
  {
    hide Sum, Image, Add;
    SumOne(f, a);
    ImagePush(f, [a], b);
    assert [a] + [b] == [a, b];
  }

  lemma NetOf(u: Commitment, o: Commitment, i: Commitment, total: int)
    requires u.value + o.value - i.value == total && u.blind + o.blind - i.blind == 0
    ensures Add(u, Sub(o, i)) == Commitment(total, 0)
  {}

  lemma Parts(a: Commitment, b: Commitment)
    ensures Add(a, b).value == a.value + b.value && Add(a, b).blind == a.blind + b.blind
  {}

  lemma NothingSums(f: Elmt -> Commitment)
    ensures Sum(Image(f, [])) == ZERO && SumSet(f, {}) == ZERO && Nothing(ZERO)
  {}

  lemma FitsOther(a: Elmt, c: Elmt)
    requires CommitOf(a) != CommitOf(c)
    ensures Fits({a}, [c], [a]) && {a} + ElementsOf([c]) - ElementsOf([a]) == {c}
  {
    hide CommitOf;
  }

  lemma FitsTwo(c: Elmt, a: Elmt, d: Elmt)
    requires CommitOf(a) != CommitOf(c) && CommitOf(d) != CommitOf(c) && CommitOf(a) != CommitOf(d)
    ensures Fits({c}, [a, d], [c]) && {c} + ElementsOf([a, d]) - ElementsOf([c]) == {a, d}
  {
    hide CommitOf;
  }

  lemma IdsOne(o: Output)
    ensures Ids([o]) == [o.id]
  {}

  lemma IdsTwo(o: Output, p: Output)
    ensures Ids([o, p]) == [o.id, p.id]
  {}

  lemma Scheduled(n: nat)
    requires n <= 4
    ensures n <= SCHEDULE_END
  {}

  /** An output that is unspent now and was not at the mark came after it. */
  lemma CameAfter(slots: seq<Elmt>, marks: seq<Mark>, k: nat, id: Elmt)
    requires Linked(marks) && k < |marks| && marks[|marks| - 1].size <= |slots|
    requires id in Utxo(slots, marks[|marks| - 1].unspent) && id !in Utxo(slots, marks[k].unspent)
    ensures CreatedAgain(slots, marks[k].size, CommitOf(id))
  {
    hide Linked, CommitOf, IsLeaf;
    var p :| p in marks[|marks| - 1].unspent && 1 <= p <= |slots| && slots[p - 1] == id;
    LinkedAt(marks, |marks| - 1);
    if p <= marks[k].size { LaterUnspent(marks, k, p); }
  }

  ghost predicate Sample(a: Output, c: Output, d: Output, kernel: Elmt) {
    && |a.id| == |c.id| == |d.id| == ID_SIZE && |a.proof| == |c.proof| == |d.proof| == PROOF_SIZE && |kernel| == KERNEL_SIZE
    && CommitOf(a.id) != CommitOf(c.id) && CommitOf(d.id) != CommitOf(c.id) && CommitOf(a.id) != CommitOf(d.id)
  }

  /** Each of the three blocks below brings the unspent outputs to what the schedule owes. */
  lemma SampleSums(a: Output, c: Output, d: Output, kernel: Elmt, v: nat, w: nat, x: nat)
    requires Sample(a, c, d, kernel)
    ensures var f := Amounts(a.id, c.id, v, w, x);
            && Add(SumSet(f, {}), Sub(Sum(Image(f, Ids([a]))), Sum(Image(f, [])))) == Commitment(v, 0)
            && Add(SumSet(f, {a.id}), Sub(Sum(Image(f, Ids([c]))), Sum(Image(f, [a.id])))) == Commitment(w, 0)
            && Add(SumSet(f, {c.id}), Sub(Sum(Image(f, Ids([a, d]))), Sum(Image(f, [c.id])))) == Commitment(x, 0)
  {
    hide CommitOf, Amounts, Sum, SumSet, Image, Add, Sub, Ids;
    var f := Amounts(a.id, c.id, v, w, x);
    AmountsAre(a.id, c.id, d.id, v, w, x);
    NothingSums(f);
    SumOne(f, a.id);
    SumOne(f, c.id);
    SumTwo(f, a.id, d.id);
    SetOfOne(f, a.id);
    SetOfOne(f, c.id);
    Parts(ZERO, f(a.id));
    Parts(ZERO, f(c.id));
    Parts(f(a.id), f(d.id));
    IdsOne(a);
    IdsOne(c);
    IdsTwo(a, d);
    NetOf(SumSet(f, {}), f(a.id), ZERO, v);
    NetOf(SumSet(f, {a.id}), f(c.id), f(a.id), w);
    NetOf(SumSet(f, {c.id}), Sum(Image(f, [a.id, d.id])), f(c.id), x);
  }

  lemma SampleFits(a: Output, c: Output, d: Output, kernel: Elmt)
    requires Sample(a, c, d, kernel)
    ensures Fits({}, Ids([a]), []) && {} + ElementsOf(Ids([a])) - ElementsOf<Elmt>([]) == {a.id}
    ensures Fits({a.id}, Ids([c]), [a.id]) && {a.id} + ElementsOf(Ids([c])) - ElementsOf([a.id]) == {c.id}
    ensures Fits({c.id}, Ids([a, d]), [c.id]) && {c.id} + ElementsOf(Ids([a, d])) - ElementsOf([c.id]) == {a.id, d.id}
    ensures ElementsOf(Ids([])) - ElementsOf<Elmt>([]) == {}
  {
    hide CommitOf, Fits, Ids;
    IdsOne(a);
    IdsOne(c);
    IdsTwo(a, d);
    FirstFits(a.id);
    FitsOther(a.id, c.id);
    FitsTwo(c.id, a.id, d.id);
    assert Ids([]) == [];
  }

  /** The second block creates an output, the third spends it and the fourth creates it again. */
  method ThreeMore(t: TxHashSet, a: Output, c: Output, d: Output, kernel: Elmt, v: nat, w: nat, x: nat)
    requires Sample(a, c, d, kernel) && t.Valid() && t.ext.Newest() && t.excess == NoExcess && t.opening == Amounts(a.id, c.id, v, w, x)
    requires |t.headers| == |t.marks| == 1 && t.headers[0].kernelMmrSize == 0 && t.sums.Keys == {0} && t.bitmaps == map[]
    requires t.ext.UtxoSet() == {} && t.chain == Mainnet && 3 <= SCHEDULE_END
    requires v == Overage(Mainnet, false, 1) && w == Overage(Mainnet, false, 2) && x == Overage(Mainnet, false, 3)
    requires t.ext.Sized([a], [kernel]) && t.ext.Sized([c], [kernel]) && t.ext.Sized([a, d], [kernel])
    modifies t`headers, t`bitmaps, t`sums, t`marks, t.ext
    modifies t.ext.outputPmmr, t.ext.outputPmmr.backend, t.ext.outputPmmr.backend.hashFile, t.ext.outputPmmr.backend.dataFile, t.ext.outputPmmr.backend.leafSet
    modifies t.ext.rproofPmmr, t.ext.rproofPmmr.backend, t.ext.rproofPmmr.backend.hashFile, t.ext.rproofPmmr.backend.dataFile, t.ext.rproofPmmr.backend.leafSet
    modifies t.ext.kernelPmmr, t.ext.kernelPmmr.backend, t.ext.kernelPmmr.backend.hashFile, t.ext.kernelPmmr.backend.dataFile, t.ext.kernelPmmr.backend.leafSet
    ensures t.Valid() && t.ext.Newest() && |t.headers| == |t.marks| == 4
    ensures t.Holds(1) && t.At(1).utxo == {a.id}
    ensures t.Holds(2) && t.At(2).utxo == {c.id}
    ensures t.ext.UtxoSet() == {a.id, d.id}
  {
    hide *;
    SampleSizes(a, c, d, kernel);
    SampleSums(a, c, d, kernel, v, w, x);
    SampleFits(a, c, d, kernel);
    Mine(t, 1, [a], [], kernel);
    HeadParts(t);
    t.NowIs();
    ghost var l1, marks1, slots1, proofs1 := t.Now(), t.marks, t.ext.Slots(), t.ext.Proofs();
    ghost var kernels1 := t.ext.kernelPmmr.backend.slots;
    Mine(t, 2, [c], [a.id], kernel);
    HeadParts(t);
    t.NowIs();
    ghost var l2, marks2, slots2, proofs2 := t.Now(), t.marks, t.ext.Slots(), t.ext.Proofs();
    ghost var kernels2 := t.ext.kernelPmmr.backend.slots;
    Mine(t, 3, [a, d], [c.id], kernel);
    HeadParts(t);
    t.NowIs();
    assert t.marks[..2] == t.marks[..3][..2] && t.headers[..2] == t.headers[..3][..2];
    AtThen(t, l1, marks1, slots1, proofs1, kernels1);
    AtThen(t, l2, marks2, slots2, proofs2, kernels2);
  }

  lemma SampleSizes(a: Output, c: Output, d: Output, kernel: Elmt)
    requires Sample(a, c, d, kernel)
    ensures |kernel| == KERNEL_SIZE && a.id != c.id
  {}

  lemma CreatedEarlier(slots: seq<Elmt>, n: nat, n': nat, c: Elmt)
    requires CreatedAgain(slots, n', c) && n <= n'
    ensures CreatedAgain(slots, n, c)
  {
    hide IsLeaf, CommitOf;
  }

  lemma TakenHere(id: Elmt)
    ensures Taken(CommitOf(id), {id})
  {
    hide CommitOf;
  }

  /** Back at the second block the output is unspent, and yet the test for duplicates finds it new. */
  method BackToSecond(t: TxHashSet, a: Elmt, c: Elmt, d: Elmt) returns (unknown: bool)
    requires t.Valid() && t.ext.Newest() && t.horizon == 0 && |t.headers| == |t.marks| == 4 && a != c
    requires t.Holds(1) && t.At(1).utxo == {a}
    requires t.Holds(2) && t.At(2).utxo == {c}
    requires t.ext.UtxoSet() == {a, d}
    modifies t`headers, t`marks
    modifies t.ext.outputPmmr, t.ext.outputPmmr.backend, t.ext.outputPmmr.backend.hashFile, t.ext.outputPmmr.backend.dataFile, t.ext.outputPmmr.backend.leafSet
    modifies t.ext.rproofPmmr, t.ext.rproofPmmr.backend, t.ext.rproofPmmr.backend.hashFile, t.ext.rproofPmmr.backend.dataFile, t.ext.rproofPmmr.backend.leafSet
    modifies t.ext.kernelPmmr, t.ext.kernelPmmr.backend, t.ext.kernelPmmr.backend.hashFile, t.ext.kernelPmmr.backend.dataFile, t.ext.kernelPmmr.backend.leafSet
    ensures t.Consistent() && t.ext.UtxoSet() == {a} && unknown
  {
    hide *;
    HeadParts(t);
    t.NowIs();
    t.AtIs(1);
    t.AtIs(2);
    t.ValidParts();
    t.ConsistentIs();
    CameAfter(t.ext.Slots(), t.marks, 2, a);
    SizesGrow(t.marks, 1, 2);
    CreatedEarlier(t.ext.Slots(), t.marks[1].size, t.marks[2].size, CommitOf(a));
    TakenHere(a);
    unknown := RewindAndTest(t, 1, a);
    t.NowIs();
  }

  /** A run of the chain in which an output that is unspent can be created a second time. */
  method DuplicateRun(a: Output, c: Output, d: Output, kernel: Elmt) returns (t: TxHashSet, unknown: bool)
    requires Sample(a, c, d, kernel)
    ensures t.Consistent() && t.ext.UtxoSet() == {a.id} && unknown
  {
    hide HashSize, Injective, Extension.Valid, Extension.Clean, Extension.Sized, TxHashSet.Valid, TxHashSet.Consistent, Applicable,
      SizeAfter, TxHashSet.GenesisCheck, Extension.UtxoSet, LeafElements, TxHashSet.Accepts, Fits, Overage, Amounts, CommitOf, Sum,
      SumSet, Image, Add, Sub, Ids, ElementsOf, TxHashSet.Now, TxHashSet.At, TxHashSet.Holds, Extension.Newest, Extension.Slots, Extension.Proofs, Linked, Utxo, Taken,
      Sample;
    HashersExist();
    FirstSizes();
    FirstApplies();
    Scheduled(3);
    SampleSizes(a, c, d, kernel);
    SampleFits(a, c, d, kernel);
    var v, w, x := Overage(Mainnet, false, 1), Overage(Mainnet, false, 2), Overage(Mainnet, false, 3);
    var ok;
    t, ok := NewChain(Hasher(FirstByte, NoByte), Mainnet, Amounts(a.id, c.id, v, w, x), NoExcess,
                      Block(Header(0, 0, 0, 0, 0, 0), [], [], []));
    SampleSized(t.ext, a, c, d, kernel);
    ThreeMore(t, a, c, d, kernel, v, w, x);
    unknown := BackToSecond(t, a.id, c.id, d.id);
  }

  lemma SampleSized(e: Extension, a: Output, c: Output, d: Output, kernel: Elmt)
    requires Sample(a, c, d, kernel)
    requires e.outputPmmr.backend.dataFile.elmtSize == ID_SIZE && e.rproofPmmr.backend.dataFile.elmtSize == PROOF_SIZE
    requires e.kernelPmmr.backend.dataFile.elmtSize == KERNEL_SIZE
    ensures e.Sized([a], [kernel]) && e.Sized([c], [kernel]) && e.Sized([a, d], [kernel])
  {
    hide CommitOf;
  }
}
