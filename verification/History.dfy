/** The history of the unspent outputs along a chain, and what rewinding it needs. */
module Histories {
  import opened AppendOnly
  import opened Extensions
  import opened Outputs
  import opened Postorder

  /** The trees after a block, and the positions that the block spent. */
  datatype Mark = Mark(size: nat, kernelSize: nat, unspent: set<nat>, spent: set<nat>)

  ghost predicate Sound(m: Mark) {
    && IsLeaf(m.size + 1) && IsLeaf(m.kernelSize + 1)
    && forall p :: p in m.unspent ==> 1 <= p <= m.size && IsLeaf(p)
  }

  ghost predicate Follows(a: Mark, b: Mark) {
    Spends(a.unspent, a.size, b.unspent, b.size, b.spent) && a.kernelSize <= b.kernelSize
  }

  ghost predicate Linked(marks: seq<Mark>) {
    && (forall i :: 0 <= i < |marks| ==> Sound(marks[i]))
    && (forall i :: 0 < i < |marks| ==> Follows(marks[i - 1], marks[i]))
  }

  /** A block with these outputs and inputs led from one mark to the next. */
  ghost predicate LedBy(slots: seq<Elmt>, a: Mark, b: Mark, outputs: seq<Elmt>, inputs: seq<Elmt>) {
    && b.size <= |slots| && Fills(a.size, b.size, slots, outputs)
    && b.spent == Places(slots, a.unspent + NewLeaves(a.size, b.size), inputs) && |b.spent| == |inputs|
  }

  lemma LedByIs(slots: seq<Elmt>, a: Mark, b: Mark, outputs: seq<Elmt>, inputs: seq<Elmt>)
    ensures LedBy(slots, a, b, outputs, inputs) <==>
              && b.size <= |slots| && Fills(a.size, b.size, slots, outputs)
              && b.spent == Places(slots, a.unspent + NewLeaves(a.size, b.size), inputs) && |b.spent| == |inputs|
  {}

  /** Later leaves do not matter. */
  lemma LedByMore(slots: seq<Elmt>, a: Mark, b: Mark, outputs: seq<Elmt>, inputs: seq<Elmt>, slots': seq<Elmt>)
    requires LedBy(slots, a, b, outputs, inputs) && slots <= slots' && a.size <= b.size
    requires forall p :: p in a.unspent ==> p <= a.size
    ensures LedBy(slots', a, b, outputs, inputs)
  {
    hide IsLeaf;
    forall p | p in a.unspent + NewLeaves(a.size, b.size) ensures p <= b.size {}
    assert forall k :: 0 <= k < |slots| ==> slots'[k] == slots[k];
    assert Places(slots', a.unspent + NewLeaves(a.size, b.size), inputs) == Places(slots, a.unspent + NewLeaves(a.size, b.size), inputs);
  }

  /** Everything spent by the blocks after block k. */
  ghost function SpentAfter(marks: seq<Mark>, k: nat): (s: set<nat>)
    decreases |marks| - k
  {
    if k + 1 >= |marks| then {} else marks[k + 1].spent + SpentAfter(marks, k + 1)
  }

  lemma SpentStep(marks: seq<Mark>, k: nat)
    ensures SpentAfter(marks, k) == if k + 1 >= |marks| then {} else marks[k + 1].spent + SpentAfter(marks, k + 1)
  {}

  lemma LinkedAt(marks: seq<Mark>, k: nat)
    requires Linked(marks) && k < |marks|
    ensures Sound(marks[k]) && (k > 0 ==> Follows(marks[k - 1], marks[k]))
    ensures forall p :: p in marks[k].unspent ==> 1 <= p <= marks[k].size && IsLeaf(p)
    ensures IsLeaf(marks[k].size + 1) && IsLeaf(marks[k].kernelSize + 1)
  {
    hide IsLeaf, Follows;
  }

  lemma LinkedPush(marks: seq<Mark>, m: Mark)
    requires Linked(marks) && Sound(m) && (|marks| > 0 ==> Follows(marks[|marks| - 1], m))
    ensures Linked(marks + [m])
  {
    hide Sound, Follows;
  }

  lemma LinkedPrefix(marks: seq<Mark>, k: nat)
    requires Linked(marks) && k <= |marks|
    ensures Linked(marks[..k])
  {
    hide Sound, Follows;
  }

  lemma {:induction false} SizesGrow(marks: seq<Mark>, i: nat, j: nat)
    requires Linked(marks) && i <= j < |marks|
    ensures marks[i].size <= marks[j].size && marks[i].kernelSize <= marks[j].kernelSize
  {
    hide Sound;
    if i < j { SizesGrow(marks, i, j - 1); }
  }

  /** One block back: below the old size, unspent means unspent later or spent by the block. */
  lemma BlockBack(a: Mark, b: Mark, p: nat)
    requires Sound(a) && Follows(a, b) && p <= a.size
    ensures p in a.unspent <==> p in b.unspent || p in b.spent
  {
    hide IsLeaf;
  }

  /** What a leaf below the size of block k is at the head tells what it was at block k. */
  lemma {:induction false} LaterUnspent(marks: seq<Mark>, k: nat, p: nat)
    requires Linked(marks) && k < |marks| && p <= marks[k].size
    ensures p in marks[k].unspent <==> p in marks[|marks| - 1].unspent || p in SpentAfter(marks, k)
    decreases |marks| - k
  {
    hide IsLeaf, Sound, Follows, Spends;
    if k + 1 < |marks| {
      SizesGrow(marks, k, k + 1);
      LaterUnspent(marks, k + 1, p);
      BlockBack(marks[k], marks[k + 1], p);
    }
  }

  /** Putting back what was spent since block k gives exactly what was unspent at block k. */
  lemma RewindExact(marks: seq<Mark>, k: nat)
    requires Linked(marks) && k < |marks|
    ensures Unspent(marks[|marks| - 1].unspent + SpentAfter(marks, k), marks[k].size) == marks[k].unspent
  {
    hide IsLeaf, Follows, SpentAfter;
    forall p | p in Unspent(marks[|marks| - 1].unspent + SpentAfter(marks, k), marks[k].size)
      ensures p in marks[k].unspent
    {
      LaterUnspent(marks, k, p);
    }
    forall p | p in marks[k].unspent
      ensures p in Unspent(marks[|marks| - 1].unspent + SpentAfter(marks, k), marks[k].size)
    {
      LaterUnspent(marks, k, p);
    }
  }

  /** What is spent stays spent. */
  lemma {:induction false} SpentGone(marks: seq<Mark>, k: nat, p: nat)
    requires Linked(marks) && k < |marks| && p in SpentAfter(marks, k)
    ensures p !in marks[|marks| - 1].unspent
    decreases |marks| - k
  {
    hide IsLeaf, Sound;
    LinkedAt(marks, k);
    if p in SpentAfter(marks, k + 1) {
      SpentGone(marks, k + 1, p);
    } else {
      LinkedAt(marks, k + 1);
      LaterUnspent(marks, k + 1, p);
    }
  }

  /** A leaf that came after block k is in the set of what was spent since exactly if it is not unspent at the head. */
  lemma {:induction false} FateOfLater(marks: seq<Mark>, k: nat, x: nat)
    requires Linked(marks) && k < |marks| && marks[k].size < x <= marks[|marks| - 1].size && IsLeaf(x)
    ensures x in SpentAfter(marks, k) <==> x !in marks[|marks| - 1].unspent
    decreases |marks| - k
  {
    hide IsLeaf;
    LinkedAt(marks, k);
    LinkedAt(marks, k + 1);
    if x <= marks[k + 1].size {
      LaterUnspent(marks, k + 1, x);
      if x in SpentAfter(marks, k + 1) { SpentGone(marks, k + 1, x); }
      if x in marks[k + 1].spent { assert x !in marks[k + 1].unspent; }
    } else {
      FateOfLater(marks, k + 1, x);
    }
  }

  lemma {:induction false} SpentAfterBound(marks: seq<Mark>, k: nat)
    requires Linked(marks) && k < |marks|
    ensures forall p :: p in SpentAfter(marks, k) ==> 1 <= p <= marks[|marks| - 1].size
    decreases |marks| - k
  {
    hide *;
    SpentStep(marks, k);
    if k + 1 < |marks| {
      SpentAfterBound(marks, k + 1);
      LinkedAt(marks, k);
      LinkedAt(marks, k + 1);
      SpentInside(marks[k], marks[k + 1]);
      SizesGrow(marks, k + 1, |marks| - 1);
    }
  }

  /** A block spends leaves up to its own size. */
  lemma SpentInside(a: Mark, b: Mark)
    requires Sound(a) && Follows(a, b)
    ensures forall p :: p in b.spent ==> 1 <= p <= b.size && IsLeaf(p)
  {
    hide IsLeaf;
  }

  /**
   * Above the size of block k a rewind leaves exactly the leaves that came and were spent since:
   * none exactly when every output created after block k is unspent at the head.
   */
  lemma AboveTheSize(marks: seq<Mark>, k: nat)
    requires Linked(marks) && k < |marks|
    ensures forall x :: x > marks[k].size ==>
              (x in SpentAfter(marks, k) <==>
               x in NewLeaves(marks[k].size, marks[|marks| - 1].size) && x !in marks[|marks| - 1].unspent)
    ensures (forall x :: x in SpentAfter(marks, k) ==> x <= marks[k].size) <==>
            NewLeaves(marks[k].size, marks[|marks| - 1].size) <= marks[|marks| - 1].unspent
  {
    hide IsLeaf, Linked, SpentAfter;
    SpentAfterLeaves(marks, k);
    SpentAfterBound(marks, k);
    forall x: nat | marks[k].size < x <= marks[|marks| - 1].size && IsLeaf(x)
      ensures x in SpentAfter(marks, k) <==> x !in marks[|marks| - 1].unspent
    {
      FateOfLater(marks, k, x);
    }
  }

  lemma {:induction false} SpentAfterLeaves(marks: seq<Mark>, k: nat)
    requires Linked(marks) && k < |marks|
    ensures forall p :: p in SpentAfter(marks, k) ==> p >= 1 && IsLeaf(p)
    decreases |marks| - k
  {
    hide *;
    SpentStep(marks, k);
    if k + 1 < |marks| {
      SpentAfterLeaves(marks, k + 1);
      LinkedAt(marks, k);
      LinkedAt(marks, k + 1);
      SpentInside(marks[k], marks[k + 1]);
    }
  }

  /** The blocks after a later block spend no more. */
  lemma {:induction false} SpentAfterShrinks(marks: seq<Mark>, i: nat, k: nat)
    requires i <= k < |marks|
    ensures SpentAfter(marks, k) <= SpentAfter(marks, i)
    decreases k - i
  {
    if i < k { SpentAfterShrinks(marks, i + 1, k); }
  }

  /** Pruned leaves were spent at the horizon. */
  ghost predicate PrunedBy(leaves: set<nat>, m: Mark) {
    forall p :: p in leaves ==> 1 <= p <= m.size && p !in m.unspent
  }

  /** What was pruned at the horizon is not brought back by a rewind to a block not before it. */
  lemma PrunedStays(marks: seq<Mark>, horizon: nat, k: nat, leaves: set<nat>)
    requires Linked(marks) && horizon <= k < |marks| && PrunedBy(leaves, marks[horizon])
    ensures SpentAfter(marks, k) !! leaves && marks[k].unspent !! leaves
    ensures forall p :: p in leaves ==> p <= marks[k].size
    ensures PrunedBy(leaves, marks[k])
  {
    hide IsLeaf, Sound, Follows, SpentAfter, Linked;
    SizesGrow(marks, horizon, k);
    SpentAfterShrinks(marks, horizon, k);
    forall p | p in leaves ensures p !in SpentAfter(marks, k) && p !in marks[k].unspent {
      LaterUnspent(marks, horizon, p);
      LaterUnspent(marks, k, p);
    }
  }

  /** The leaves that were created and spent when the block of the mark was done. */
  ghost function SpentAt(m: Mark): (ps: set<nat>)
    ensures forall p :: p in ps <==> 1 <= p <= m.size && IsLeaf(p) && p !in m.unspent
  {
    set p | 1 <= p <= m.size && IsLeaf(p) && p !in m.unspent
  }

  /** Compaction at block k adds exactly the leaves that were spent at block k. */
  lemma SpentLeaves(marks: seq<Mark>, k: nat, leaves: set<nat>, leaves': set<nat>)
    requires Linked(marks) && k < |marks|
    requires forall x :: x in leaves' <==>
               (x in leaves ||
                (1 <= x <= marks[k].size && IsLeaf(x) && x !in marks[|marks| - 1].unspent && x !in SpentAfter(marks, k)))
    ensures leaves' == leaves + SpentAt(marks[k])
  {
    hide IsLeaf, Sound, Follows, SpentAfter, Linked;
    forall x | 1 <= x <= marks[k].size
      ensures x in marks[k].unspent <==> x in marks[|marks| - 1].unspent || x in SpentAfter(marks, k)
    {
      LaterUnspent(marks, k, x);
    }
  }

  /** Compaction at block k adds only leaves that were spent at block k. */
  lemma PrunedMore(marks: seq<Mark>, horizon: nat, k: nat, leaves: set<nat>, leaves': set<nat>)
    requires Linked(marks) && horizon < |marks| && k < |marks| && PrunedBy(leaves, marks[horizon])
    requires forall x :: x in leaves' ==>
               (x in leaves ||
                (1 <= x <= marks[k].size && x !in marks[|marks| - 1].unspent && x !in SpentAfter(marks, k)))
    ensures PrunedBy(leaves', marks[if horizon < k then k else horizon])
  {
    hide IsLeaf, Sound, Follows, SpentAfter, Linked;
    var m := if horizon < k then k else horizon;
    PrunedStays(marks, horizon, m, leaves);
    SizesGrow(marks, k, m);
    SpentAfterShrinks(marks, k, m);
    forall x | x in leaves' ensures 1 <= x <= marks[m].size && x !in marks[m].unspent {
      if x in leaves {
        assert 1 <= x <= marks[m].size;
      } else {
        LaterUnspent(marks, m, x);
      }
    }
  }
}
