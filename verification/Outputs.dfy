/** Unspent outputs and the index of their commitments. */
module Outputs {
  import opened AppendOnly
  import opened Postorder
  import opened Sums
  import opened Wrappers

  /** An output identifier is its features followed by its commitment. */
  function CommitOf(id: Elmt): (c: Elmt) {
    if id == [] then [] else id[1..]
  }

  lemma IdParts(id: Elmt)
    requires id != []
    ensures id == [id[0]] + CommitOf(id)
  {}

  /** The leaf positions up to n in the bitmap. */
  ghost function Unspent(bitmap: set<nat>, n: nat): (u: set<nat>)
    ensures forall p :: p in u <==> p in bitmap && 1 <= p <= n
  {
    set p | p in bitmap && 1 <= p <= n
  }

  /** The identifiers of the unspent outputs. */
  ghost function Utxo(slots: seq<Elmt>, unspent: set<nat>): (ids: set<Elmt>) {
    set p | p in unspent && 1 <= p <= |slots| :: slots[p - 1]
  }

  /**
   * Every unspent leaf is the entry of its commitment, so no two unspent leaves share one. Entries of other
   * commitments are leaf positions, but a rewind may have taken away the leaves they were made for.
   */
  ghost predicate Indexed(index: map<Elmt, nat>, slots: seq<Elmt>, unspent: set<nat>)
  {
    && (forall c :: c in index ==> IsLeaf(index[c]))
    && (forall p :: p in unspent ==>
          1 <= p <= |slots| && IsLeaf(p) &&
          CommitOf(slots[p - 1]) in index && index[CommitOf(slots[p - 1])] == p)
  }

  /** Every entry names a leaf with its commitment. */
  ghost predicate Exact(index: map<Elmt, nat>, slots: seq<Elmt>) {
    forall c :: c in index ==> 1 <= index[c] <= |slots| && CommitOf(slots[index[c] - 1]) == c
  }

  lemma AtMostOneUnspent(index: map<Elmt, nat>, slots: seq<Elmt>, unspent: set<nat>, p: nat, q: nat)
    requires Indexed(index, slots, unspent) && p in unspent && q in unspent
    requires 1 <= p <= |slots| && 1 <= q <= |slots| && CommitOf(slots[p - 1]) == CommitOf(slots[q - 1])
    ensures p == q
  {
    assert index[CommitOf(slots[p - 1])] == p;
  }

  lemma IndexedAt(index: map<Elmt, nat>, slots: seq<Elmt>, unspent: set<nat>, c: Elmt)
    requires Indexed(index, slots, unspent) && c in index
    ensures index[c] >= 1 && IsLeaf(index[c])
  {}

  lemma UnspentAt(index: map<Elmt, nat>, slots: seq<Elmt>, unspent: set<nat>, p: nat)
    requires Indexed(index, slots, unspent) && p in unspent
    ensures 1 <= p <= |slots| && IsLeaf(p)
    ensures CommitOf(slots[p - 1]) in index && index[CommitOf(slots[p - 1])] == p
    ensures slots[p - 1] in Utxo(slots, unspent)
  {}

  /** A commitment is taken when an unspent output has it. */
  ghost predicate Taken(c: Elmt, utxo: set<Elmt>) {
    exists e :: e in utxo && CommitOf(e) == c
  }

  lemma TakenIs(index: map<Elmt, nat>, slots: seq<Elmt>, unspent: set<nat>, c: Elmt)
    requires Indexed(index, slots, unspent)
    ensures Taken(c, Utxo(slots, unspent)) <==> Refused(index, slots, unspent, c)
  {
    hide IsLeaf, CommitOf;
    if Refused(index, slots, unspent, c) {
      assert slots[index[c] - 1] in Utxo(slots, unspent);
    }
    if Taken(c, Utxo(slots, unspent)) {
      var e :| e in Utxo(slots, unspent) && CommitOf(e) == c;
      var p :| p in unspent && 1 <= p <= |slots| && slots[p - 1] == e;
    }
  }

  lemma MemberIs(index: map<Elmt, nat>, slots: seq<Elmt>, unspent: set<nat>, id: Elmt)
    requires Indexed(index, slots, unspent)
    ensures id in Utxo(slots, unspent) <==>
              CommitOf(id) in index && index[CommitOf(id)] in unspent && slots[index[CommitOf(id)] - 1] == id
  {
    if id in Utxo(slots, unspent) {
      var p :| p in unspent && 1 <= p <= |slots| && slots[p - 1] == id;
    }
  }

  /** A new leaf whose commitment is not taken. */
  lemma OutputAdded(index: map<Elmt, nat>, slots: seq<Elmt>, unspent: set<nat>, id: Elmt, slots': seq<Elmt>, pos: nat)
    requires Indexed(index, slots, unspent) && !Taken(CommitOf(id), Utxo(slots, unspent))
    requires slots < slots' && pos == |slots| + 1 && slots'[|slots|] == id && IsLeaf(pos)
    ensures Indexed(index[CommitOf(id) := pos], slots', unspent + {pos})
    ensures Utxo(slots', unspent + {pos}) == Utxo(slots, unspent) + {id}
  {
    hide IsLeaf;
    TakenIs(index, slots, unspent, CommitOf(id));
    forall p | p in unspent
      ensures CommitOf(slots[p - 1]) != CommitOf(id) && slots'[p - 1] == slots[p - 1]
    {
      assert slots[p - 1] in Utxo(slots, unspent);
    }
    forall e | e in Utxo(slots, unspent) + {id} ensures e in Utxo(slots', unspent + {pos}) {
      if e == id {
        assert slots'[pos - 1] == e;
      } else {
        var p :| p in unspent && 1 <= p <= |slots| && slots[p - 1] == e;
        assert slots'[p - 1] == e;
      }
    }
  }

  /** A leaf that is spent. */
  lemma InputRemoved(index: map<Elmt, nat>, slots: seq<Elmt>, unspent: set<nat>, p: nat)
    requires Indexed(index, slots, unspent) && p in unspent && 1 <= p <= |slots|
    ensures Indexed(index, slots, unspent - {p})
    ensures Utxo(slots, unspent - {p}) == Utxo(slots, unspent) - {slots[p - 1]}
  {
    hide IsLeaf;
    forall e | e in Utxo(slots, unspent) - {slots[p - 1]} ensures e in Utxo(slots, unspent - {p}) {
      var q :| q in unspent && 1 <= q <= |slots| && slots[q - 1] == e;
      assert q in unspent - {p};
    }
    forall e | e in Utxo(slots, unspent - {p}) ensures e in Utxo(slots, unspent) - {slots[p - 1]} {
      var q :| q in unspent - {p} && 1 <= q <= |slots| && slots[q - 1] == e;
      assert q in unspent;
    }
  }

  /** When a block can be applied to a set of unspent outputs. */
  ghost predicate Applicable(utxo: set<Elmt>, outputs: seq<Elmt>, inputs: seq<Elmt>)
  {
    && CanAdd(utxo, outputs)
    && CanSpend(utxo + ElementsOf(outputs), inputs)
  }

  ghost predicate CanAdd(utxo: set<Elmt>, outputs: seq<Elmt>)
  {
    && (forall i :: 0 <= i < |outputs| ==> !Taken(CommitOf(outputs[i]), utxo))
    && (forall i, j :: 0 <= i < j < |outputs| ==> CommitOf(outputs[i]) != CommitOf(outputs[j]))
  }

  ghost predicate CanSpend(utxo: set<Elmt>, inputs: seq<Elmt>)
  {
    && Distinct(inputs)
    && (forall i :: 0 <= i < |inputs| ==> inputs[i] in utxo)
  }

  /** No output is taken and every input is unspent, each looked at by itself. */
  ghost predicate Admits(utxo: set<Elmt>, outputs: seq<Elmt>, inputs: seq<Elmt>)
  {
    && (forall i :: 0 <= i < |outputs| ==> !Taken(CommitOf(outputs[i]), utxo))
    && (forall i :: 0 <= i < |inputs| ==> inputs[i] in utxo)
  }

  /** Taken among more identifiers. */
  lemma TakenMore(utxo: set<Elmt>, ids: seq<Elmt>, c: Elmt)
    ensures Taken(c, utxo + ElementsOf(ids)) <==> Taken(c, utxo) || exists k :: 0 <= k < |ids| && CommitOf(ids[k]) == c
  {
    hide CommitOf;
    if Taken(c, utxo + ElementsOf(ids)) {
      var e :| e in utxo + ElementsOf(ids) && CommitOf(e) == c;
      if e !in utxo { var k :| 0 <= k < |ids| && ids[k] == e; }
    }
    if k :| 0 <= k < |ids| && CommitOf(ids[k]) == c { assert ids[k] in utxo + ElementsOf(ids); }
    if Taken(c, utxo) {
      var e :| e in utxo && CommitOf(e) == c;
      assert e in utxo + ElementsOf(ids);
    }
  }

  lemma CanAddOne(utxo: set<Elmt>, outputs: seq<Elmt>, id: Elmt)
    ensures CanAdd(utxo, outputs + [id]) <==>
              CanAdd(utxo, outputs) && !Taken(CommitOf(id), utxo) && forall k :: 0 <= k < |outputs| ==> CommitOf(outputs[k]) != CommitOf(id)
  {
    hide CommitOf, Taken;
    var next := outputs + [id];
    assert next[|outputs|] == id && forall k :: 0 <= k < |outputs| ==> next[k] == outputs[k];
  }

  /** One more output can be added when its commitment is not taken by then. */
  lemma CanAddStep(utxo: set<Elmt>, outputs: seq<Elmt>, i: nat)
    requires i < |outputs| && CanAdd(utxo, outputs[..i])
    ensures CanAdd(utxo, outputs[..i + 1]) <==> !Taken(CommitOf(outputs[i]), utxo + ElementsOf(outputs[..i]))
    ensures utxo + ElementsOf(outputs[..i]) + {outputs[i]} == utxo + ElementsOf(outputs[..i + 1])
    ensures CanAdd(utxo, outputs) ==> CanAdd(utxo, outputs[..i + 1])
  {
    hide CommitOf, Taken;
    assert outputs[..i + 1] == outputs[..i] + [outputs[i]];
    CanAddOne(utxo, outputs[..i], outputs[i]);
    TakenMore(utxo, outputs[..i], CommitOf(outputs[i]));
    CanAddFewer(utxo, outputs, i + 1);
  }

  lemma CanAddFewer(utxo: set<Elmt>, outputs: seq<Elmt>, n: nat)
    requires n <= |outputs|
    ensures CanAdd(utxo, outputs) ==> CanAdd(utxo, outputs[..n])
  {
    hide CommitOf, Taken;
    assert forall k :: 0 <= k < n ==> outputs[..n][k] == outputs[k];
  }

  lemma CanAddAll(utxo: set<Elmt>, outputs: seq<Elmt>)
    ensures CanAdd(utxo, outputs[..0]) && outputs[..|outputs|] == outputs
    ensures utxo + ElementsOf(outputs[..0]) == utxo
  {}

  lemma CanSpendStep(utxo: set<Elmt>, inputs: seq<Elmt>, i: nat)
    requires i < |inputs| && CanSpend(utxo, inputs[..i])
    ensures CanSpend(utxo, inputs[..i + 1]) <==> inputs[i] in utxo - ElementsOf(inputs[..i])
    ensures utxo - ElementsOf(inputs[..i]) - {inputs[i]} == utxo - ElementsOf(inputs[..i + 1])
    ensures CanSpend(utxo, inputs) ==> CanSpend(utxo, inputs[..i + 1])
  {
    var next := inputs[..i + 1];
    assert next[i] == inputs[i] && forall k :: 0 <= k < i ==> next[k] == inputs[..i][k];
    if inputs[i] in ElementsOf(inputs[..i]) {
      var k :| 0 <= k < i && inputs[..i][k] == inputs[i];
      assert next[k] == next[i];
    } else {
      forall k | 0 <= k < i ensures next[k] != next[i] { assert inputs[..i][k] in ElementsOf(inputs[..i]); }
    }
  }

  lemma CanSpendAll(utxo: set<Elmt>, inputs: seq<Elmt>)
    ensures CanSpend(utxo, inputs[..0]) && inputs[..|inputs|] == inputs
    ensures utxo - ElementsOf(inputs[..0]) == utxo
  {}

  /** Applying a block changes the sum of the unspent outputs by the sums of its outputs and inputs. */
  lemma AppliedSum(f: Elmt -> Commitment, utxo: set<Elmt>, outputs: seq<Elmt>, inputs: seq<Elmt>)
    requires Applicable(utxo, outputs, inputs)
    ensures SumSet(f, utxo + ElementsOf(outputs) - ElementsOf(inputs))
            == Add(SumSet(f, utxo), Sub(Sum(Image(f, outputs)), Sum(Image(f, inputs))))
  {
    hide Sum, SumSet, Image;
    forall i | 0 <= i < |outputs| ensures outputs[i] !in utxo {
      assert !Taken(CommitOf(outputs[i]), utxo);
    }
    forall i, j | 0 <= i < j < |outputs| ensures outputs[i] != outputs[j] {
      assert CommitOf(outputs[i]) != CommitOf(outputs[j]);
    }
    SumSetUnion(f, utxo, outputs);
    SumSetMinus(f, utxo + ElementsOf(outputs), inputs);
  }

  /** The elements at leaf positions, in order. */
  ghost function LeafElements(slots: seq<Elmt>): (xs: seq<Elmt>) {
    if slots == [] then []
    else
      var n := |slots|;
      LeafElements(slots[..n - 1]) + if IsLeaf(n) then [slots[n - 1]] else []
  }

  lemma {:induction false} LeafPushed(slots: seq<Elmt>, slots': seq<Elmt>, x: Elmt)
    requires slots < slots' && slots'[|slots|] == x && IsLeaf(|slots| + 1)
    requires forall p :: |slots| + 1 < p <= |slots'| ==> !IsLeaf(p)
    ensures LeafElements(slots') == LeafElements(slots) + [x]
  {
    hide IsLeaf;
    var n := |slots'| - 1;
    if n == |slots| {
      assert slots'[..n] == slots;
    } else {
      LeafPushed(slots, slots'[..n], x);
    }
  }

  lemma LeafElementsNone(slots: seq<Elmt>)
    ensures LeafElements(slots[..0]) == []
  {}

  lemma LeafElementsStep(slots: seq<Elmt>, n: nat)
    requires 1 <= n <= |slots|
    ensures LeafElements(slots[..n]) == LeafElements(slots[..n - 1]) + if IsLeaf(n) then [slots[n - 1]] else []
  {
    assert slots[..n][..n - 1] == slots[..n - 1];
  }

  // Which positions inputs take

  /** The positions among the given ones that hold one of the identifiers. */
  ghost function Places(slots: seq<Elmt>, places: set<nat>, ids: seq<Elmt>): (ps: set<nat>) {
    set p | p in places && 1 <= p <= |slots| && slots[p - 1] in ids
  }

  /** build_block_input_bitmap: the positions the index has for the inputs. */
  function InputBitmap(index: map<Elmt, nat>, inputs: seq<Elmt>): (b: set<nat>) {
    set i | 0 <= i < |inputs| && CommitOf(inputs[i]) in index :: index[CommitOf(inputs[i])]
  }

  /** For unspent outputs the index has exactly their positions. */
  lemma BitmapPlaces(index: map<Elmt, nat>, slots: seq<Elmt>, unspent: set<nat>, inputs: seq<Elmt>)
    requires Indexed(index, slots, unspent) && forall i :: 0 <= i < |inputs| ==> inputs[i] in Utxo(slots, unspent)
    ensures InputBitmap(index, inputs) == Places(slots, unspent, inputs)
  {
    hide Indexed, CommitOf, Utxo;
    forall p | p in InputBitmap(index, inputs) ensures p in Places(slots, unspent, inputs) {
      var i :| 0 <= i < |inputs| && CommitOf(inputs[i]) in index && index[CommitOf(inputs[i])] == p;
      MemberIs(index, slots, unspent, inputs[i]);
      UnspentAt(index, slots, unspent, p);
    }
    forall p | p in Places(slots, unspent, inputs) ensures p in InputBitmap(index, inputs) {
      var i :| 0 <= i < |inputs| && inputs[i] == slots[p - 1];
      UnspentAt(index, slots, unspent, p);
    }
  }

  /** An entry for every input at a place of its own, so as many positions as inputs. */
  lemma {:induction false} BitmapSize(index: map<Elmt, nat>, slots: seq<Elmt>, unspent: set<nat>, inputs: seq<Elmt>)
    requires Indexed(index, slots, unspent) && CanSpend(Utxo(slots, unspent), inputs)
    ensures |InputBitmap(index, inputs)| == |inputs|
  {
    hide Indexed, CommitOf, Utxo;
    if inputs != [] {
      var n := |inputs| - 1;
      var rest := inputs[..n];
      BitmapSize(index, slots, unspent, rest);
      forall i | 0 <= i < n ensures CommitOf(rest[i]) in index {
        MemberIs(index, slots, unspent, rest[i]);
      }
      MemberIs(index, slots, unspent, inputs[n]);
      InputBitmapStep(index, inputs, n);
      assert inputs[..n + 1] == inputs;
      forall i | 0 <= i < n ensures index[CommitOf(rest[i])] != index[CommitOf(inputs[n])] {
        MemberIs(index, slots, unspent, rest[i]);
        assert rest[i] == inputs[i] != inputs[n];
      }
    }
  }

  /** An index without an entry for some input gives fewer. */
  lemma {:induction false} BitmapMisses(index: map<Elmt, nat>, inputs: seq<Elmt>)
    ensures |InputBitmap(index, inputs)| <= |inputs|
    ensures (exists i :: 0 <= i < |inputs| && CommitOf(inputs[i]) !in index) ==> |InputBitmap(index, inputs)| < |inputs|
  {
    hide CommitOf;
    if inputs != [] {
      var n := |inputs| - 1;
      var rest := inputs[..n];
      BitmapMisses(index, rest);
      assert inputs[..n + 1] == inputs;
      if CommitOf(inputs[n]) in index {
        InputBitmapStep(index, inputs, n);
        if i :| 0 <= i < |inputs| && CommitOf(inputs[i]) !in index { assert rest[i] == inputs[i]; }
      } else {
        InputBitmapSkip(index, inputs, n);
      }
    }
  }

  lemma InputBitmapNone(index: map<Elmt, nat>, inputs: seq<Elmt>)
    ensures InputBitmap(index, inputs[..0]) == {}
  {}

  lemma InputBitmapStep(index: map<Elmt, nat>, inputs: seq<Elmt>, i: nat)
    requires i < |inputs| && CommitOf(inputs[i]) in index
    ensures InputBitmap(index, inputs[..i + 1]) == InputBitmap(index, inputs[..i]) + {index[CommitOf(inputs[i])]}
  {
    var next := inputs[..i + 1];
    assert next[i] == inputs[i] && forall k :: 0 <= k < i ==> next[k] == inputs[..i][k];
    forall p | p in InputBitmap(index, inputs[..i]) ensures p in InputBitmap(index, next) {
      var k :| 0 <= k < i && CommitOf(inputs[..i][k]) in index && index[CommitOf(inputs[..i][k])] == p;
      assert index[CommitOf(next[k])] == p;
    }
    assert index[CommitOf(next[i])] in InputBitmap(index, next);
  }

  lemma InputBitmapSkip(index: map<Elmt, nat>, inputs: seq<Elmt>, i: nat)
    requires i < |inputs| && CommitOf(inputs[i]) !in index
    ensures InputBitmap(index, inputs[..i + 1]) == InputBitmap(index, inputs[..i])
  {
    hide CommitOf;
    var next := inputs[..i + 1];
    assert next[i] == inputs[i] && forall k :: 0 <= k < i ==> next[k] == inputs[..i][k];
    forall p | p in InputBitmap(index, inputs[..i]) ensures p in InputBitmap(index, next) {
      var k :| 0 <= k < i && CommitOf(inputs[..i][k]) in index && index[CommitOf(inputs[..i][k])] == p;
      assert index[CommitOf(next[k])] == p;
    }
  }

  // Listings of the unspent outputs

  ghost predicate Listing(places: seq<nat>, ids: seq<Elmt>, slots: seq<Elmt>)
  {
    && |ids| == |places| && Distinct(places)
    && forall k :: 0 <= k < |places| ==> 1 <= places[k] <= |slots| && ids[k] == slots[places[k] - 1]
  }

  lemma ListingStart(slots: seq<Elmt>)
    ensures Listing([], [], slots)
  {}

  lemma ListingStep(places: seq<nat>, ids: seq<Elmt>, slots: seq<Elmt>, p: nat)
    requires Listing(places, ids, slots) && 1 <= p <= |slots| && p !in places
    ensures Listing(places + [p], ids + [slots[p - 1]], slots)
  {}

  lemma ListingDistinct(index: map<Elmt, nat>, places: seq<nat>, ids: seq<Elmt>, slots: seq<Elmt>, unspent: set<nat>)
    requires Listing(places, ids, slots) && Indexed(index, slots, unspent)
    requires forall p :: p in unspent <==> p in places
    ensures Distinct(ids)
  {
    hide IsLeaf, CommitOf, Indexed;
    forall i, j | 0 <= i < j < |ids| ensures ids[i] != ids[j] {
      assert places[i] in places && places[j] in places;
      UnspentAt(index, slots, unspent, places[i]);
      UnspentAt(index, slots, unspent, places[j]);
    }
  }

  lemma ListingAll(index: map<Elmt, nat>, places: seq<nat>, ids: seq<Elmt>, slots: seq<Elmt>, unspent: set<nat>)
    requires Listing(places, ids, slots) && Indexed(index, slots, unspent)
    requires forall p :: p in unspent <==> p in places
    ensures Distinct(ids) && ElementsOf(ids) == Utxo(slots, unspent)
  {
    hide IsLeaf, Indexed, Distinct;
    ListingDistinct(index, places, ids, slots, unspent);
    forall id | id in Utxo(slots, unspent) ensures id in ids {
      var p :| p in unspent && 1 <= p <= |slots| && slots[p - 1] == id;
      var k :| 0 <= k < |places| && places[k] == p;
      assert ids[k] == id;
    }
    forall id | id in ids ensures id in Utxo(slots, unspent) {
      var k :| 0 <= k < |ids| && ids[k] == id;
      assert places[k] in unspent;
    }
  }

  /** No two unspent outputs have the same commitment. */
  ghost predicate Unique(slots: seq<Elmt>, unspent: set<nat>) {
    forall p, q :: p in unspent && q in unspent && 1 <= p <= |slots| && 1 <= q <= |slots| ==>
                     CommitOf(slots[p - 1]) == CommitOf(slots[q - 1]) ==> p == q
  }

  lemma IndexNothing(slots: seq<Elmt>)
    ensures Indexed(map[], slots, {}) && Exact(map[], slots)
  {}

  lemma IndexOne(index: map<Elmt, nat>, slots: seq<Elmt>, found: set<nat>, unspent: set<nat>, p: nat)
    requires Indexed(index, slots, found) && found <= unspent && Unique(slots, unspent)
    requires p in unspent && p !in found && 1 <= p <= |slots| && IsLeaf(p)
    ensures Indexed(index[CommitOf(slots[p - 1]) := p], slots, found + {p})
    ensures Exact(index, slots) ==> Exact(index[CommitOf(slots[p - 1]) := p], slots)
  {
    hide IsLeaf;
    forall q | q in found ensures CommitOf(slots[q - 1]) != CommitOf(slots[p - 1]) {}
  }

  // The index along a chain, and after a rewind that leaves it as it is

  /** The index names the last leaf of every commitment that was ever created. */
  ghost predicate Latest(index: map<Elmt, nat>, slots: seq<Elmt>) {
    && Exact(index, slots)
    && forall p :: 1 <= p <= |slots| && IsLeaf(p) ==>
         CommitOf(slots[p - 1]) in index && p <= index[CommitOf(slots[p - 1])]
  }

  /** No leaf up to n that comes after an unspent one has its commitment. */
  ghost predicate LastOf(slots: seq<Elmt>, unspent: set<nat>, n: nat)
  {
    forall p, q :: p in unspent && 1 <= p < q <= n && q <= |slots| && IsLeaf(q) ==>
      CommitOf(slots[q - 1]) != CommitOf(slots[p - 1])
  }

  lemma ExactAdded(index: map<Elmt, nat>, slots: seq<Elmt>, id: Elmt, slots': seq<Elmt>, pos: nat)
    requires Exact(index, slots) && slots < slots' && pos == |slots| + 1 && slots'[|slots|] == id
    ensures Exact(index[CommitOf(id) := pos], slots')
  {
    hide CommitOf;
  }

  lemma LatestAdded(index: map<Elmt, nat>, slots: seq<Elmt>, id: Elmt, slots': seq<Elmt>, pos: nat)
    requires Latest(index, slots)
    requires slots < slots' && pos == |slots| + 1 && slots'[|slots|] == id
    requires forall p :: pos < p <= |slots'| ==> !IsLeaf(p)
    ensures Latest(index[CommitOf(id) := pos], slots')
  {
    ExactAdded(index, slots, id, slots', pos);
    hide IsLeaf, CommitOf, Exact;
    ExactAt(index, slots);
    forall p | 1 <= p <= |slots'| && IsLeaf(p)
      ensures CommitOf(slots'[p - 1]) in index[CommitOf(id) := pos]
      ensures p <= index[CommitOf(id) := pos][CommitOf(slots'[p - 1])]
    {
      if p <= |slots| { assert slots'[p - 1] == slots[p - 1]; }
    }
  }

  lemma ExactAt(index: map<Elmt, nat>, slots: seq<Elmt>)
    requires Exact(index, slots)
    ensures forall c :: c in index ==> 1 <= index[c] <= |slots|
  {}

  /** A leaf with a commitment that is not taken leaves every unspent one the last with its own. */
  lemma LastAdded(slots: seq<Elmt>, unspent: set<nat>, id: Elmt, slots': seq<Elmt>, pos: nat)
    requires LastOf(slots, unspent, |slots|) && !Taken(CommitOf(id), Utxo(slots, unspent))
    requires forall p :: p in unspent ==> 1 <= p <= |slots|
    requires slots < slots' && pos == |slots| + 1 && slots'[|slots|] == id
    requires forall p :: pos < p <= |slots'| ==> !IsLeaf(p)
    ensures LastOf(slots', unspent + {pos}, |slots'|)
  {
    hide IsLeaf, CommitOf;
    forall p, q | p in unspent + {pos} && 1 <= p < q <= |slots'| && IsLeaf(q)
      ensures CommitOf(slots'[q - 1]) != CommitOf(slots'[p - 1])
    {
      assert p != pos && slots'[p - 1] == slots[p - 1];
      if q == pos {
        assert slots[p - 1] in Utxo(slots, unspent);
      } else {
        assert slots'[q - 1] == slots[q - 1];
      }
    }
  }

  lemma LastLess(slots: seq<Elmt>, unspent: set<nat>, less: set<nat>, n: nat)
    requires LastOf(slots, unspent, n) && less <= unspent
    ensures LastOf(slots, less, n)
  {
    hide IsLeaf, CommitOf;
  }

  /** The entry of the index is the unspent leaf. */
  ghost predicate Names(index: map<Elmt, nat>, slots: seq<Elmt>, p: nat)
    requires 1 <= p <= |slots|
  {
    CommitOf(slots[p - 1]) in index && index[CommitOf(slots[p - 1])] == p
  }

  /** A commitment is created again by a leaf after n. */
  ghost predicate CreatedAgain(slots: seq<Elmt>, n: nat, c: Elmt) {
    exists q :: n < q <= |slots| && IsLeaf(q) && CommitOf(slots[q - 1]) == c
  }

  /** After going back to the first n positions, the index still names a leaf exactly if its commitment is not created again. */
  lemma StaleEntry(index: map<Elmt, nat>, slots: seq<Elmt>, n: nat, unspent: set<nat>, p: nat)
    requires Latest(index, slots) && (forall c :: c in index ==> IsLeaf(index[c])) && n <= |slots|
    requires p in unspent && 1 <= p <= n && IsLeaf(p) && LastOf(slots, unspent, n)
    ensures Names(index, slots, p) <==> !CreatedAgain(slots, n, CommitOf(slots[p - 1]))
  {
    hide IsLeaf, CommitOf;
    var c := CommitOf(slots[p - 1]);
    assert c in index && p <= index[c] <= |slots| && IsLeaf(index[c]) && CommitOf(slots[index[c] - 1]) == c;
    if index[c] > n {
      assert CreatedAgain(slots, n, c);
    }
  }

  /** The duplicate test: the index has the commitment, at an unspent leaf with that commitment. */
  ghost predicate Refused(index: map<Elmt, nat>, slots: seq<Elmt>, unspent: set<nat>, c: Elmt) {
    c in index && index[c] in unspent && 1 <= index[c] <= |slots| && CommitOf(slots[index[c] - 1]) == c
  }

  /** With the index of a longer chain, exactly the commitments that are taken and not created again are refused. */
  lemma StaleTest(index: map<Elmt, nat>, slots: seq<Elmt>, n: nat, unspent: set<nat>, c: Elmt)
    requires Latest(index, slots) && (forall c :: c in index ==> IsLeaf(index[c])) && n <= |slots|
    requires (forall p :: p in unspent ==> 1 <= p <= n && IsLeaf(p)) && LastOf(slots, unspent, n)
    ensures Refused(index, slots[..n], unspent, c) <==>
              Taken(c, Utxo(slots[..n], unspent)) && !CreatedAgain(slots, n, c)
  {
    hide IsLeaf, CommitOf, Latest, LastOf, CreatedAgain;
    if Refused(index, slots[..n], unspent, c) {
      assert slots[..n][index[c] - 1] in Utxo(slots[..n], unspent);
      StaleEntry(index, slots, n, unspent, index[c]);
    }
    if Taken(c, Utxo(slots[..n], unspent)) {
      var e :| e in Utxo(slots[..n], unspent) && CommitOf(e) == c;
      var p :| p in unspent && 1 <= p <= n && slots[..n][p - 1] == e;
      assert slots[p - 1] == e;
      StaleEntry(index, slots, n, unspent, p);
    }
  }

  /** What the index of a longer chain, slots, is worth after going back to its first n positions. */
  ghost predicate Stale(index: map<Elmt, nat>, slots: seq<Elmt>, n: nat, unspent: set<nat>) {
    && n <= |slots|
    && (forall p :: p in unspent ==>
          1 <= p <= n && (Names(index, slots, p) <==> !CreatedAgain(slots, n, CommitOf(slots[p - 1]))))
    && (forall c :: Refused(index, slots[..n], unspent, c) <==>
                      Taken(c, Utxo(slots[..n], unspent)) && !CreatedAgain(slots, n, c))
  }

  lemma StaleIs(index: map<Elmt, nat>, slots: seq<Elmt>, n: nat, unspent: set<nat>)
    requires Latest(index, slots) && (forall c :: c in index ==> IsLeaf(index[c])) && n <= |slots|
    requires (forall p :: p in unspent ==> 1 <= p <= n && IsLeaf(p)) && LastOf(slots, unspent, n)
    ensures Stale(index, slots, n, unspent)
  {
    hide IsLeaf, CommitOf, Latest, LastOf, CreatedAgain, Refused, Taken, Utxo, Names;
    forall p | p in unspent ensures Names(index, slots, p) <==> !CreatedAgain(slots, n, CommitOf(slots[p - 1])) {
      StaleEntry(index, slots, n, unspent, p);
    }
    forall c
      ensures Refused(index, slots[..n], unspent, c) <==>
                Taken(c, Utxo(slots[..n], unspent)) && !CreatedAgain(slots, n, c)
    {
      StaleTest(index, slots, n, unspent, c);
    }
  }

  /** Nothing unspent at the target was created again: that is exactly when the index can go on being used. */
  ghost predicate NoneAgain(slots: seq<Elmt>, n: nat, unspent: set<nat>) {
    forall p :: p in unspent && 1 <= p <= |slots| ==> !CreatedAgain(slots, n, CommitOf(slots[p - 1]))
  }

  lemma StaleIndexed(index: map<Elmt, nat>, slots: seq<Elmt>, n: nat, unspent: set<nat>)
    requires Stale(index, slots, n, unspent) && (forall c :: c in index ==> IsLeaf(index[c]))
    requires forall p :: p in unspent ==> IsLeaf(p)
    ensures n <= |slots| && (Indexed(index, slots[..n], unspent) <==> NoneAgain(slots, n, unspent))
  {
    hide IsLeaf, CommitOf, CreatedAgain, Refused, Taken, Utxo;
    forall p | p in unspent ensures 1 <= p <= n && slots[..n][p - 1] == slots[p - 1] {}
    if Indexed(index, slots[..n], unspent) {
      forall p | p in unspent && 1 <= p <= |slots| ensures !CreatedAgain(slots, n, CommitOf(slots[p - 1])) {
        assert Names(index, slots, p);
      }
    }
  }

  /**
   * A duplicate that gets through: an output at position 1, spent by the next block, whose own output is at
   * position 2, and created again at position 4. Back at position 1 its commitment is taken and not refused.
   */
  lemma DuplicateAccepted(id: Elmt, other: Elmt)
    requires CommitOf(id) != CommitOf(other)
    ensures var slots, c := [id, other, [], id], CommitOf(id);
            var index := map[CommitOf(other) := 2, c := 4];
            && Latest(index, slots) && Indexed(index, slots, {2, 4}) && LastOf(slots, {1}, 1)
            && Taken(c, Utxo(slots[..1], {1})) && !Refused(index, slots[..1], {1}, c)
  {
    var slots, c := [id, other, [], id], CommitOf(id);
    FirstPositions();
    hide IsLeaf, CommitOf;
    assert slots[..1][0] in Utxo(slots[..1], {1});
  }

  lemma FirstPositions()
    ensures IsLeaf(1) && IsLeaf(2) && !IsLeaf(3) && IsLeaf(4)
  {
    HeightAny(1, 2);
    HeightAny(1, 3);
    HeightAny(1, 1);
    HeightAny(2, 4);
  }
}
