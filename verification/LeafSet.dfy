/**
  The leaf set of store/src/leaf_set.rs: the positions of the leaves that are not
  spent, with a copy of the last flushed state.
 */
module LeafSets {
  import opened Bitmaps
  import opened Postorder
  import opened PruneAdd
  import opened PruneTheory

  /** Inverts membership in lo..hi - 1 and keeps the rest. */
  function Flip(s: set<nat>, lo: nat, hi: nat): (r: set<nat>)
    ensures forall x :: x in r <==> if lo <= x < hi then x !in s else x in s
  {
    (s - Range(lo, hi)) + (Range(lo, hi) - s)
  }

  class LeafSet {
    var bitmap: set<nat>
    var bitmapBak: set<nat>

    constructor (saved: set<nat>)
      ensures bitmap == saved && bitmapBak == saved
    {
      bitmap, bitmapBak := saved, saved;
    }

    predicate Includes(pos: nat)
      reads this
    {
      pos in bitmap
    }

    /** The positions added after the cutoff go, the given positions come back. */
    method Rewind(cutoff: nat, rewindRm: set<nat>)
      modifies this`bitmap
      ensures forall x :: x in bitmap <==> (x in old(bitmap) && x <= cutoff) || x in rewindRm
    {
      var maximum := Maximum(bitmap);
      var rewindAdd := Range(cutoff + 1, maximum + 1);
      bitmap := bitmap - rewindAdd;
      bitmap := bitmap + rewindRm;
    }

    /** Leaves up to the cutoff that are not pruned yet. */
    function UnprunedPreCutoff(cutoff: nat, pruned: set<nat>): (r: set<nat>) {
      set x | 1 <= x <= cutoff && IsLeaf(x) && x !in pruned
    }

    /** With the nodes that a prune list has pruned, these are the leaves that were never added to it. */
    lemma NeverPruned(cutoff: nat, bitmap: set<nat>, cache: set<nat>, leaves: set<nat>)
      requires Canonical(bitmap, cache, leaves)
      ensures UnprunedPreCutoff(cutoff, cache) + leaves * Range(1, cutoff + 1) ==
              set x | x in Range(1, cutoff + 1) && IsLeaf(x)
      ensures UnprunedPreCutoff(cutoff, cache) !! leaves
    {
      hide IsLeaf, Full, Root;
      forall x: nat | x >= 1 && IsLeaf(x) ensures x in cache <==> x in leaves {
        FullLeaf(x, leaves);
      }
    }

    /** Leaves up to the cutoff that were spent at the cutoff and are not pruned yet. */
    method RemovedPreCutoff(cutoff: nat, rewindRm: set<nat>, pruned: set<nat>) returns (removed: set<nat>)
      ensures forall x :: x in removed <==>
                1 <= x <= cutoff && IsLeaf(x) && x !in pruned && x !in bitmap && x !in rewindRm
    {
      hide IsLeaf;
      var rewound := bitmap;
      var maximum := Maximum(bitmap);
      var rewindAdd := Range(cutoff + 1, maximum + 1);
      rewound := rewound - rewindAdd;
      rewound := rewound + rewindRm;
      removed := Flip(rewound, 1, cutoff + 1) * UnprunedPreCutoff(cutoff, pruned);
    }

    method Add(pos: nat)
      modifies this`bitmap
      ensures bitmap == old(bitmap) + {pos}
    {
      bitmap := bitmap + {pos};
    }

    method Remove(pos: nat)
      modifies this`bitmap
      ensures bitmap == old(bitmap) - {pos}
    {
      bitmap := bitmap - {pos};
    }

    method Flush()
      modifies this`bitmapBak
      ensures bitmapBak == bitmap
    {
      bitmapBak := bitmap;
    }

    method Discard()
      modifies this`bitmap
      ensures bitmap == bitmapBak
    {
      bitmap := bitmapBak;
    }
  }
}
