/**
  What adding one node does to the roots and to the cache of pruned nodes.

  The climb of `add` moves from the new node towards the root of its tree while
  the sibling is pruned.  The lemmas here say what holds of the two bitmaps at
  every step of the climb and at its end.
 */
module PruneAdd {
  import opened Postorder
  import opened PruneTheory

  ghost function LeavesBelow(pos: nat): (s: set<nat>)
    requires pos >= 1
  {
    set q | Left(pos) <= q <= pos && IsLeaf(q)
  }

  ghost predicate Strictly(q: nat, p: nat)
    requires q >= 1 && p >= 1
  {
    Below(q, p) && q != p
  }

  /** The bitmaps are the roots and the full nodes of a set of pruned leaves. */
  ghost predicate Canonical(bitmap: set<nat>, cache: set<nat>, leaves: set<nat>)
  {
    && 0 !in bitmap && 0 !in cache
    && (forall q :: q in leaves ==> q >= 1 && IsLeaf(q))
    && (forall p :: p >= 1 ==> (p in bitmap <==> Root(p, leaves)))
    && (forall p :: p >= 1 ==> (p in cache <==> Full(p, leaves)))
  }

  /** The bitmaps while the climb from pos has reached current. */
  ghost predicate Climbing(bitmap: set<nat>, cache: set<nat>, leaves: set<nat>, pos: nat, current: nat)
    requires pos >= 1
  {
    && current >= 1 && Below(pos, current) && Full(current, leaves + LeavesBelow(pos))
    && 0 !in bitmap && 0 !in cache
    && (forall p :: p >= 1 ==> (p in cache <==> Full(p, leaves) || (Below(pos, p) && p < current)))
    && (forall p :: p >= 1 ==> (p in bitmap <==> Root(p, leaves) && (Strictly(p, current) ==> Strictly(p, pos))))
  }

  /** The bitmaps after the whole climb: what was pruned strictly below pos before is left as it was. */
  ghost predicate Added(bitmap: set<nat>, cache: set<nat>, leaves: set<nat>, pos: nat)
    requires pos >= 1
  {
    var leaves' := leaves + LeavesBelow(pos);
    && 0 !in bitmap && 0 !in cache
    && (forall p :: p >= 1 ==> (p in bitmap <==> Root(p, leaves') || (Root(p, leaves) && Strictly(p, pos))))
    && (forall p :: p >= 1 ==> (p in cache <==> Full(p, leaves') && (Strictly(p, pos) ==> Full(p, leaves))))
  }

  lemma InLeavesBelow(pos: nat, q: nat)
    requires pos >= 1 && q >= 1
    ensures q in LeavesBelow(pos) <==> IsLeaf(q) && Below(q, pos)
  {
    hide IsLeaf, Left;
  }

  /** Pruning a subtree fills what is inside it and leaves alone what is apart from it. */
  lemma FullGrow(p: nat, leaves: set<nat>, pos: nat)
    requires p >= 1 && pos >= 1
    ensures var leaves' := leaves + LeavesBelow(pos);
            && (Below(p, pos) ==> Full(p, leaves'))
            && (Full(p, leaves) ==> Full(p, leaves'))
            && (!Below(p, pos) && !Below(pos, p) && Full(p, leaves') ==> Full(p, leaves))
  {
    hide IsLeaf, Below, LeavesBelow;
    var leaves' := leaves + LeavesBelow(pos);
    forall q | q >= 1 && IsLeaf(q) && Below(q, p)
      ensures Below(p, pos) ==> q in leaves'
      ensures !Below(p, pos) && !Below(pos, p) && q in leaves' ==> q in leaves
    {
      InLeavesBelow(pos, q);
      if Below(p, pos) { BelowTransitive(q, p, pos); }
      if Below(q, pos) {
        if p <= pos { BelowChain(q, p, pos); } else { BelowChain(q, pos, p); }
      }
    }
  }

  lemma StrictlyIs(q: nat, p: nat)
    requires q >= 1 && p >= 1
    ensures Strictly(q, p) <==> Below(q, p) && q != p
    ensures Below(q, p) && Below(p, q) ==> p == q
  {
    hide Left;
  }

  /** The sibling of a node on the path is apart from the start of the path. */
  lemma SiblingApart(pos: nat, current: nat)
    requires pos >= 1 && current >= 1 && Below(pos, current)
    ensures Sibling(current) >= 1
    ensures !Below(pos, Sibling(current)) && !Below(Sibling(current), pos)
  {
    hide *;
    var s := Sibling(current);
    SiblingsApart(current, pos);
    SiblingsApart(current, s);
    BelowIs(s, s);
    if Below(s, pos) { BelowTransitive(s, pos, current); }
  }

  lemma ClimbingStart(bitmap: set<nat>, cache: set<nat>, leaves: set<nat>, pos: nat)
    requires pos >= 1 && Canonical(bitmap, cache, leaves)
    ensures Climbing(bitmap, cache, leaves, pos, pos)
  {
    hide Full, Root, Below;
    BelowIs(pos, pos);
    FullGrow(pos, leaves, pos);
    forall p | p >= 1 ensures !(Below(pos, p) && p < pos) {
      BelowIs(pos, p);
    }
  }

  /** The test of the loop is whether the sibling was full before. */
  lemma SiblingTest(bitmap: set<nat>, cache: set<nat>, leaves: set<nat>, pos: nat, current: nat)
    requires pos >= 1 && current >= 1 && Climbing(bitmap, cache, leaves, pos, current)
    ensures Sibling(current) >= 1
    ensures Sibling(current) in bitmap || Sibling(current) in cache <==> Full(Sibling(current), leaves)
  {
    hide Full, Root, Below, Sibling, Parent;
    SiblingApart(pos, current);
    RootIs(Sibling(current), leaves);
  }

  lemma ClimbCache(leaves: set<nat>, pos: nat, current: nat, p: nat)
    requires pos >= 1 && current >= 1 && Below(pos, current) && p >= 1
    ensures Below(pos, p) && p < Parent(current) <==> (Below(pos, p) && p < current) || p == current
  {
    hide *;
    Family(current);
    if Below(pos, p) && current < p {
      BelowChain(pos, current, p);
      BelowParent(current, p);
      BelowIs(Parent(current), p);
    }
  }

  lemma ClimbBitmap(leaves: set<nat>, pos: nat, current: nat, p: nat)
    requires pos >= 1 && current >= 1 && Below(pos, current) && p >= 1
    requires Sibling(current) >= 1 && Full(Sibling(current), leaves)
    ensures Root(p, leaves) && (Strictly(p, Parent(current)) ==> Strictly(p, pos)) <==>
            Root(p, leaves) && (Strictly(p, current) ==> Strictly(p, pos)) && p != Sibling(current)
  {
    hide *;
    var s, parent := Sibling(current), Parent(current);
    Family(current);
    BelowChildren(current, p);
    StrictlyIs(p, parent);
    StrictlyIs(p, current);
    StrictlyIs(p, pos);
    SiblingApart(pos, current);
    BelowIs(s, s);
    BelowIs(p, current);
    BelowIs(current, current);
    BelowIs(p, parent);
    SiblingsApart(current, p);
    if Root(p, leaves) {
      RootIs(p, leaves);
      FullParent(current, leaves);
      if Below(p, s) { RootsApart(p, s, leaves); }
    }
  }

  lemma ClimbingStep(bitmap: set<nat>, cache: set<nat>, leaves: set<nat>, pos: nat, current: nat)
    requires pos >= 1 && current >= 1 && Climbing(bitmap, cache, leaves, pos, current)
    requires Sibling(current) >= 1 && Full(Sibling(current), leaves)
    ensures Climbing(bitmap - {Sibling(current)}, cache + {current}, leaves, pos, Parent(current))
  {
    hide Full, Root, Below, Sibling, Parent, Strictly;
    forall p | p >= 1
      ensures Below(pos, p) && p < Parent(current) <==> (Below(pos, p) && p < current) || p == current
    {
      ClimbCache(leaves, pos, current, p);
    }
    forall p | p >= 1
      ensures Root(p, leaves) && (Strictly(p, Parent(current)) ==> Strictly(p, pos)) <==>
              Root(p, leaves) && (Strictly(p, current) ==> Strictly(p, pos)) && p != Sibling(current)
    {
      ClimbBitmap(leaves, pos, current, p);
    }
    FullParent(current, leaves + LeavesBelow(pos));
    FullGrow(Sibling(current), leaves, pos);
    BelowParent(current, Parent(current));
    BelowIs(Parent(current), Parent(current));
    BelowTransitive(pos, current, Parent(current));
  }

  /** At the end of the climb nothing above current is full, even with the new leaves. */
  lemma TopOfClimb(leaves: set<nat>, pos: nat, current: nat, p: nat)
    requires pos >= 1 && current >= 1 && p >= 1 && Below(pos, current) && Below(pos, p)
    requires Sibling(current) >= 1 && !Full(Sibling(current), leaves)
    ensures !Full(Parent(current), leaves + LeavesBelow(pos))
    ensures Full(p, leaves + LeavesBelow(pos)) ==> Below(p, current) && p <= current
  {
    hide *;
    var leaves' := leaves + LeavesBelow(pos);
    SiblingApart(pos, current);
    FullGrow(Sibling(current), leaves, pos);
    FullParent(current, leaves');
    BelowIs(p, current);
    if p <= current {
      BelowChain(pos, p, current);
    } else if Full(p, leaves') {
      BelowChain(pos, current, p);
      BelowParent(current, p);
      FullBelow(Parent(current), p, leaves');
    }
  }

  lemma EndCache(leaves: set<nat>, pos: nat, current: nat, p: nat)
    requires pos >= 1 && current >= 1 && p >= 1 && Below(pos, current)
    requires Full(current, leaves + LeavesBelow(pos))
    requires Sibling(current) >= 1 && !Full(Sibling(current), leaves)
    ensures Full(p, leaves) || (Below(pos, p) && p <= current) <==>
            Full(p, leaves + LeavesBelow(pos)) && (Strictly(p, pos) ==> Full(p, leaves))
  {
    hide *;
    var leaves' := leaves + LeavesBelow(pos);
    FullGrow(p, leaves, pos);
    StrictlyIs(p, pos);
    StrictlyIs(pos, p);
    if Below(pos, p) {
      TopOfClimb(leaves, pos, current, p);
      if p <= current {
        BelowChain(pos, p, current);
        FullBelow(p, current, leaves');
      }
    }
  }

  lemma EndBitmap(leaves: set<nat>, pos: nat, current: nat, p: nat)
    requires pos >= 1 && current >= 1 && p >= 1 && Below(pos, current)
    requires Full(current, leaves + LeavesBelow(pos))
    requires Sibling(current) >= 1 && !Full(Sibling(current), leaves)
    ensures p == current || (Root(p, leaves) && (Strictly(p, current) ==> Strictly(p, pos))) <==>
            Root(p, leaves + LeavesBelow(pos)) || (Root(p, leaves) && Strictly(p, pos))
  {
    hide *;
    var leaves' := leaves + LeavesBelow(pos);
    var parent := Parent(p);
    RootIs(p, leaves);
    RootIs(p, leaves');
    FullGrow(p, leaves, pos);
    FullGrow(parent, leaves, pos);
    StrictlyIs(p, pos);
    StrictlyIs(p, current);
    TopOfClimb(leaves, pos, current, current);
    BelowParent(p, pos);
    BelowParent(p, current);
    if Below(p, pos) { BelowTransitive(p, pos, current); }
    if Root(p, leaves') && Below(p, current) { RootsApart(p, current, leaves'); }
    if Below(pos, p) {
      TopOfClimb(leaves, pos, current, p);
    }
    if Below(pos, parent) {
      TopOfClimb(leaves, pos, current, parent);
    }
    if Below(parent, pos) { BelowIs(parent, pos); BelowTransitive(parent, pos, current); }
  }

  lemma ClimbingEnd(bitmap: set<nat>, cache: set<nat>, leaves: set<nat>, pos: nat, current: nat)
    requires pos >= 1 && current >= 1 && Climbing(bitmap, cache, leaves, pos, current)
    requires Sibling(current) >= 1 && !Full(Sibling(current), leaves)
    ensures Added(bitmap + {current}, cache + {current}, leaves, pos)
  {
    hide Full, Root, Below, Sibling, Parent, Strictly;
    forall p | p >= 1
      ensures Full(p, leaves) || (Below(pos, p) && p <= current) <==>
              Full(p, leaves + LeavesBelow(pos)) && (Strictly(p, pos) ==> Full(p, leaves))
    {
      EndCache(leaves, pos, current, p);
    }
    forall p | p >= 1
      ensures p == current || (Root(p, leaves) && (Strictly(p, current) ==> Strictly(p, pos))) <==>
              Root(p, leaves + LeavesBelow(pos)) || (Root(p, leaves) && Strictly(p, pos))
    {
      EndBitmap(leaves, pos, current, p);
    }
  }

  /** Adding a leaf keeps the bitmaps canonical. */
  lemma AddedLeaf(bitmap: set<nat>, cache: set<nat>, leaves: set<nat>, pos: nat)
    requires pos >= 1 && IsLeaf(pos) && Added(bitmap, cache, leaves, pos)
    requires forall q :: q in leaves ==> q >= 1 && IsLeaf(q)
    ensures LeavesBelow(pos) == {pos} && Canonical(bitmap, cache, leaves + {pos})
  {
    hide Full, Root, Left;
    LeafIs(pos);
    assert LeavesBelow(pos) == {pos};
  }

  /** Adding any node keeps the roots canonical exactly when nothing strictly below it was a root. */
  lemma AddedNode(bitmap: set<nat>, cache: set<nat>, leaves: set<nat>, pos: nat)
    requires pos >= 1 && Added(bitmap, cache, leaves, pos)
    ensures (forall p :: p >= 1 ==> (p in bitmap <==> Root(p, leaves + LeavesBelow(pos))))
        <==> (forall p :: p >= 1 && Strictly(p, pos) ==> !Root(p, leaves))
  {
    hide Full, Root, Strictly, LeavesBelow;
    var leaves' := leaves + LeavesBelow(pos);
    forall p | p >= 1 && Strictly(p, pos) ensures !Root(p, leaves') {
      RootInside(p, leaves, pos);
    }
  }

  lemma RootInside(p: nat, leaves: set<nat>, pos: nat)
    requires p >= 1 && pos >= 1 && Strictly(p, pos)
    ensures !Root(p, leaves + LeavesBelow(pos))
  {
    hide *;
    StrictlyIs(p, pos);
    BelowIs(pos, pos);
    FullGrow(pos, leaves, pos);
    if Root(p, leaves + LeavesBelow(pos)) { RootsApart(p, pos, leaves + LeavesBelow(pos)); }
  }

  /** The tree of four leaves. */
  lemma FourLeaves()
    ensures IsLeaf(1) && IsLeaf(2) && IsLeaf(4)
    ensures Parent(1) == 3 && Parent(3) == 7 && Left(1) == 1 && Left(3) == 1 && Left(7) == 1
  {
    HeightAny(2, 1);
    HeightAny(2, 2);
    HeightAny(2, 3);
    HeightAny(2, 4);
    HeightAny(2, 7);
    RightAny(2, 1);
    RightAny(3, 3);
  }

  /** Adding leaf 1 and then its parent 3 leaves both in the bitmap, although 1 is not a root any more. */
  lemma ParentAfterLeaf(bitmap: set<nat>, cache: set<nat>)
    requires Added(bitmap, cache, {1}, 3)
    ensures 1 in bitmap && 3 in bitmap
    ensures Root(3, {1} + LeavesBelow(3)) && !Root(1, {1} + LeavesBelow(3))
  {
    FourLeaves();
    hide IsLeaf, Parent, Left;
    assert Below(1, 3) && Below(2, 3) && Below(4, 7) && Strictly(1, 3);
    assert Full(1, {1}) && !Full(3, {1});
    assert LeavesBelow(3) <= {1, 2, 3};
    assert Full(3, {1} + LeavesBelow(3)) && !Full(7, {1} + LeavesBelow(3));
  }
}
