/**
  Which nodes a compaction removes (pos_to_rm in store/src/pmmr.rs).

  The leaves to remove are expanded upwards, together with old roots that get
  absorbed; dropping from the expanded set the nodes whose parent is not in it
  leaves exactly the nodes that become compacted.
 */
module Compaction {
  import opened Bitmaps
  import opened Navigation
  import opened Postorder
  import opened PruneAdd
  import opened PruneTheory

  /** A node made full by the new leaves, or an old root absorbed by a bigger one. */
  ghost predicate Expanded(q: nat, leaves: set<nat>, added: set<nat>)
    requires q >= 1
  {
    || (Full(q, leaves + added) && !Full(q, leaves))
    || (Root(q, leaves) && Full(Parent(q), leaves + added))
  }

  /** The expanded set while the climb from leaf x has reached current. */
  ghost predicate Expanding(expanded: set<nat>, leaves: set<nat>, added: set<nat>, x: nat, current: nat)
    requires x >= 1
  {
    && current >= 1 && Below(x, current) && Full(current, leaves + added + {x}) && 0 !in expanded
    && forall q :: q >= 1 ==> (q in expanded <==> InExpanding(q, leaves, added, x, current))
  }

  ghost predicate InExpanding(q: nat, leaves: set<nat>, added: set<nat>, x: nat, current: nat)
    requires q >= 1 && x >= 1 && current >= 1
  {
    || Expanded(q, leaves, added)
    || (Below(x, q) && q <= current)
    || (Root(q, leaves) && Below(x, Parent(q)) && Parent(q) <= current)
  }

  lemma ExpandedIs(q: nat, leaves: set<nat>, added: set<nat>)
    requires q >= 1
    ensures Expanded(q, leaves, added) <==>
              (Full(q, leaves + added) && !Full(q, leaves)) || (Root(q, leaves) && Full(Parent(q), leaves + added))
  {
    hide Full, Root, Parent;
  }

  lemma InExpandingIs(q: nat, leaves: set<nat>, added: set<nat>, x: nat, current: nat)
    requires q >= 1 && x >= 1 && current >= 1
    ensures InExpanding(q, leaves, added, x, current) <==>
              || Expanded(q, leaves, added)
              || (Below(x, q) && q <= current)
              || (Root(q, leaves) && Below(x, Parent(q)) && Parent(q) <= current)
  {
    hide Expanded, Below, Root, Parent;
  }

  lemma NotFullAbove(q: nat, leaves: set<nat>, x: nat)
    requires q >= 1 && x >= 1 && IsLeaf(x) && x !in leaves && Below(x, q)
    ensures !Full(q, leaves) && !Root(q, leaves)
  {
    hide IsLeaf, Below, Parent;
  }

  lemma LeavesBelowLeaf(x: nat)
    requires x >= 1 && IsLeaf(x)
    ensures LeavesBelow(x) == {x}
  {
    hide Left;
    LeafIs(x);
  }

  lemma ExpandingStart(expanded: set<nat>, leaves: set<nat>, added: set<nat>, x: nat)
    requires x >= 1 && IsLeaf(x) && x !in leaves && x !in added && 0 !in expanded
    requires forall q :: q >= 1 ==> (q in expanded <==> Expanded(q, leaves, added))
    ensures Expanding(expanded + {x}, leaves, added, x, x)
  {
    hide Full, Root, Below, Parent, Expanded, InExpanding, IsLeaf;
    BelowIs(x, x);
    LeafIs(x);
    FullLeaf(x, leaves + added + {x});
    forall q | q >= 1 ensures q in expanded + {x} <==> InExpanding(q, leaves, added, x, x) {
      InExpandingIs(q, leaves, added, x, x);
      BelowIs(x, q);
      BelowIs(x, Parent(q));
      if Below(x, Parent(q)) && Parent(q) <= x {
        Family(q);
        LeafIs(Parent(q));
      }
    }
  }

  /** The test of the loop is whether the sibling is full by now. */
  lemma ExpandTest(expanded: set<nat>, leaves: set<nat>, added: set<nat>, x: nat, current: nat)
    requires x >= 1 && current >= 1 && IsLeaf(x) && x !in leaves && x !in added
    requires Expanding(expanded, leaves, added, x, current)
    ensures Sibling(current) >= 1
    ensures Root(Sibling(current), leaves) || Sibling(current) in expanded <==> Full(Sibling(current), leaves + added)
    ensures Root(Sibling(current), leaves) <==> Full(Sibling(current), leaves)
  {
    hide Full, Root, Below, Parent, Sibling, Expanded, InExpanding, IsLeaf;
    var s, parent := Sibling(current), Parent(current);
    Family(current);
    SiblingApart(x, current);
    BelowParent(current, parent);
    BelowIs(parent, parent);
    BelowTransitive(x, current, parent);
    NotFullAbove(parent, leaves, x);
    RootIs(s, leaves);
    InExpandingIs(s, leaves, added, x, current);
    ExpandedIs(s, leaves, added);
    FullMonotone(s, leaves, leaves + added);
  }

  lemma ExpandingStep(expanded: set<nat>, leaves: set<nat>, added: set<nat>, x: nat, current: nat)
    requires x >= 1 && current >= 1 && IsLeaf(x) && x !in leaves && x !in added
    requires Expanding(expanded, leaves, added, x, current)
    requires Sibling(current) >= 1 && Full(Sibling(current), leaves + added)
    ensures var more := if Root(Sibling(current), leaves) then {Sibling(current)} else {};
            Expanding(expanded + more + {Parent(current)}, leaves, added, x, Parent(current))
  {
    hide Full, Root, Below, Parent, Sibling, Expanded, InExpanding, IsLeaf;
    var s, parent := Sibling(current), Parent(current);
    var more := if Root(s, leaves) then {s} else {};
    Family(current);
    BelowParent(current, parent);
    BelowIs(parent, parent);
    BelowTransitive(x, current, parent);
    FullMonotone(s, leaves + added, leaves + added + {x});
    FullParent(current, leaves + added + {x});
    NotFullAbove(current, leaves, x);
    forall q | q >= 1
      ensures InExpanding(q, leaves, added, x, parent) <==>
              InExpanding(q, leaves, added, x, current) || q in more || q == parent
    {
      ExpandingOne(leaves, added, x, current, q);
    }
  }

  lemma ExpandingOne(leaves: set<nat>, added: set<nat>, x: nat, current: nat, q: nat)
    requires x >= 1 && current >= 1 && q >= 1 && IsLeaf(x) && x !in leaves && Below(x, current)
    ensures Sibling(current) >= 1
    ensures InExpanding(q, leaves, added, x, Parent(current)) <==>
            InExpanding(q, leaves, added, x, current)
            || (Root(q, leaves) && q == Sibling(current)) || q == Parent(current)
  {
    hide *;
    var s, parent := Sibling(current), Parent(current);
    Family(current);
    Family(q);
    BelowParent(current, parent);
    BelowIs(parent, parent);
    BelowTransitive(x, current, parent);
    InExpandingIs(q, leaves, added, x, parent);
    InExpandingIs(q, leaves, added, x, current);
    ClimbCache(leaves, x, current, q);
    ClimbCache(leaves, x, parent, q);
    ClimbCache(leaves, x, current, Parent(q));
    ClimbCache(leaves, x, parent, Parent(q));
    if Parent(q) == parent { BelowChildren(current, q); OnlyChildren(current, q); }
    if Root(q, leaves) && q == current { NotFullAbove(current, leaves, x); }
  }

  /** A node with the same parent is the node or its sibling. */
  lemma OnlyChildren(x: nat, q: nat)
    requires x >= 1 && q >= 1 && Parent(q) == Parent(x)
    ensures q == x || q == Sibling(x)
  {
    hide Height, IsRight, Left;
    Family(x);
    Family(q);
  }

  lemma ExpandingEnd(expanded: set<nat>, leaves: set<nat>, added: set<nat>, x: nat, current: nat)
    requires x >= 1 && current >= 1 && IsLeaf(x) && x !in leaves && x !in added
    requires Expanding(expanded, leaves, added, x, current)
    requires Sibling(current) >= 1 && !Full(Sibling(current), leaves + added)
    ensures forall q :: q >= 1 ==> (q in expanded <==> Expanded(q, leaves, added + {x}))
  {
    hide Full, Root, Below, Parent, Sibling, Expanded, InExpanding, IsLeaf;
    forall q | q >= 1 ensures q in expanded <==> Expanded(q, leaves, added + {x}) {
      ExpandingLast(leaves, added, x, current, q);
    }
  }

  /** With the climb over, a node is full with the new leaf when it was full before or lies on the path. */
  lemma FullAfter(all: set<nat>, x: nat, current: nat, q: nat)
    requires x >= 1 && current >= 1 && q >= 1 && IsLeaf(x) && Below(x, current)
    requires Full(current, all + {x}) && Sibling(current) >= 1 && !Full(Sibling(current), all)
    ensures Full(q, all + {x}) <==> if Below(x, q) then q <= current else Full(q, all)
  {
    hide *;
    LeavesBelowLeaf(x);
    FullAdd(q, all, x);
    if Below(x, q) {
      TopOfClimb(all, x, current, q);
      if q <= current {
        BelowChain(x, q, current);
        FullBelow(q, current, all + {x});
      }
    }
  }

  lemma ExpandingLast(leaves: set<nat>, added: set<nat>, x: nat, current: nat, q: nat)
    requires x >= 1 && current >= 1 && q >= 1 && IsLeaf(x) && x !in leaves && Below(x, current)
    requires Full(current, leaves + added + {x})
    requires Sibling(current) >= 1 && !Full(Sibling(current), leaves + added)
    ensures InExpanding(q, leaves, added, x, current) <==> Expanded(q, leaves, added + {x})
  {
    hide *;
    var all := leaves + added;
    assert leaves + (added + {x}) == all + {x};
    InExpandingIs(q, leaves, added, x, current);
    ExpandedIs(q, leaves, added);
    ExpandedIs(q, leaves, added + {x});
    FullAfter(all, x, current, q);
    FullAfter(all, x, current, Parent(q));
    if Below(x, q) { NotFullAbove(q, leaves, x); }
    FullAdd(q, all, x);
    FullAdd(Parent(q), all, x);
  }

  /** The nodes that become compacted are those whose parent is expanded with them. */
  lemma ExpandedExceptRoots(q: nat, leaves: set<nat>, added: set<nat>)
    requires q >= 1
    ensures Expanded(q, leaves, added) && Expanded(Parent(q), leaves, added) <==>
            Compacted(q, leaves + added) && !Compacted(q, leaves)
  {
    hide *;
    var p := Parent(q);
    ExpandedIs(q, leaves, added);
    ExpandedIs(p, leaves, added);
    RootIs(q, leaves);
    RootIs(q, leaves + added);
    RootIs(p, leaves);
    FullParent(q, leaves + added);
    FullParent(q, leaves);
  }

  /** pos_to_rm: the expansion of the leaves, without its roots. */
  method PosToRm(roots: set<nat>, added: set<nat>, ghost cache: set<nat>, ghost leaves: set<nat>, ghost size: nat)
    returns (posToRm: set<nat>)
    requires Canonical(roots, cache, leaves)
    requires forall x :: x in added ==> x >= 1 && IsLeaf(x) && x !in leaves
    requires IsLeaf(size + 1) && forall x :: x in leaves + added ==> x <= size
    ensures 0 !in posToRm
    ensures forall q :: q >= 1 ==> (q in posToRm <==> Compacted(q, leaves + added) && !Compacted(q, leaves))
  {
    hide Full, Root, Below, Parent, Sibling, Expanded, Expanding, IsLeaf, Compacted, Members, Canonical;
    var expanded: set<nat> := {};
    var xs := Members(added);
    ghost var done: set<nat> := {};
    assert leaves + {} == leaves;
    forall q | q >= 1 ensures !Expanded(q, leaves, {}) { ExpandedIs(q, leaves, {}); RootIs(q, leaves); }
    for i := 0 to |xs|
      invariant 0 !in expanded && done <= added && done == (set j | 0 <= j < i :: xs[j])
      invariant forall q :: q >= 1 ==> (q in expanded <==> Expanded(q, leaves, done))
    {
      MembersPlace(added, i);
      assert leaves + done + {xs[i]} <= leaves + added;
      expanded := Expand(expanded, roots, xs[i], cache, leaves, done, size);
      done := done + {xs[i]};
    }
    MembersSet(added);
    assert done == added;
    posToRm := set pos | pos in expanded && pos >= 1 && Parent(pos) in expanded;
    forall q | q >= 1 ensures q in posToRm <==> Compacted(q, leaves + added) && !Compacted(q, leaves) {
      ExpandedExceptRoots(q, leaves, added);
    }
  }

  /** The climb of one leaf. */
  method Expand(before: set<nat>, roots: set<nat>, x: nat, ghost cache: set<nat>, ghost leaves: set<nat>,
                ghost added: set<nat>, ghost size: nat)
    returns (expanded: set<nat>)
    requires x >= 1 && IsLeaf(x) && x !in leaves && x !in added && Canonical(roots, cache, leaves)
    requires 0 !in before && forall q :: q >= 1 ==> (q in before <==> Expanded(q, leaves, added))
    requires IsLeaf(size + 1) && forall y :: y in leaves + added + {x} ==> y <= size
    ensures 0 !in expanded
    ensures forall q :: q >= 1 ==> (q in expanded <==> Expanded(q, leaves, added + {x}))
  {
    hide Full, Root, Below, Parent, Sibling, Expanded, Expanding, IsLeaf, Canonical;
    expanded := before + {x};
    ExpandingStart(before, leaves, added, x);
    var current := x;
    while true
      invariant current >= 1 && Expanding(expanded, leaves, added, x, current)
      decreases size + 1 - current
    {
      ExpandingIs(expanded, leaves, added, x, current);
      var parent, sibling := ComputeFamily(current);
      ExpandTest(expanded, leaves, added, x, current);
      RootsOf(roots, cache, leaves, sibling);
      ghost var all := expanded;
      var siblingPruned := sibling in roots;
      if siblingPruned {
        expanded := expanded + {sibling};
      }
      if siblingPruned || sibling in expanded {
        ExpandingStep(all, leaves, added, x, current);
        assert expanded + {parent} ==
               all + (if Root(sibling, leaves) then {sibling} else {}) + {parent};
        expanded := expanded + {parent};
        ExpandingIs(expanded, leaves, added, x, parent);
        FullInside(parent, leaves + added + {x}, size);
        current := parent;
      } else {
        ExpandingEnd(expanded, leaves, added, x, current);
        break;
      }
    }
  }

  lemma ExpandingIs(expanded: set<nat>, leaves: set<nat>, added: set<nat>, x: nat, current: nat)
    requires x >= 1 && Expanding(expanded, leaves, added, x, current)
    ensures current >= 1 && Full(current, leaves + added + {x}) && 0 !in expanded
  {
    hide InExpanding, Full;
  }

  lemma RootsOf(roots: set<nat>, cache: set<nat>, leaves: set<nat>, p: nat)
    requires p >= 1 && Canonical(roots, cache, leaves)
    ensures p in roots <==> Root(p, leaves)
  {
    hide Root, Full;
  }

  lemma MembersPlace(s: set<nat>, i: nat)
    requires i < |Members(s)|
    ensures Members(s)[i] in s
    ensures forall j :: 0 <= j < i ==> Members(s)[j] != Members(s)[i]
  {
    hide Ascending;
    AscendingPlace(s, Maximum(s) + 1, i);
    forall j | 0 <= j < i ensures Members(s)[j] != Members(s)[i] {
      AscendingSorted(s, Maximum(s) + 1, j, i);
    }
  }

  lemma MembersSet(s: set<nat>)
    ensures forall x :: x in s <==> exists i :: 0 <= i < |Members(s)| && Members(s)[i] == x
  {
    hide Ascending;
    forall x: nat ensures x in s <==> x in Members(s) { AscendingMember(s, Maximum(s) + 1, x); }
  }
}
