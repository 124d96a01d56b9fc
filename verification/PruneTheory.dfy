/**
  Which nodes of the tree are pruned when a set of leaves is pruned.

  A node is full when every leaf below it is pruned.  The prune list keeps the
  maximal full nodes, its roots; everything strictly below a root is compacted
  away from the files, and that is exactly the nodes whose parent is full.
 */
module PruneTheory {
  import opened Postorder

  /** Every leaf below p is in the set. */
  ghost predicate Full(p: nat, leaves: set<nat>)
    requires p >= 1
  {
    forall q :: q >= 1 && IsLeaf(q) && Below(q, p) ==> q in leaves
  }

  ghost predicate Root(p: nat, leaves: set<nat>)
    requires p >= 1
  {
    Full(p, leaves) && !Full(Parent(p), leaves)
  }

  /** p is strictly below a root: its hash is not kept in the files. */
  ghost predicate Compacted(p: nat, leaves: set<nat>)
    requires p >= 1
  {
    Full(Parent(p), leaves)
  }

  lemma FullLeaf(p: nat, leaves: set<nat>)
    requires p >= 1 && IsLeaf(p)
    ensures Full(p, leaves) <==> p in leaves
  {
    hide IsLeaf, Below;
    LeafIs(p);
    BelowIs(p, p);
    forall q | q >= 1 ensures Below(q, p) ==> q == p { BelowIs(q, p); }
  }

  lemma FullBelow(q: nat, p: nat, leaves: set<nat>)
    requires q >= 1 && p >= 1 && Below(q, p) && Full(p, leaves)
    ensures Full(q, leaves)
  {
    hide IsLeaf, Below;
    forall x | x >= 1 && Below(x, q) ensures Below(x, p) { BelowTransitive(x, q, p); }
  }

  /** A parent is full exactly when both its children are. */
  lemma FullParent(x: nat, leaves: set<nat>)
    requires x >= 1
    ensures Sibling(x) >= 1
    ensures Full(Parent(x), leaves) <==> Full(x, leaves) && Full(Sibling(x), leaves)
  {
    hide IsLeaf, Below, Parent, Sibling;
    Family(x);
    LeafIs(Parent(x));
    forall q | q >= 1
      ensures Below(q, Parent(x)) <==> q == Parent(x) || Below(q, x) || Below(q, Sibling(x))
    {
      BelowChildren(x, q);
    }
  }

  lemma FullMonotone(p: nat, a: set<nat>, b: set<nat>)
    requires p >= 1 && a <= b
    ensures Full(p, a) ==> Full(p, b)
  {}

  /** Adding a leaf only matters to the nodes above it. */
  lemma FullAdd(p: nat, leaves: set<nat>, leaf: nat)
    requires p >= 1 && leaf >= 1 && IsLeaf(leaf)
    ensures !Below(leaf, p) ==> (Full(p, leaves + {leaf}) <==> Full(p, leaves))
    ensures Full(p, leaves) ==> Full(p, leaves + {leaf})
  {
    hide IsLeaf, Below;
  }

  /** Every subtree has a leaf, so a full node has one in the set. */
  lemma {:induction false} LeafBelow(p: nat) returns (q: nat)
    requires p >= 1
    ensures 1 <= q <= p && IsLeaf(q) && Below(q, p) && q + Height(p) == p
    decreases p
  {
    hide *;
    LeafIs(p);
    BelowIs(p, p);
    q := p;
    if Height(p) > 0 {
      RightChild(p);
      q := LeafBelow(p - 1);
      BelowParent(p - 1, p);
      BelowTransitive(q, p - 1, p);
    }
  }

  /** In a range of complete mountains a full node lies in the range when its leaves do. */
  lemma {:induction false} FullInside(p: nat, leaves: set<nat>, size: nat)
    requires p >= 1 && Full(p, leaves)
    requires IsLeaf(size + 1) && forall q :: q in leaves ==> q <= size
    ensures p <= size
    decreases p
  {
    hide *;
    LeafIs(p);
    LeafIs(size + 1);
    if IsLeaf(p) {
      FullLeaf(p, leaves);
    } else {
      RightChild(p);
      BelowParent(p - 1, p);
      BelowIs(p, p);
      FullBelow(p - 1, p, leaves);
      FullInside(p - 1, leaves, size);
    }
  }

  /** A full node lies below a root. */
  lemma {:induction false} RootAbove(p: nat, leaves: set<nat>, bound: nat) returns (r: nat)
    requires p >= 1 && Full(p, leaves)
    requires IsLeaf(bound + 1) && forall q :: q in leaves ==> q <= bound
    ensures r >= 1 && Root(r, leaves) && Below(p, r) && r <= bound
    decreases bound - p
  {
    hide *;
    FullInside(p, leaves, bound);
    BelowIs(p, p);
    RootIs(p, leaves);
    r := p;
    if Full(Parent(p), leaves) {
      FullInside(Parent(p), leaves, bound);
      r := RootAbove(Parent(p), leaves, bound);
      BelowParent(p, r);
    }
  }

  lemma RootIs(p: nat, leaves: set<nat>)
    requires p >= 1
    ensures Root(p, leaves) <==> Full(p, leaves) && !Full(Parent(p), leaves)
    ensures Compacted(p, leaves) <==> Full(Parent(p), leaves)
    ensures Compacted(p, leaves) ==> Full(p, leaves)
  {
    hide Full, Parent;
    FullParent(p, leaves);
  }

  /** Roots are an antichain. */
  lemma RootsApart(r: nat, s: nat, leaves: set<nat>)
    requires r >= 1 && s >= 1 && Root(r, leaves) && Full(s, leaves) && Below(r, s)
    ensures r == s
  {
    hide *;
    RootIs(r, leaves);
    BelowParent(r, s);
    if r != s { FullBelow(Parent(r), s, leaves); }
  }

  /** Compacted means strictly below a root. */
  lemma CompactedIsBelowRoot(p: nat, leaves: set<nat>, r: nat)
    requires p >= 1 && r >= 1 && Root(r, leaves) && Below(p, r)
    ensures Compacted(p, leaves) <==> p != r
  {
    hide *;
    RootIs(p, leaves);
    RootIs(r, leaves);
    BelowParent(p, r);
    if p != r { FullBelow(Parent(p), r, leaves); }
  }
}
