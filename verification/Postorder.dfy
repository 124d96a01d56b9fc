/**
  Postorder positions in a Merkle Mountain Range.

  The reference definition walks down a perfect binary tree that is numbered in
  postorder (left, right, top), counting positions from 1.  Which perfect tree is
  chosen does not matter as long as it contains the position, so a height, a
  parent and a sibling belong to the position alone.
 */
module Postorder {

  /** Number of nodes of a perfect binary tree of height h, that is 2^(h+1) - 1. */
  function Size(h: nat): (n: nat)
    ensures n > h
  {
    if h == 0 then 1 else 2 * Size(h - 1) + 1
  }

  /** Number of leaves of a perfect binary tree of height h, that is 2^h. */
  function Pow2(h: nat): (n: nat)
    ensures n > h && Size(h) == 2 * n - 1
  {
    if h == 0 then 1 else 2 * Pow2(h - 1)
  }

  /** Height of the node at position pos of a perfect tree of height k. */
  function HeightIn(k: nat, pos: nat): (h: nat)
    requires 1 <= pos <= Size(k)
    ensures h <= k && Size(h) <= pos
  {
    if pos == Size(k) then k
    else if pos <= Size(k - 1) then HeightIn(k - 1, pos)
    else HeightIn(k - 1, pos - Size(k - 1))
  }

  /** Whether a node that is not the root of a perfect tree of height k is a right child. */
  predicate RightIn(k: nat, pos: nat)
    requires 1 <= pos < Size(k)
  {
    if pos == Size(k - 1) then false
    else if pos == 2 * Size(k - 1) then true
    else if pos < Size(k - 1) then RightIn(k - 1, pos)
    else RightIn(k - 1, pos - Size(k - 1))
  }

  function Height(pos: nat): (h: nat)
    requires pos >= 1
    ensures Size(h) <= pos
  {
    HeightIn(pos, pos)
  }

  predicate IsLeaf(pos: nat) { pos >= 1 && Height(pos) == 0 }

  predicate IsRight(pos: nat)
    requires pos >= 1
  {
    RightIn(pos + 1, pos)
  }

  /** First position of the subtree rooted at pos: the subtree is the interval Left(pos)..pos. */
  function Left(pos: nat): (l: nat)
    requires pos >= 1
    ensures 1 <= l <= pos
  {
    pos + 1 - Size(Height(pos))
  }

  function Parent(pos: nat): (p: nat)
    requires pos >= 1
    ensures p > pos
  {
    if IsRight(pos) then pos + 1 else pos + Size(Height(pos)) + 1
  }

  function Sibling(pos: nat): (s: nat)
    requires pos >= 1
  {
    if IsRight(pos) then pos - Size(Height(pos)) else pos + Size(Height(pos))
  }

  // ----- one level down: the left half keeps its numbers, the right half is shifted -----

  lemma HeightHalf(k: nat, pos: nat)
    requires 1 <= pos <= Size(k)
    ensures Size(k + 1) == 2 * Size(k) + 1
    ensures HeightIn(k + 1, pos) == HeightIn(k, pos)
    ensures HeightIn(k + 1, Size(k) + pos) == HeightIn(k, pos)
  {}

  lemma HeightRoot(k: nat)
    ensures HeightIn(k, Size(k)) == k
  {}

  lemma RightHalf(k: nat, pos: nat)
    requires 1 <= pos <= Size(k)
    ensures Size(k + 1) == 2 * Size(k) + 1
    ensures RightIn(k + 1, pos) == (pos < Size(k) && RightIn(k, pos))
    ensures RightIn(k + 1, Size(k) + pos) == (pos == Size(k) || RightIn(k, pos))
  {}

  // ----- the reference does not depend on the tree chosen -----

  lemma {:induction false} HeightStable(k: nat, m: nat, pos: nat)
    requires 1 <= pos <= Size(k) && k <= m
    ensures pos <= Size(m) && HeightIn(m, pos) == HeightIn(k, pos)
    decreases m
  {
    hide *;
    if k < m {
      HeightStable(k, m - 1, pos);
      HeightHalf(m - 1, pos);
    }
  }

  lemma {:induction false} RightStable(k: nat, m: nat, pos: nat)
    requires 1 <= pos < Size(k) && k <= m
    ensures pos < Size(m) && RightIn(m, pos) == RightIn(k, pos)
    decreases m
  {
    hide *;
    if k < m {
      RightStable(k, m - 1, pos);
      RightHalf(m - 1, pos);
    }
  }

  /** The global height is the height in any perfect tree holding the position. */
  lemma HeightAny(k: nat, pos: nat)
    requires 1 <= pos <= Size(k)
    ensures Height(pos) == HeightIn(k, pos)
  {
    hide HeightIn, Size;
    var m := if k < pos then pos else k;
    HeightStable(k, m, pos);
    HeightStable(pos, m, pos);
  }

  lemma RightAny(k: nat, pos: nat)
    requires 1 <= pos < Size(k)
    ensures IsRight(pos) == RightIn(k, pos)
  {
    hide RightIn, Size;
    var m := if k < pos + 1 then pos + 1 else k;
    RightStable(k, m, pos);
    RightStable(pos + 1, m, pos);
  }

  /** Shifting a position by a whole left subtree keeps its height. */
  lemma HeightShift(k: nat, pos: nat)
    requires 1 <= pos <= Size(k)
    ensures Height(Size(k) + pos) == Height(pos)
    ensures Height(Size(k)) == k
  {
    hide *;
    HeightHalf(k, pos);
    HeightRoot(k);
    HeightAny(k, pos);
    HeightAny(k, Size(k));
    HeightAny(k + 1, Size(k) + pos);
  }

  // ----- families -----

  function ParentIn(k: nat, pos: nat): (p: nat)
    requires 1 <= pos < Size(k)
  {
    if RightIn(k, pos) then pos + 1 else pos + Size(HeightIn(k, pos)) + 1
  }

  function SiblingIn(k: nat, pos: nat): (s: int)
    requires 1 <= pos < Size(k)
  {
    if RightIn(k, pos) then pos - Size(HeightIn(k, pos)) else pos + Size(HeightIn(k, pos))
  }

  /** Inside one perfect tree, the sibling is on the other side and the parent one level up. */
  predicate FamilyOk(k: nat, pos: nat)
    requires 1 <= pos < Size(k)
  {
    var h, p, s := HeightIn(k, pos), ParentIn(k, pos), SiblingIn(k, pos);
    && 1 <= s < Size(k) && p <= Size(k)
    && HeightIn(k, s) == h && HeightIn(k, p) == h + 1
    && RightIn(k, s) == !RightIn(k, pos)
  }

  lemma ParentHalf(k: nat, pos: nat)
    requires 1 <= pos < Size(k)
    ensures Size(k + 1) == 2 * Size(k) + 1
    ensures ParentIn(k + 1, pos) == ParentIn(k, pos)
    ensures ParentIn(k + 1, Size(k) + pos) == Size(k) + ParentIn(k, pos)
    ensures SiblingIn(k + 1, pos) == SiblingIn(k, pos)
    ensures SiblingIn(k + 1, Size(k) + pos) == Size(k) + SiblingIn(k, pos)
  {
    hide Size, HeightIn, RightIn;
    HeightHalf(k, pos);
    RightHalf(k, pos);
  }

  lemma FamilyHalf(k: nat, pos: nat)
    requires 1 <= pos < Size(k) && FamilyOk(k, pos)
    ensures Size(k + 1) == 2 * Size(k) + 1
    ensures FamilyOk(k + 1, pos) && FamilyOk(k + 1, Size(k) + pos)
  {
    hide Size, HeightIn, RightIn, ParentIn, SiblingIn;
    var p, s := ParentIn(k, pos), SiblingIn(k, pos);
    ParentHalf(k, pos);
    HeightHalf(k, pos);
    RightHalf(k, pos);
    HeightHalf(k, s);
    RightHalf(k, s);
    HeightHalf(k, p);
  }

  lemma FamilyTop(k: nat)
    ensures Size(k + 1) == 2 * Size(k) + 1
    ensures FamilyOk(k + 1, Size(k)) && FamilyOk(k + 1, 2 * Size(k))
    ensures ParentIn(k + 1, Size(k)) == ParentIn(k + 1, 2 * Size(k)) == Size(k + 1)
  {
    hide Size, HeightIn, RightIn;
    HeightHalf(k, Size(k));
    RightHalf(k, Size(k));
    HeightRoot(k);
    HeightRoot(k + 1);
  }

  lemma SizeStep(k: nat)
    requires k > 0
    ensures Size(k) == 2 * Size(k - 1) + 1 && Size(0) == 1
  {}

  lemma {:induction false} FamilyIn(k: nat, pos: nat)
    requires k > 0 && 1 <= pos < Size(k)
    ensures FamilyOk(k, pos)
  {
    hide *;
    SizeStep(k);
    if k > 1 { SizeStep(k - 1); }
    var half := Size(k - 1);
    if pos < half {
      FamilyIn(k - 1, pos);
      FamilyHalf(k - 1, pos);
    } else if half < pos < 2 * half {
      FamilyIn(k - 1, pos - half);
      FamilyHalf(k - 1, pos - half);
    } else {
      FamilyTop(k - 1);
    }
  }

  /** A node and its sibling share height and parent, and one is left, the other right. */
  lemma Family(pos: nat)
    requires pos >= 1
    ensures var s := Sibling(pos);
            var p := Parent(pos);
            && s >= 1 && Height(s) == Height(pos) && IsRight(s) == !IsRight(pos)
            && Parent(s) == p && Sibling(s) == pos
            && Height(p) == Height(pos) + 1
            && (if IsRight(pos) then s < pos && Left(pos) == s + 1 && Left(p) == Left(s) && pos == p - 1
                else pos < s && Left(s) == pos + 1 && Left(p) == Left(pos) && s == p - 1)
  {
    hide HeightIn, RightIn, Height, IsRight, Size;
    var k := pos + 1;
    FamilyIn(k, pos);
    HeightAny(k, pos);
    RightAny(k, pos);
    HeightAny(k, SiblingIn(k, pos));
    RightAny(k, SiblingIn(k, pos));
    HeightAny(k, ParentIn(k, pos));
    SizeStep(Height(pos) + 1);
  }

  /** Inside one perfect tree, the node before an inner node is its right child. */
  lemma {:induction false} RightChildIn(k: nat, pos: nat)
    requires 1 <= pos <= Size(k) && HeightIn(k, pos) > 0
    ensures pos >= 2 && HeightIn(k, pos - 1) == HeightIn(k, pos) - 1 && RightIn(k, pos - 1)
  {
    hide *;
    if k > 0 {
      SizeStep(k);
      var half := Size(k - 1);
      HeightHalf(k - 1, half);
      HeightRoot(k - 1);
      HeightRoot(k);
      RightHalf(k - 1, half);
      if pos < Size(k) {
        var pos' := if pos > half then pos - half else pos;
        HeightHalf(k - 1, pos');
        RightChildIn(k - 1, pos');
        HeightHalf(k - 1, pos' - 1);
        RightHalf(k - 1, pos' - 1);
      }
    }
  }

  /** The node before an inner node is its right child. */
  lemma RightChild(pos: nat)
    requires pos >= 1 && Height(pos) > 0
    ensures pos >= 2 && Parent(pos - 1) == pos && IsRight(pos - 1) && Height(pos - 1) == Height(pos) - 1
  {
    hide Size, Height, HeightIn, RightIn, IsRight;
    HeightAny(pos, pos);
    RightChildIn(pos, pos);
    HeightAny(pos, pos - 1);
    RightAny(pos, pos - 1);
  }

  // ----- subtrees are intervals, nested or disjoint -----

  lemma {:induction false} LaminarIn(k: nat, p: nat, q: nat)
    requires 1 <= p < q <= Size(k)
    ensures var left := q + 1 - Size(HeightIn(k, q));
            left > p || left <= p + 1 - Size(HeightIn(k, p))
  {
    hide *;
    HeightRoot(k);
    if q < Size(k) && k > 0 {
      SizeStep(k);
      var half := Size(k - 1);
      if q <= half {
        HeightHalf(k - 1, p);
        HeightHalf(k - 1, q);
        LaminarIn(k - 1, p, q);
      } else if p > half {
        HeightHalf(k - 1, p - half);
        HeightHalf(k - 1, q - half);
        LaminarIn(k - 1, p - half, q - half);
      } else {
        HeightHalf(k - 1, q - half);
      }
    } else if k == 0 {
      SizeStep(1);
    }
  }

  /** Two subtrees are nested or disjoint. */
  lemma Laminar(p: nat, q: nat)
    requires 1 <= p < q
    ensures Left(q) > p || Left(q) <= Left(p)
  {
    hide HeightIn, Size, Height;
    HeightAny(q, q);
    HeightAny(q, p);
    LaminarIn(q, p, q);
  }

  /** q lies in the subtree rooted at p. */
  predicate Below(q: nat, p: nat)
    requires q >= 1 && p >= 1
  {
    Left(p) <= q <= p
  }

  lemma {:induction false} SizeMonotone(a: nat, b: nat)
    ensures a <= b ==> Size(a) <= Size(b)
    ensures a < b ==> Size(a) < Size(b)
    decreases b
  {
    if a < b { SizeMonotone(a, b - 1); }
  }

  /** Lower in the subtree is lower in height. */
  lemma HeightBelow(q: nat, p: nat)
    requires 1 <= q < p && Below(q, p)
    ensures Height(q) < Height(p) && Left(p) <= Left(q)
  {
    hide Height, Size;
    Laminar(q, p);
    SizeMonotone(Height(p), Height(q));
  }

  /** Climbing from a proper descendant stays inside the subtree. */
  lemma ParentBelow(q: nat, p: nat)
    requires 1 <= q < p && Below(q, p)
    ensures Below(Parent(q), p) && Height(Parent(q)) <= Height(p)
  {
    hide Height, Size, IsRight, Parent, Left;
    var par := Parent(q);
    Family(q);
    if par > p {
      Laminar(p, par);
      Laminar(q, p);
      var c := par - 1;
      if p < c { Laminar(p, c); }
      assert false;
    }
    if par < p { HeightBelow(par, p); }
  }

  lemma BelowTransitive(a: nat, b: nat, c: nat)
    requires a >= 1 && b >= 1 && c >= 1 && Below(a, b) && Below(b, c)
    ensures Below(a, c)
  {
    hide Left;
    if b < c { Laminar(b, c); }
  }

  // ----- facts used without the definitions -----

  lemma BelowIs(q: nat, p: nat)
    requires q >= 1 && p >= 1
    ensures Below(q, p) == (Left(p) <= q <= p)
    ensures Below(p, p)
  {}

  lemma LeafIs(p: nat)
    requires p >= 1
    ensures IsLeaf(p) == (Height(p) == 0) && (IsLeaf(p) ==> Left(p) == p)
  {
    hide Height;
  }

  /** Being below a node is being it, or having a parent below it. */
  lemma BelowParent(q: nat, x: nat)
    requires q >= 1 && x >= 1
    ensures Below(q, x) <==> q == x || Below(Parent(q), x)
  {
    hide *;
    Family(q);
    BelowIs(q, x);
    BelowIs(Parent(q), x);
    if q < x && Below(q, x) { ParentBelow(q, x); }
    if Below(Parent(q), x) {
      BelowIs(q, Parent(q));
      BelowTransitive(q, Parent(q), x);
    }
  }

  /** The nodes above a position form a chain. */
  lemma BelowChain(x: nat, p: nat, q: nat)
    requires x >= 1 && 1 <= p <= q && Below(x, p) && Below(x, q)
    ensures Below(p, q)
  {
    hide *;
    BelowIs(x, p);
    BelowIs(x, q);
    BelowIs(p, q);
    if p < q { Laminar(p, q); }
  }

  /** Siblings have nothing below them in common. */
  lemma SiblingsApart(x: nat, q: nat)
    requires x >= 1 && q >= 1
    ensures Sibling(x) >= 1 && !(Below(q, x) && Below(q, Sibling(x)))
  {
    hide *;
    Family(x);
    BelowIs(q, x);
    BelowIs(q, Sibling(x));
  }

  /** A parent holds itself and what its children hold. */
  lemma BelowChildren(x: nat, q: nat)
    requires x >= 1 && q >= 1
    ensures Sibling(x) >= 1
    ensures Below(q, Parent(x)) <==> q == Parent(x) || Below(q, x) || Below(q, Sibling(x))
  {
    hide *;
    Family(x);
    BelowIs(q, x);
    BelowIs(q, Sibling(x));
    BelowIs(q, Parent(x));
  }
}
