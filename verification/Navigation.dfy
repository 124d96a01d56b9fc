/**
  The navigation functions of core/src/core/pmmr/pmmr.rs.

  All of them peel perfect trees off a position, biggest first, and read the
  height and the turns of the path from what is left.  Here they are loops over
  plain numbers; each is proved to compute the tree notion of module Postorder.
  A bitmap is a number and `BitAt` is the test of one of its bits.
 */
module Navigation {
  import opened Postorder

  function BitLen(n: nat): (b: nat)
  {
    if n == 0 then 0 else 1 + BitLen(n / 2)
  }

  predicate BitAt(n: nat, j: nat) {
    if j == 0 then n % 2 == 1 else BitAt(n / 2, j - 1)
  }

  function PopCount(n: nat): (c: nat)
    ensures c <= n
  {
    if n == 0 then 0 else n % 2 + PopCount(n / 2)
  }

  /** What the peeling loop computes with b tree sizes left to try. */
  function Peel(b: nat, rest: nat, bits: nat): (r: (nat, nat))
  {
    if b == 0 then (bits, rest)
    else if rest >= Pow2(b) - 1 then Peel(b - 1, rest - (Pow2(b) - 1), 2 * bits + 1)
    else Peel(b - 1, rest, 2 * bits)
  }

  // ----- one step of the peeling loop -----

  lemma PeelBig(b: nat, rest: nat, bits: nat)
    requires b > 0 && rest >= Size(b - 1)
    ensures Peel(b, rest, bits) == Peel(b - 1, rest - Size(b - 1), 2 * bits + 1)
  {}

  lemma PeelSmall(b: nat, rest: nat, bits: nat)
    requires b > 0 && rest < Size(b - 1)
    ensures Peel(b, rest, bits) == Peel(b - 1, rest, 2 * bits)
  {}

  lemma PeelNone(rest: nat, bits: nat)
    ensures Peel(0, rest, bits) == (bits, rest)
  {}

  lemma PowStep(k: nat)
    requires k > 0
    ensures Size(k) == 2 * Size(k - 1) + 1 && Pow2(k) == 2 * Pow2(k - 1) == Size(k - 1) + 1
    ensures Size(0) == 1 == Pow2(0)
  {}

  lemma BitStep(bits: nat, j: nat)
    ensures BitAt(2 * bits, j + 1) == BitAt(bits, j) == BitAt(2 * bits + 1, j + 1)
    ensures !BitAt(2 * bits, 0) && BitAt(2 * bits + 1, 0)
  {
    assert (2 * bits + 1) / 2 == bits;
  }

  lemma {:induction false} BitLenBound(n: nat)
    ensures n < Pow2(BitLen(n))
  {
    if n > 0 { BitLenBound(n / 2); }
  }

  // ----- bits of the peeled map -----

  /** Bits above the ones being peeled are the ones already collected. */
  lemma {:induction false} PeelHighBits(b: nat, rest: nat, bits: nat, j: nat)
    ensures BitAt(Peel(b, rest, bits).0, b + j) == BitAt(bits, j)
  {
    hide *;
    if b == 0 {
      PeelNone(rest, bits);
    } else {
      BitStep(bits, j);
      if rest >= Size(b - 1) {
        PeelBig(b, rest, bits);
        PeelHighBits(b - 1, rest - Size(b - 1), 2 * bits + 1, j + 1);
      } else {
        PeelSmall(b, rest, bits);
        PeelHighBits(b - 1, rest, 2 * bits, j + 1);
      }
    }
  }

  /** The height does not depend on the bits collected before, and the low bits only add to them. */
  lemma {:induction false} PeelNext(b: nat, rest: nat, bits: nat)
    ensures Peel(b, rest, bits + 1).1 == Peel(b, rest, bits).1
    ensures Peel(b, rest, bits + 1).0 == Peel(b, rest, bits).0 + Pow2(b)
  {
    hide *;
    PowStep(b + 1);
    if b == 0 {
      PeelNone(rest, bits);
      PeelNone(rest, bits + 1);
    } else {
      PowStep(b);
      var big := rest >= Size(b - 1);
      var rest' := if big then rest - Size(b - 1) else rest;
      var bits' := if big then 2 * bits + 1 else 2 * bits;
      if big {
        PeelBig(b, rest, bits);
        PeelBig(b, rest, bits + 1);
      } else {
        PeelSmall(b, rest, bits);
        PeelSmall(b, rest, bits + 1);
      }
      PeelNext(b - 1, rest', bits');
      PeelNext(b - 1, rest', bits' + 1);
    }
  }

  /** Peeling the root of a perfect tree leaves its height and a run of ones. */
  lemma {:induction false} PeelRoot(b: nat, extra: nat)
    ensures Peel(b, Size(b) - 1 + extra, 0) == (Pow2(b) - 1, b + extra)
  {
    hide *;
    PowStep(b + 1);
    if b == 0 {
      PeelNone(extra, 0);
    } else {
      PowStep(b);
      PeelBig(b, Size(b) - 1 + extra, 0);
      PeelRoot(b - 1, extra + 1);
      PeelNext(b - 1, Size(b - 1) + extra, 0);
    }
  }

  /** Whether the path from the root of a perfect tree of height b to pos turns right below height j + 1. */
  predicate Turn(b: nat, pos: nat, j: nat)
    requires 1 <= pos <= Size(b) && HeightIn(b, pos) <= j < b
  {
    if j == b - 1 then pos > Size(b - 1)
    else if pos <= Size(b - 1) then Turn(b - 1, pos, j)
    else Turn(b - 1, pos - Size(b - 1), j)
  }

  lemma TurnHalf(b: nat, pos: nat, j: nat)
    requires 1 <= pos <= Size(b) && HeightIn(b, pos) <= j < b
    ensures Size(b) + Size(b) < Size(b + 1)
    ensures HeightIn(b + 1, pos) <= j && Turn(b + 1, pos, j) == Turn(b, pos, j)
    ensures Size(b) + pos <= Size(b + 1) && HeightIn(b + 1, Size(b) + pos) <= j
    ensures Turn(b + 1, Size(b) + pos, j) == Turn(b, pos, j)
  {}

  lemma TurnTop(b: nat, pos: nat)
    requires 1 <= pos <= Size(b)
    ensures pos <= Size(b + 1) && HeightIn(b + 1, pos) <= b && !Turn(b + 1, pos, b)
    ensures Size(b) + pos <= Size(b + 1) && HeightIn(b + 1, Size(b) + pos) <= b && Turn(b + 1, Size(b) + pos, b)
  {}

  /** Peeling pos - 1 nodes leaves the height of the node at pos. */
  lemma {:induction false} PeelHeight(b: nat, pos: nat)
    requires 1 <= pos <= Size(b)
    ensures Peel(b, pos - 1, 0).1 == HeightIn(b, pos)
  {
    hide *;
    if pos == Size(b) {
      PeelRoot(b, 0);
      HeightRoot(b);
    } else if b == 0 {
      PowStep(1);
    } else {
      PowStep(b);
      var half := Size(b - 1);
      if pos <= half {
        HeightHalf(b - 1, pos);
        PeelSmall(b, pos - 1, 0);
        PeelHeight(b - 1, pos);
      } else {
        HeightHalf(b - 1, pos - half);
        PeelBig(b, pos - 1, 0);
        PeelHeight(b - 1, pos - half);
        PeelNext(b - 1, pos - half - 1, 0);
      }
    }
  }

  /** The bits of the peeled map are the turns of the path. */
  lemma {:induction false} PeelTurn(b: nat, pos: nat, bits: nat, j: nat)
    requires 1 <= pos <= Size(b) && HeightIn(b, pos) <= j < b
    ensures BitAt(Peel(b, pos - 1, bits).0, j) == Turn(b, pos, j)
  {
    hide *;
    PowStep(b);
    HeightRoot(b);
    var half := Size(b - 1);
    var right := pos > half;
    var pos' := if right then pos - half else pos;
    var bits' := if right then 2 * bits + 1 else 2 * bits;
    if right { PeelBig(b, pos - 1, bits); } else { PeelSmall(b, pos - 1, bits); }
    HeightHalf(b - 1, pos');
    BitStep(bits, 0);
    if j == b - 1 {
      TurnTop(b - 1, pos');
      PeelHighBits(b - 1, pos' - 1, bits', 0);
    } else {
      TurnHalf(b - 1, pos', j);
      PeelTurn(b - 1, pos', bits', j);
    }
  }

  lemma {:induction false} TurnIsRight(b: nat, pos: nat)
    requires b > 0 && 1 <= pos < Size(b)
    ensures HeightIn(b, pos) < b && Turn(b, pos, HeightIn(b, pos)) == RightIn(b, pos)
  {
    hide *;
    PowStep(b);
    if b > 1 { PowStep(b - 1); }
    var half := Size(b - 1);
    var pos' := if pos > half then pos - half else pos;
    HeightHalf(b - 1, pos');
    RightHalf(b - 1, pos');
    if pos' == half {
      HeightRoot(b - 1);
      TurnTop(b - 1, half);
    } else {
      TurnIsRight(b - 1, pos');
      TurnHalf(b - 1, pos', HeightIn(b - 1, pos'));
    }
  }

  lemma FamilyIs(b: nat, pos: nat)
    requires b > 0 && 1 <= pos < Size(b)
    ensures pos < ParentIn(b, pos) <= Size(b) && HeightIn(b, ParentIn(b, pos)) == HeightIn(b, pos) + 1
  {
    hide HeightIn, RightIn, Size;
    FamilyIn(b, pos);
  }

  /** The node at pos and its parent share the turn at height j. */
  predicate SameTurn(b: nat, pos: nat, j: nat)
    requires 1 <= pos < Size(b)
  {
    var p := ParentIn(b, pos);
    && p <= Size(b) && HeightIn(b, pos) <= j && HeightIn(b, p) <= j
    && (j < b ==> Turn(b, pos, j) == Turn(b, p, j))
  }

  lemma SameTurnHalf(b: nat, pos: nat, j: nat)
    requires 1 <= pos < Size(b) && j <= b && SameTurn(b, pos, j)
    ensures Size(b + 1) == 2 * Size(b) + 1
    ensures SameTurn(b + 1, pos, j) && SameTurn(b + 1, Size(b) + pos, j)
  {
    hide Turn, Size, HeightIn, ParentIn;
    var p := ParentIn(b, pos);
    HeightHalf(b, pos);
    HeightHalf(b, p);
    ParentHalf(b, pos);
    TurnTop(b, pos);
    TurnTop(b, p);
    if j < b {
      TurnHalf(b, pos, j);
      TurnHalf(b, p, j);
    }
  }

  lemma SameTurnTop(b: nat, pos: nat)
    requires b > 0 && 1 <= pos < Size(b) && HeightIn(b, pos) < b
    ensures SameTurn(b, pos, b)
  {
    hide Turn, Size, HeightIn;
    FamilyIs(b, pos);
  }

  /** Above a parent the path of its children is its own path. */
  lemma {:induction false} TurnParent(b: nat, pos: nat, j: nat)
    requires b > 0 && 1 <= pos < Size(b) && HeightIn(b, pos) < j < b
    ensures SameTurn(b, pos, j)
  {
    hide *;
    PowStep(b);
    if b > 1 { PowStep(b - 1); }
    var half := Size(b - 1);
    HeightRoot(b - 1);
    HeightHalf(b - 1, half);
    if pos != half && pos != 2 * half {
      var pos' := if pos > half then pos - half else pos;
      HeightHalf(b - 1, pos');
      if j == b - 1 { SameTurnTop(b - 1, pos'); } else { TurnParent(b - 1, pos', j); }
      SameTurnHalf(b - 1, pos', j);
    }
  }

  lemma SameTurnIs(b: nat, pos: nat, j: nat)
    requires 1 <= pos < Size(b) && j < b && SameTurn(b, pos, j)
    ensures 1 <= ParentIn(b, pos) <= Size(b) && HeightIn(b, pos) <= j && HeightIn(b, ParentIn(b, pos)) <= j
    ensures Turn(b, pos, j) == Turn(b, ParentIn(b, pos), j)
  {}

  lemma {:induction false} PeelStable(k: nat, m: nat, rest: nat)
    requires k <= m && rest < Size(k)
    ensures Peel(m, rest, 0) == Peel(k, rest, 0)
    decreases m
  {
    hide *;
    if k < m {
      SizeMonotone(k, m - 1);
      PeelSmall(m, rest, 0);
      PeelStable(k, m - 1, rest);
    }
  }

  /** The turns of the path to a position and its height, computed from its 0-based index. */
  function PeakMapHeight(index: nat): (r: (nat, nat)) {
    Peel(BitLen(index), index, 0)
  }

  lemma PeakMapAny(k: nat, index: nat)
    requires index < Size(k)
    ensures PeakMapHeight(index) == Peel(k, index, 0)
  {
    hide Peel, BitLen, Size, Pow2;
    BitLenBound(index);
    var b := BitLen(index);
    var m := if k < b then b else k;
    PeelStable(k, m, index);
    PeelStable(b, m, index);
  }

  /** The peak map of a position: the turn at its own height, and the turns its parent sees above. */
  lemma PeakMapPath(pos: nat, j: nat)
    requires pos >= 1 && j > Height(pos)
    ensures PeakMapHeight(pos - 1).1 == Height(pos)
    ensures BitAt(PeakMapHeight(pos - 1).0, Height(pos)) == IsRight(pos)
    ensures BitAt(PeakMapHeight(pos - 1).0, j) == BitAt(PeakMapHeight(Parent(pos) - 1).0, j)
  {
    hide *;
    var b := Parent(pos) + j;
    Family(pos);
    PeakMapAny(b, pos - 1);
    PeakMapAny(b, Parent(pos) - 1);
    HeightAny(b, pos);
    HeightAny(b, Parent(pos));
    RightAny(b, pos);
    PeelHeight(b, pos);
    TurnIsRight(b, pos);
    PeelTurn(b, pos, 0, Height(pos));
    PeelTurn(b, pos, 0, j);
    PeelTurn(b, Parent(pos), 0, j);
    ParentAny(b, pos);
    TurnParent(b, pos, j);
    SameTurnIs(b, pos, j);
  }

  lemma ParentAny(k: nat, pos: nat)
    requires 1 <= pos < Size(k)
    ensures ParentIn(k, pos) == Parent(pos)
  {
    hide Size, Height, HeightIn, IsRight, RightIn;
    HeightAny(k, pos);
    RightAny(k, pos);
  }

  // ----- the functions of the program -----

  /** Smallest number of the form 2^b - 1 that is not below n: all ones shifted right. */
  function AllOnes(n: nat): (m: nat) { Pow2(BitLen(n)) - 1 }

  lemma PowPositive(b: nat)
    ensures Pow2(b) == 1 <==> b == 0
  {}

  /** peak_map_height. */
  method ComputePeakMapHeight(index: nat) returns (bits: nat, height: nat)
    ensures (bits, height) == PeakMapHeight(index)
  {
    if index == 0 { return 0, 0; }
    hide Peel, Pow2, Size, BitLen;
    var rest, peakSize := index, AllOnes(index);
    bits := 0;
    ghost var b := BitLen(index);
    while peakSize != 0
      invariant peakSize == Pow2(b) - 1
      invariant Peel(b, rest, bits) == PeakMapHeight(index)
      decreases peakSize
    {
      PowPositive(b);
      PowStep(b);
      if rest >= peakSize { PeelBig(b, rest, bits); } else { PeelSmall(b, rest, bits); }
      bits := 2 * bits;
      if rest >= peakSize {
        rest := rest - peakSize;
        bits := bits + 1;
      }
      peakSize := peakSize / 2;
      b := b - 1;
    }
    PowPositive(b);
    PeelNone(rest, bits);
    height := rest;
  }

  /** bintree_postorder_height: position 0 is not in the tree and counts as a leaf. */
  method PostorderHeight(pos: nat) returns (height: nat)
    ensures height == if pos == 0 then 0 else Height(pos)
  {
    hide *;
    if pos == 0 { return 0; }
    var bits;
    bits, height := ComputePeakMapHeight(pos - 1);
    PeakMapPath(pos, Height(pos) + 1);
  }

  /** bits holds the turns of the path from the node at pos upwards. */
  ghost predicate Turns(bits: nat, pos: nat, height: nat)
  {
    && pos >= 1 && height == Height(pos)
    && BitAt(bits, height) == IsRight(pos)
    && forall j :: j > height ==> BitAt(bits, j) == BitAt(PeakMapHeight(pos - 1).0, j)
  }

  lemma TurnsStart(pos: nat)
    requires pos >= 1
    ensures Turns(PeakMapHeight(pos - 1).0, pos, PeakMapHeight(pos - 1).1)
  {
    hide PeakMapHeight, BitAt, Height, IsRight;
    PeakMapPath(pos, Height(pos) + 1);
  }

  /** One peak map serves for the whole climb. */
  lemma TurnsClimb(bits: nat, pos: nat, height: nat)
    requires pos >= 1 && Turns(bits, pos, height)
    ensures Turns(bits, Parent(pos), height + 1) && height == Height(pos)
    ensures BitAt(bits, height) == IsRight(pos)
    ensures Parent(pos) == pos + if BitAt(bits, height) then 1 else 2 * Pow2(height)
    ensures Sibling(pos) == if BitAt(bits, height) then pos + 1 - 2 * Pow2(height) else pos + 2 * Pow2(height) - 1
  {
    hide PeakMapHeight, BitAt, Height, IsRight, Size, Pow2;
    Family(pos);
    PeakMapPath(Parent(pos), height + 2);
    forall j | j > height
      ensures BitAt(bits, j) == BitAt(PeakMapHeight(Parent(pos) - 1).0, j)
    {
      PeakMapPath(pos, j);
    }
  }

  /** family: the positions of the parent and of the sibling. */
  method ComputeFamily(pos: nat) returns (parent: nat, sibling: nat)
    requires pos >= 1
    ensures parent == Parent(pos) && sibling == Sibling(pos)
  {
    hide *;
    var bits, height := ComputePeakMapHeight(pos - 1);
    TurnsStart(pos);
    TurnsClimb(bits, pos, height);
    Family(pos);
    var peak := Pow2(height);
    if BitAt(bits, height) {
      return pos + 1, pos + 1 - 2 * peak;
    } else {
      return pos + 2 * peak, pos + 2 * peak - 1;
    }
  }

  /** The node and its ancestors, as far as they lie in a range of the given size. */
  function PathTo(pos: nat, last: nat): (path: seq<nat>)
    requires pos >= 1
    decreases last - pos
  {
    if pos > last then [] else [pos] + PathTo(Parent(pos), last)
  }

  lemma PathToStep(front: seq<nat>, pos: nat, last: nat)
    requires 1 <= pos
    ensures pos <= last ==> front + PathTo(pos, last) == front + [pos] + PathTo(Parent(pos), last)
    ensures pos > last ==> PathTo(pos, last) == []
  {
    hide Parent;
  }

  /** path. */
  method ComputePath(pos: nat, last: nat) returns (path: seq<nat>)
    requires pos >= 1
    ensures path == PathTo(pos, last)
  {
    hide *;
    var bits, height := ComputePeakMapHeight(pos - 1);
    TurnsStart(pos);
    var current := pos;
    path := [];
    while current <= last
      invariant current >= 1 && Turns(bits, current, height)
      invariant path + PathTo(current, last) == PathTo(pos, last)
      decreases last + 1 - current
    {
      TurnsClimb(bits, current, height);
      PathToStep(path, current, last);
      path := path + [current];
      current := current + if BitAt(bits, height) then 1 else 2 * Pow2(height);
      height := height + 1;
    }
    PathToStep(path, current, last);
  }

  /** The nodes of the path are the node and the nodes it lies below. */
  lemma {:induction false} PathToBelow(pos: nat, last: nat, x: nat)
    requires pos >= 1 && x >= 1
    ensures x in PathTo(pos, last) <==> x <= last && Below(pos, x)
    decreases last - pos
  {
    hide *;
    BelowIs(pos, pos);
    PathToStep([], pos, last);
    assert forall s: seq<nat> :: [] + s == s;
    if pos <= last {
      PathToBelow(Parent(pos), last, x);
      BelowParent(pos, x);
    } else {
      BelowIs(pos, x);
    }
  }

  // ----- counting leaves -----

  /** Number of leaves among the first n positions. */
  function LeafCount(n: nat): (c: nat)
    ensures c <= n
  {
    if n == 0 then 0 else LeafCount(n - 1) + if IsLeaf(n) then 1 else 0
  }

  lemma LeafCountStep(pos: nat)
    requires pos >= 1
    ensures LeafCount(pos) == LeafCount(pos - 1) + if IsLeaf(pos) then 1 else 0
    ensures LeafCount(0) == 0 && IsLeaf(pos) == (Height(pos) == 0)
  {
    hide Height;
  }

  lemma {:induction false} LeafCountShift(k: nat, r: nat)
    requires r <= Size(k)
    ensures LeafCount(Size(k) + r) == LeafCount(Size(k)) + LeafCount(r)
  {
    hide *;
    if r == 0 {
      LeafCountStep(1);
    } else {
      LeafCountShift(k, r - 1);
      HeightShift(k, r);
      LeafCountStep(r);
      LeafCountStep(Size(k) + r);
    }
  }

  lemma {:induction false} LeafCountPerfect(k: nat)
    ensures LeafCount(Size(k)) == Pow2(k)
  {
    hide *;
    PowStep(k + 1);
    LeafCountStep(Size(k));
    HeightShift(k, 1);
    if k > 0 {
      PowStep(k);
      LeafCountPerfect(k - 1);
      LeafCountShift(k - 1, Size(k - 1));
    }
  }

  lemma LeafCountHalf(k: nat, r: nat)
    requires r <= Size(k)
    ensures LeafCount(Size(k) + r) == Pow2(k) + LeafCount(r) && LeafCount(0) == 0
  {
    hide *;
    LeafCountStep(1);
    LeafCountPerfect(k);
    LeafCountShift(k, r);
  }

  /** The peak map of a size is the number of its leaves, not counting an unfinished mountain. */
  lemma {:induction false} PeelLeaves(b: nat, size: nat)
    requires size < Size(b)
    ensures LeafCount(size) == Peel(b, size, 0).0 + if Peel(b, size, 0).1 == 0 then 0 else 1
  {
    hide *;
    PowStep(b + 1);
    LeafCountHalf(0, 0);
    if b == 0 {
      PeelNone(0, 0);
    } else {
      PowStep(b);
      var half := Size(b - 1);
      if size == 2 * half {
        PeelRoot(b, 0);
        LeafCountHalf(b - 1, half);
        LeafCountPerfect(b - 1);
      } else if size < half {
        PeelSmall(b, size, 0);
        PeelLeaves(b - 1, size);
      } else {
        PeelBig(b, size, 0);
        PeelLeaves(b - 1, size - half);
        PeelNext(b - 1, size - half, 0);
        LeafCountHalf(b - 1, size - half);
      }
    }
  }

  function LeavesOfPeaks(sizes: seq<nat>): (n: nat) {
    if sizes == [] then 0 else LeavesOfPeaks(sizes[..|sizes| - 1]) + (sizes[|sizes| - 1] + 1) / 2
  }

  lemma NoPeaks()
    ensures LeavesOfPeaks([]) == 0
  {}

  lemma OnePeakMore(sizes: seq<nat>, peakSize: nat)
    ensures LeavesOfPeaks(sizes + [peakSize]) == LeavesOfPeaks(sizes) + (peakSize + 1) / 2
  {
    assert (sizes + [peakSize])[..|sizes|] == sizes;
  }

  /** One size tried, and the next one to try. */
  lemma PeelPeak(b: nat, left: nat, peakSize: nat)
    requires peakSize == Pow2(b) - 1
    ensures b == 0 <==> peakSize == 0
    ensures b > 0 ==> peakSize / 2 == Pow2(b - 1) - 1
    ensures b > 0 && left < peakSize ==> Peel(b, left, 0) == Peel(b - 1, left, 0)
    ensures b > 0 && left >= peakSize ==>
              && Peel(b, left, 0).0 == (peakSize + 1) / 2 + Peel(b - 1, left - peakSize, 0).0
              && Peel(b, left, 0).1 == Peel(b - 1, left - peakSize, 0).1
  {
    hide *;
    PowPositive(b);
    if b > 0 {
      PowStep(b);
      if left >= peakSize {
        PeelBig(b, left, 0);
        PeelNext(b - 1, left - peakSize, 0);
      } else {
        PeelSmall(b, left, 0);
      }
    }
  }

  lemma PeakMapStart(size: nat)
    ensures AllOnes(size) == Pow2(BitLen(size)) - 1 && PeakMapHeight(size) == Peel(BitLen(size), size, 0)
    ensures BitLen(0) == 0
  {}

  /** peak_sizes_height, of which n_leaves uses the number of leaves of the peaks and the rest. */
  method ComputePeakSizesHeight(size: nat) returns (sizes: seq<nat>, height: nat)
    ensures LeavesOfPeaks(sizes) == PeakMapHeight(size).0 && height == PeakMapHeight(size).1
  {
    hide *;
    NoPeaks();
    PeakMapStart(size);
    if size == 0 {
      PeelNone(0, 0);
      return [], 0;
    }
    var left, peakSize := size, AllOnes(size);
    sizes := [];
    ghost var b := BitLen(size);
    while peakSize != 0
      invariant peakSize == Pow2(b) - 1
      invariant LeavesOfPeaks(sizes) + Peel(b, left, 0).0 == PeakMapHeight(size).0
      invariant Peel(b, left, 0).1 == PeakMapHeight(size).1
      decreases peakSize
    {
      PeelPeak(b, left, peakSize);
      if left >= peakSize {
        OnePeakMore(sizes, peakSize);
        sizes := sizes + [peakSize];
        left := left - peakSize;
      }
      peakSize := peakSize / 2;
      b := b - 1;
    }
    PeelPeak(b, left, peakSize);
    PeelNone(left, 0);
    height := left;
  }

  /** n_leaves. */
  method NLeaves(size: nat) returns (n: nat)
    ensures n == LeafCount(size)
  {
    hide Peel, Pow2, Size, BitLen, LeafCount, PeakMapHeight;
    var sizes, height := ComputePeakSizesHeight(size);
    n := 0;
    for i := 0 to |sizes|
      invariant n == LeavesOfPeaks(sizes[..i])
    {
      assert sizes[..i + 1][..i] == sizes[..i];
      n := n + (sizes[i] + 1) / 2;
    }
    assert sizes[..|sizes|] == sizes;
    if height != 0 { n := n + 1; }
    LeafCountOfMap(size);
  }

  lemma LeafCountOfMap(size: nat)
    ensures LeafCount(size) == PeakMapHeight(size).0 + if PeakMapHeight(size).1 == 0 then 0 else 1
  {
    hide *;
    PeakMapAny(size, size);
    PeelLeaves(size, size);
  }

  /** Size of the range with n leaves. */
  function MmrSize(n: nat): (s: nat) { 2 * n - PopCount(n) }

  /** insertion_to_pmmr_index: position of the n-th leaf. */
  function LeafPos(n: nat): (pos: nat) {
    if n == 0 then 0 else 2 * (n - 1) - PopCount(n - 1) + 1
  }

  lemma {:induction false} PopCountTop(b: nat, m: nat)
    requires m < Pow2(b)
    ensures PopCount(Pow2(b) + m) == 1 + PopCount(m)
  {
    hide *;
    PowStep(b + 1);
    PopCountStep(Pow2(b) + m);
    PopCountStep(m);
    PopCountStep(0);
    if b > 0 {
      PowStep(b);
      HalfOf(Pow2(b - 1), m);
      PopCountTop(b - 1, m / 2);
    }
  }

  lemma PopCountStep(n: nat)
    ensures PopCount(n) == if n == 0 then 0 else n % 2 + PopCount(n / 2)
  {}

  lemma HalfOf(a: nat, m: nat)
    ensures (2 * a + m) / 2 == a + m / 2 && (2 * a + m) % 2 == m % 2 && (m < 2 * a ==> m / 2 < a)
  {}

  lemma MmrSizeIs(n: nat)
    ensures MmrSize(n) == 2 * n - PopCount(n) && MmrSize(0) == 0
  {}

  lemma {:induction false} PeelMmrSize(b: nat, n: nat)
    requires n < Pow2(b)
    ensures MmrSize(n) < Size(b) && Peel(b, MmrSize(n), 0) == (n, 0)
  {
    hide *;
    MmrSizeIs(n);
    PowStep(b + 1);
    if b == 0 {
      PeelNone(0, 0);
    } else {
      PowStep(b);
      if n < Pow2(b - 1) {
        PeelMmrSize(b - 1, n);
        PeelSmall(b, MmrSize(n), 0);
      } else {
        var m := n - Pow2(b - 1);
        MmrSizeIs(m);
        PeelMmrSize(b - 1, m);
        PopCountTop(b - 1, m);
        PeelBig(b, MmrSize(n), 0);
        PeelNext(b - 1, MmrSize(m), 0);
      }
    }
  }

  /** A range of n leaves has n leaves, and the next position is a leaf. */
  lemma MmrSizeLeaves(n: nat)
    ensures LeafCount(MmrSize(n)) == n && IsLeaf(MmrSize(n) + 1)
    ensures LeafPos(n + 1) == MmrSize(n) + 1 && LeafCount(LeafPos(n + 1)) == n + 1
  {
    hide Peel, Height, BitLen, Pow2, Size, LeafCount, IsLeaf, PopCount;
    BitLenBound(n);
    PeelMmrSize(BitLen(n), n);
    PeelLeaves(BitLen(n), MmrSize(n));
    PeelHeight(BitLen(n), MmrSize(n) + 1);
    HeightAny(BitLen(n), MmrSize(n) + 1);
    LeafCountStep(MmrSize(n) + 1);
  }

  lemma {:induction false} LeafCountMonotone(a: nat, b: nat)
    requires a <= b
    ensures LeafCount(a) <= LeafCount(b) <= LeafCount(a) + (b - a)
    decreases b
  {
    hide *;
    if a < b {
      LeafCountStep(b);
      LeafCountMonotone(a, b - 1);
    }
  }

  /** insertion_to_pmmr_index and n_leaves are inverse to each other on leaves. */
  lemma LeafPosInverse(pos: nat)
    requires pos >= 1 && IsLeaf(pos)
    ensures LeafCount(pos) >= 1 && LeafPos(LeafCount(pos)) == pos
    ensures MmrSize(LeafCount(pos) - 1) == pos - 1
  {
    hide *;
    LeafCountStep(pos);
    var n := LeafCount(pos - 1);
    MmrSizeLeaves(n);
    var q := LeafPos(n + 1);
    LeafCountStep(q);
    if q < pos {
      LeafCountMonotone(q, pos - 1);
    } else if pos < q {
      LeafCountMonotone(pos, q - 1);
    }
  }
}
