/**
  Files that hold some positions of a longer sequence, in order.

  The place of a kept position in the file is its rank among the kept positions,
  and removing places from the file is removing positions from what is kept.
 */
module Gathering {
  import opened AppendOnly
  import opened Bitmaps

  /** The elements at the kept positions among the first n; positions count from 1. */
  function Gather(es: seq<Elmt>, kept: set<nat>, n: nat): (r: seq<Elmt>)
    requires n <= |es|
  {
    if n == 0 then [] else Gather(es, kept, n - 1) + if n in kept then [es[n - 1]] else []
  }

  lemma GatherStep(es: seq<Elmt>, kept: set<nat>, n: nat)
    requires 1 <= n <= |es|
    ensures n in kept ==> Gather(es, kept, n) == Gather(es, kept, n - 1) + [es[n - 1]]
    ensures n !in kept ==> Gather(es, kept, n) == Gather(es, kept, n - 1)
    ensures Gather(es, kept, 0) == []
  {}

  lemma RankStep(kept: set<nat>, n: nat)
    requires n >= 1
    ensures Rank(kept, n) == Rank(kept, n - 1) + if n in kept then 1 else 0
    ensures 0 !in kept ==> Rank(kept, 0) == 0
  {
    assert Ascending(kept, 0) == [];
  }

  lemma {:induction false} GatherLength(es: seq<Elmt>, kept: set<nat>, n: nat)
    requires n <= |es| && 0 !in kept
    ensures |Gather(es, kept, n)| == Rank(kept, n)
  {
    hide *;
    RankStep(kept, 1);
    if n == 0 {
      GatherNone(es, kept);
    } else {
      GatherLength(es, kept, n - 1);
      GatherStep(es, kept, n);
      RankStep(kept, n);
    }
  }

  lemma GatherNone(es: seq<Elmt>, kept: set<nat>)
    ensures Gather(es, kept, 0) == []
  {}

  lemma {:induction false} GatherPrefix(es: seq<Elmt>, kept: set<nat>, m: nat, n: nat)
    requires m <= n <= |es|
    ensures |Gather(es, kept, m)| <= |Gather(es, kept, n)|
    ensures Gather(es, kept, n)[..|Gather(es, kept, m)|] == Gather(es, kept, m)
    decreases n
  {
    hide *;
    if m < n {
      GatherPrefix(es, kept, m, n - 1);
      GatherStep(es, kept, n);
    }
  }

  /** A kept position is found at its rank. */
  lemma GatherAt(es: seq<Elmt>, kept: set<nat>, n: nat, p: nat)
    requires 1 <= p <= n <= |es| && p in kept && 0 !in kept
    ensures 1 <= Rank(kept, p) <= |Gather(es, kept, n)|
    ensures Gather(es, kept, n)[Rank(kept, p) - 1] == es[p - 1]
  {
    hide *;
    GatherPrefix(es, kept, p, n);
    GatherStep(es, kept, p);
    GatherLength(es, kept, p);
    GatherLength(es, kept, p - 1);
    var all, upto := Gather(es, kept, n), Gather(es, kept, p);
    assert all[|upto| - 1] == all[..|upto|][|upto| - 1];
  }

  lemma {:induction false} GatherSame(es: seq<Elmt>, kept: set<nat>, es': seq<Elmt>, kept': set<nat>, n: nat)
    requires n <= |es| && n <= |es'| && es[..n] == es'[..n]
    requires forall p :: 1 <= p <= n ==> (p in kept <==> p in kept')
    ensures Gather(es, kept, n) == Gather(es', kept', n)
  {
    hide *;
    if n == 0 {
      GatherNone(es, kept);
      GatherNone(es', kept');
    } else {
      assert es[..n - 1] == es[..n][..n - 1] == es'[..n][..n - 1] == es'[..n - 1];
      assert es[n - 1] == es[..n][n - 1] == es'[..n][n - 1];
      GatherSame(es, kept, es', kept', n - 1);
      GatherStep(es, kept, n);
      GatherStep(es', kept', n);
    }
  }

  /** Positions that are all kept come out as they are. */
  lemma {:induction false} GatherMore(es: seq<Elmt>, kept: set<nat>, m: nat, n: nat)
    requires m <= n <= |es| && forall p :: m < p <= n ==> p in kept
    ensures Gather(es, kept, n) == Gather(es, kept, m) + es[m..n]
    decreases n
  {
    hide *;
    if m < n {
      GatherMore(es, kept, m, n - 1);
      GatherStep(es, kept, n);
      assert es[m..n] == es[m..n - 1] + [es[n - 1]];
    }
  }

  /** Positions that are not kept add nothing. */
  lemma {:induction false} GatherGap(es: seq<Elmt>, kept: set<nat>, m: nat, n: nat)
    requires m <= n <= |es| && forall p :: m < p <= n ==> p !in kept
    ensures Gather(es, kept, n) == Gather(es, kept, m)
    decreases n
  {
    hide *;
    if m < n {
      GatherGap(es, kept, m, n - 1);
      GatherStep(es, kept, n);
    }
  }

  lemma WithoutStep(es: seq<Elmt>, e: Elmt, drop: seq<nat>)
    ensures Without(es + [e], drop) == if |es| in drop then Without(es, drop) else Without(es, drop) + [e]
    ensures Without<Elmt>([], drop) == []
  {
    WithoutSnoc(es, e, drop);
  }

  /** Dropping places from the file is dropping positions from what is kept. */
  lemma {:induction false} GatherWithout(es: seq<Elmt>, kept: set<nat>, kept': set<nat>, drop: seq<nat>, n: nat)
    requires n <= |es| && kept' <= kept && 0 !in kept
    requires forall p :: 1 <= p <= n && p in kept ==> (p in kept' <==> Rank(kept, p) - 1 !in drop)
    ensures Without(Gather(es, kept, n), drop) == Gather(es, kept', n)
  {
    hide *;
    WithoutStep([], [], drop);
    if n == 0 {
      GatherNone(es, kept);
      GatherNone(es, kept');
    } else {
      GatherWithout(es, kept, kept', drop, n - 1);
      GatherStep(es, kept, n);
      GatherStep(es, kept', n);
      GatherLength(es, kept, n - 1);
      RankStep(kept, n);
      WithoutStep(Gather(es, kept, n - 1), es[n - 1], drop);
    }
  }

  /** Ranks of members grow strictly. */
  lemma RankIncreases(kept: set<nat>, p: nat, q: nat)
    requires p < q && q in kept
    ensures Rank(kept, p) < Rank(kept, q)
  {
    AscendingPrefix(kept, p + 1, q);
    AscendingAt(kept, q + 1, q);
  }
}
