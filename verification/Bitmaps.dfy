/**
  Bitmaps of positions, as finite sets of numbers.

  A bitmap is iterated in ascending order and answers how many members are not
  above a given position (its rank).
 */
module Bitmaps {

  lemma {:induction false} MaximumExists(s: set<nat>) returns (m: nat)
    requires s != {}
    ensures m in s && forall x :: x in s ==> x <= m
  {
    var e :| e in s;
    m := e;
    if s != {e} {
      var rest := s - {e};
      assert s == rest + {e};
      var m' := MaximumExists(rest);
      if m' > e { m := m'; }
    }
  }

  /** The greatest member, 0 for the empty bitmap. */
  function Maximum(s: set<nat>): (m: nat)
    ensures s != {} ==> m in s
    ensures forall x :: x in s ==> x <= m
    ensures s == {} ==> m == 0
  {
    if s == {} then 0 else
      assert exists m :: m in s && forall x :: x in s ==> x <= m by {
        var m := MaximumExists(s);
      }
      var m :| m in s && forall x :: x in s ==> x <= m; m
  }

  /** The positions lo..hi - 1. */
  function Range(lo: nat, hi: nat): (r: set<nat>)
    ensures forall x :: x in r <==> lo <= x < hi
  {
    if hi <= lo then {} else Range(lo, hi - 1) + {hi - 1}
  }

  /** The members below n, in ascending order. */
  function Ascending(s: set<nat>, n: nat): (r: seq<nat>)
    ensures |r| <= n
  {
    if n == 0 then [] else Ascending(s, n - 1) + if n - 1 in s then [n - 1] else []
  }

  function Members(s: set<nat>): (r: seq<nat>) { Ascending(s, Maximum(s) + 1) }

  /** Number of members not above pos. */
  function Rank(s: set<nat>, pos: nat): (c: nat)
    ensures c <= pos + 1
  {
    |Ascending(s, pos + 1)|
  }

  lemma {:induction false} AscendingMember(s: set<nat>, n: nat, x: nat)
    ensures x in Ascending(s, n) <==> x in s && x < n
  {
    if n > 0 { AscendingMember(s, n - 1, x); }
  }

  lemma {:induction false} AscendingPrefix(s: set<nat>, m: nat, n: nat)
    requires m <= n
    ensures |Ascending(s, m)| <= |Ascending(s, n)|
    ensures Ascending(s, n)[..|Ascending(s, m)|] == Ascending(s, m)
    decreases n
  {
    if m < n { AscendingPrefix(s, m, n - 1); }
  }

  /** The place of a member is the number of members below it. */
  lemma AscendingAt(s: set<nat>, n: nat, x: nat)
    requires x in s && x < n
    ensures |Ascending(s, x)| < |Ascending(s, n)| && Ascending(s, n)[|Ascending(s, x)|] == x
    ensures |Ascending(s, x + 1)| == |Ascending(s, x)| + 1
  {
    AscendingPrefix(s, x + 1, n);
    var all, upto := Ascending(s, n), Ascending(s, x + 1);
    assert all[|upto| - 1] == all[..|upto|][|upto| - 1];
  }

  /** Every place holds a member, and it is the place of that member. */
  lemma {:induction false} AscendingPlace(s: set<nat>, n: nat, i: nat)
    requires i < |Ascending(s, n)|
    ensures var x := Ascending(s, n)[i]; x in s && x < n && |Ascending(s, x)| == i
  {
    if i < |Ascending(s, n - 1)| { AscendingPlace(s, n - 1, i); }
  }

  lemma {:induction false} AscendingSorted(s: set<nat>, n: nat, i: nat, j: nat)
    requires i < j < |Ascending(s, n)|
    ensures Ascending(s, n)[i] < Ascending(s, n)[j]
  {
    if j < |Ascending(s, n - 1)| {
      AscendingSorted(s, n - 1, i, j);
    } else {
      AscendingPlace(s, n - 1, i);
    }
  }

  /** Nothing is listed where there are no members. */
  lemma {:induction false} AscendingGap(s: set<nat>, m: nat, n: nat)
    requires m <= n && forall x :: m <= x < n ==> x !in s
    ensures Ascending(s, n) == Ascending(s, m)
    decreases n
  {
    if m < n { AscendingGap(s, m, n - 1); }
  }

  /** Everything is listed where all are members. */
  lemma {:induction false} AscendingDense(s: set<nat>, m: nat, n: nat)
    requires m <= n && forall x :: m <= x < n ==> x in s
    ensures |Ascending(s, n)| == |Ascending(s, m)| + (n - m)
    decreases n
  {
    if m < n { AscendingDense(s, m, n - 1); }
  }

  /** Only members below n matter. */
  lemma {:induction false} AscendingSame(s: set<nat>, t: set<nat>, n: nat)
    requires forall x :: x < n ==> (x in s <==> x in t)
    ensures Ascending(s, n) == Ascending(t, n)
  {
    if n > 0 { AscendingSame(s, t, n - 1); }
  }

  /** Disjoint parts of a bitmap add up. */
  lemma {:induction false} AscendingSplit(s: set<nat>, t: set<nat>, u: set<nat>, n: nat)
    requires forall x :: x < n ==> (x in u <==> x in s || x in t) && !(x in s && x in t)
    ensures |Ascending(u, n)| == |Ascending(s, n)| + |Ascending(t, n)|
  {
    if n > 0 { AscendingSplit(s, t, u, n - 1); }
  }

  /** A rank counts the members from the start of the full list. */
  lemma MembersRank(s: set<nat>, pos: nat)
    ensures Rank(s, pos) <= |Members(s)|
    ensures Members(s)[..Rank(s, pos)] == Ascending(s, pos + 1)
  {
    var n := Maximum(s) + 1;
    if pos + 1 <= n {
      AscendingPrefix(s, pos + 1, n);
    } else {
      AscendingGap(s, n, pos + 1);
    }
  }
}
