/** Finding the block that created an output, from the output MMR sizes of the headers. */
module HeaderSearch {
  import opened AppendOnly
  import opened Outputs

  ghost predicate Increasing(sizes: seq<nat>) {
    forall i, j :: 0 <= i < j < |sizes| ==> sizes[i] < sizes[j]
  }

  /** Block k put the output at the position into the tree. */
  ghost predicate CreatedBy(sizes: seq<nat>, pos: nat, k: nat) {
    k < |sizes| && pos <= sizes[k] && (k > 0 ==> sizes[k - 1] < pos)
  }

  lemma CreatedOnce(sizes: seq<nat>, pos: nat, j: nat, k: nat)
    requires Increasing(sizes) && CreatedBy(sizes, pos, j) && CreatedBy(sizes, pos, k)
    ensures j == k
  {}

  /** Every position up to the end has its block. */
  lemma {:induction false} Creator(sizes: seq<nat>, pos: nat, n: nat) returns (k: nat)
    requires n < |sizes| && pos <= sizes[n]
    ensures CreatedBy(sizes, pos, k)
  {
    if n > 0 && pos <= sizes[n - 1] { k := Creator(sizes, pos, n - 1); } else { k := n; }
  }

  datatype Search = Running(low: nat, high: nat) | Found(height: nat)

  /** One turn of the loop of get_header_for_output. */
  function Turn(sizes: seq<nat>, pos: nat, s: Search): (r: Search)
    requires s.Running? ==> s.low <= s.high < |sizes|
    ensures r.Running? ==> r.low <= r.high < |sizes|
    ensures r.Found? && s.Running? ==> r.height < |sizes|
  {
    match s
    case Found(_) => s
    case Running(low, high) =>
      var height := high - (high - low) / 2;
      if height == 0 then Found(0)
      else if pos > sizes[height] then Running(height, high)
      else if pos < sizes[height - 1] then Running(low, height)
      else if pos == sizes[height - 1] then Found(height - 1)
      else Found(height)
  }

  function Turns(sizes: seq<nat>, pos: nat, n: nat): (r: Search)
    requires |sizes| > 0
    ensures r.Running? ==> r.low <= r.high < |sizes|
  {
    if n == 0 then Running(0, |sizes| - 1) else Turn(sizes, pos, Turns(sizes, pos, n - 1))
  }

  lemma TurnsStep(sizes: seq<nat>, pos: nat, n: nat)
    requires |sizes| > 0
    ensures Turns(sizes, pos, 0) == Running(0, |sizes| - 1)
    ensures n > 0 ==> Turns(sizes, pos, n) == Turn(sizes, pos, Turns(sizes, pos, n - 1))
  {
    hide Turn;
  }

  lemma TurnFound(sizes: seq<nat>, pos: nat, s: Search)
    requires s.Found?
    ensures Turn(sizes, pos, s) == s
  {}

  /** The positions for which the search ends. */
  predicate Reachable(sizes: seq<nat>, pos: nat)
    requires |sizes| > 0
  {
    |sizes| == 1 || sizes[0] <= pos <= sizes[|sizes| - 1]
  }

  /** What the bounds say about the position while the search goes on. */
  ghost predicate Bracketed(sizes: seq<nat>, pos: nat, low: nat, high: nat)
  {
    && low <= high < |sizes| && pos <= sizes[high]
    && (if low == 0 then sizes[0] <= pos else sizes[low] < pos)
  }

  lemma TurnNarrows(sizes: seq<nat>, pos: nat, low: nat, high: nat)
    requires Increasing(sizes) && Bracketed(sizes, pos, low, high)
    ensures match Turn(sizes, pos, Running(low, high))
            case Running(l, h) => Bracketed(sizes, pos, l, h) && h - l < high - low
            case Found(k) => CreatedBy(sizes, pos, k)
  {
    var height := high - (high - low) / 2;
    if height > 0 {
      assert sizes[height - 1] < sizes[height];
      if 0 < low < high { assert sizes[low] < sizes[high]; }
      if height >= 2 { assert sizes[height - 2] < sizes[height - 1]; }
    }
  }

  /** get_header_for_output: ends, with the one block that created the output. */
  method GetHeaderForOutput(sizes: seq<nat>, pos: nat) returns (height: nat)
    requires |sizes| > 0 && Increasing(sizes) && Reachable(sizes, pos)
    ensures height < |sizes|
    ensures |sizes| > 1 ==> CreatedBy(sizes, pos, height)
  {
    var low: nat, high: nat := 0, |sizes| - 1;
    if high == 0 { return 0; }
    while true
      invariant Bracketed(sizes, pos, low, high)
      decreases high - low
    {
      TurnNarrows(sizes, pos, low, high);
      var searchHeight := high - (high - low) / 2;
      if searchHeight == 0 {
        return 0;
      }
      if pos > sizes[searchHeight] {
        low := searchHeight;
      } else if pos < sizes[searchHeight - 1] {
        high := searchHeight;
      } else {
        if pos == sizes[searchHeight - 1] {
          return searchHeight - 1;
        }
        return searchHeight;
      }
    }
  }

  /** Beyond the last block the lower bound only rises to the head, before the first the upper one only falls. */
  lemma {:induction false} Endless(sizes: seq<nat>, pos: nat, n: nat)
    requires |sizes| > 1 && Increasing(sizes) && !Reachable(sizes, pos)
    ensures Turns(sizes, pos, n).Running?
    ensures pos > sizes[|sizes| - 1] ==> Turns(sizes, pos, n).high == |sizes| - 1
    ensures pos < sizes[0] ==> Turns(sizes, pos, n).low == 0 && Turns(sizes, pos, n).high > 0
  {
    if n > 0 {
      Endless(sizes, pos, n - 1);
      var s := Turns(sizes, pos, n - 1);
      var height := s.high - (s.high - s.low) / 2;
      assert height > 0;
      if pos > sizes[|sizes| - 1] {
        assert height < |sizes| - 1 ==> sizes[height] < sizes[|sizes| - 1];
      } else {
        assert height > 1 ==> sizes[0] < sizes[height - 1];
      }
    }
  }

  lemma {:induction false} EndsWithin(sizes: seq<nat>, pos: nat, n: nat)
    requires |sizes| > 1 && Increasing(sizes) && Reachable(sizes, pos)
    ensures match Turns(sizes, pos, n)
            case Running(l, h) => Bracketed(sizes, pos, l, h) && h - l + n < |sizes|
            case Found(k) => CreatedBy(sizes, pos, k)
  {
    hide Turn, Increasing, Turns;
    TurnsStep(sizes, pos, n);
    if n > 0 {
      EndsWithin(sizes, pos, n - 1);
      var s := Turns(sizes, pos, n - 1);
      if s.Running? { TurnNarrows(sizes, pos, s.low, s.high); } else { TurnFound(sizes, pos, s); }
    }
  }

  /** The search ends exactly for the reachable positions. */
  lemma EndsExactly(sizes: seq<nat>, pos: nat)
    requires |sizes| > 0 && Increasing(sizes)
    ensures (exists n :: Turns(sizes, pos, n).Found?) <==> Reachable(sizes, pos)
  {
    if |sizes| == 1 {
      assert Turns(sizes, pos, 0) == Running(0, 0);
      assert Turns(sizes, pos, 1) == Found(0);
    } else if Reachable(sizes, pos) {
      EndsWithin(sizes, pos, |sizes|);
      assert Turns(sizes, pos, |sizes|).Found?;
    } else {
      forall n: nat ensures Turns(sizes, pos, n).Running? { Endless(sizes, pos, n); }
    }
  }

  /** The first output of the first block, which is never found once there is a second block. */
  lemma FirstOutputNotFound(n: nat)
    ensures CreatedBy([3, 4], 1, 0) && Turns([3, 4], 1, n).Running?
  {
    hide Turns;
    Endless([3, 4], 1, n);
  }

  // Coinbase maturity

  datatype Maturity = Mature | Immature | NoHeader

  function IsCoinbase(id: Elmt): bool {
    id != [] && id[0] == 1
  }

  /** The first byte of an identifier tells plain outputs, 0, from coinbase outputs, 1. */
  lemma Features(commit: Elmt)
    ensures !IsCoinbase([0] + commit) && IsCoinbase([1] + commit) && CommitOf([0] + commit) == CommitOf([1] + commit) == commit
  {}

  /** The input spends a coinbase whose position the index has. */
  ghost predicate Spends(index: map<Elmt, nat>, inputs: seq<Elmt>, i: nat) {
    i < |inputs| && IsCoinbase(inputs[i]) && CommitOf(inputs[i]) in index
  }

  /** An output is not after the end of a block exactly when a block up to that one created it. */
  lemma CreatedBefore(sizes: seq<nat>, pos: nat, k: nat, cutoff: nat)
    requires Increasing(sizes) && CreatedBy(sizes, pos, k) && cutoff < |sizes|
    ensures pos <= sizes[cutoff] <==> k <= cutoff
  {
    if k < cutoff {
      assert sizes[k] < sizes[cutoff];
    } else if cutoff < k {
      assert sizes[cutoff] <= sizes[k - 1];
    }
  }

  /**
   * verify_coinbase_maturity: the test of the greatest position decides whether every
   * coinbase that is spent was created at least the maturity before the height.
   */
  method VerifyCoinbaseMaturity(index: map<Elmt, nat>, sizes: seq<nat>, inputs: seq<Elmt>, height: nat, maturity: nat)
    returns (r: Maturity)
    requires |sizes| > 0 && Increasing(sizes)
    requires forall c :: c in index ==> 1 <= index[c] <= sizes[|sizes| - 1]
    ensures r == NoHeader <==>
              (exists i: nat :: Spends(index, inputs, i)) && height - maturity >= |sizes|
    ensures r != NoHeader ==>
              (r == Mature <==>
               forall i: nat, k: nat :: Spends(index, inputs, i) && CreatedBy(sizes, index[CommitOf(inputs[i])], k) ==>
                                k <= height - maturity)
  {
    var pos := 0;
    ghost var top := 0;
    for n := 0 to |inputs|
      invariant forall i :: 0 <= i < n && Spends(index, inputs, i) ==> index[CommitOf(inputs[i])] <= pos
      invariant pos > 0 ==> top < n && Spends(index, inputs, top) && index[CommitOf(inputs[top])] == pos
    {
      if IsCoinbase(inputs[n]) && CommitOf(inputs[n]) in index {
        if index[CommitOf(inputs[n])] > pos {
          pos := index[CommitOf(inputs[n])];
          top := n;
        }
      }
    }
    if pos == 0 {
      forall i: nat ensures !Spends(index, inputs, i) {}
      return Mature;
    }
    ghost var k := Creator(sizes, pos, |sizes| - 1);
    if height < maturity {
      return Immature;
    }
    var cutoffHeight := height - maturity;
    if cutoffHeight >= |sizes| {
      return NoHeader;
    }
    CreatedBefore(sizes, pos, k, cutoffHeight);
    if pos > sizes[cutoffHeight] {
      return Immature;
    }
    forall i: nat, j: nat | Spends(index, inputs, i) && CreatedBy(sizes, index[CommitOf(inputs[i])], j)
      ensures j <= cutoffHeight
    {
      CreatedBefore(sizes, index[CommitOf(inputs[i])], j, cutoffHeight);
    }
    r := Mature;
  }
}
