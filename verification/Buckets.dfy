/** How the pool groups transactions for a block: their fees, the walk over the entries, and the order it ends with. */
module Buckets {
  import opened Wrappers

  type Commit = nat

  datatype Tx = Tx(id: nat, inputs: seq<Commit>, outputs: seq<Commit>, kernels: nat, fee: nat)

  // Fees

  function Weight(inputs: nat, outputs: nat, kernels: nat): (w: nat)
    ensures w >= 1
  {
    if 4 * outputs + kernels > inputs then 4 * outputs + kernels - inputs else 1
  }

  function PerWeight(fee: nat, weight: nat): (rate: nat)
    requires weight >= 1
  {
    fee * 1000 / weight
  }

  /** The fee of a transaction for its weight. */
  function Rate(tx: Tx): (rate: nat) {
    PerWeight(tx.fee, Weight(|tx.inputs|, |tx.outputs|, tx.kernels))
  }

  /** An output weighs four, a kernel one, and an input takes one away. */
  lemma WeightSteps(inputs: nat, outputs: nat, kernels: nat)
    requires inputs < 4 * outputs + kernels
    ensures Weight(inputs, outputs + 1, kernels) == Weight(inputs, outputs, kernels) + 4
    ensures Weight(inputs, outputs, kernels + 1) == Weight(inputs, outputs, kernels) + 1
    ensures inputs > 0 ==> Weight(inputs - 1, outputs, kernels) == Weight(inputs, outputs, kernels) + 1
    ensures Weight(4 * outputs + kernels, outputs, kernels) == Weight(0, 0, 0) == 1 && Weight(0, 1, 1) == 5
  {}

  /** The rate is a thousand times the fee for a unit of weight, rounded down. */
  lemma RateIs(tx: Tx)
    requires |tx.inputs| < 4 * |tx.outputs| + tx.kernels
    ensures var w := 4 * |tx.outputs| + tx.kernels - |tx.inputs|; Rate(tx) * w <= 1000 * tx.fee < (Rate(tx) + 1) * w
  {
    var w := 4 * |tx.outputs| + tx.kernels - |tx.inputs|;
    assert tx.fee * 1000 == (tx.fee * 1000 / w) * w + (tx.fee * 1000) % w;
  }

  function Inputs(txs: seq<Tx>): (r: multiset<Commit>) {
    if txs == [] then multiset{} else Inputs(txs[..|txs| - 1]) + multiset(txs[|txs| - 1].inputs)
  }

  function Outputs(txs: seq<Tx>): (r: multiset<Commit>) {
    if txs == [] then multiset{} else Outputs(txs[..|txs| - 1]) + multiset(txs[|txs| - 1].outputs)
  }

  function Kernels(txs: seq<Tx>): (r: nat) {
    if txs == [] then 0 else Kernels(txs[..|txs| - 1]) + txs[|txs| - 1].kernels
  }

  function Fees(txs: seq<Tx>): (r: nat) {
    if txs == [] then 0 else Fees(txs[..|txs| - 1]) + txs[|txs| - 1].fee
  }

  /** The fee of the aggregate for its weight: what is both created and spent is cut through. */
  function Combined(txs: seq<Tx>): (rate: nat) {
    PerWeight(Fees(txs), Weight(|Inputs(txs) - Outputs(txs)|, |Outputs(txs) - Inputs(txs)|, Kernels(txs)))
  }

  /** What a bucket with these transactions pays for its weight. */
  function Value(txs: seq<Tx>): (rate: nat) {
    if |txs| == 1 then Rate(txs[0]) else Combined(txs)
  }

  lemma MoreIsCut(a: multiset<Commit>, b: multiset<Commit>, more: multiset<Commit>, others: multiset<Commit>)
    ensures |a * b| <= |(a + more) * (b + others)|
  {
    var small, large := a * b, (a + more) * (b + others);
    assert small <= large;
    assert large == small + (large - small);
  }

  lemma Pushed(txs: seq<Tx>, tx: Tx)
    ensures Inputs(txs + [tx]) == Inputs(txs) + multiset(tx.inputs)
    ensures Outputs(txs + [tx]) == Outputs(txs) + multiset(tx.outputs)
    ensures Kernels(txs + [tx]) == Kernels(txs) + tx.kernels && Fees(txs + [tx]) == Fees(txs) + tx.fee
  {
    assert (txs + [tx])[..|txs|] == txs;
  }

  /** The weight that the value of a bucket is taken for. */
  function WeightOf(txs: seq<Tx>): (w: nat)
    ensures w >= 1
  {
    if |txs| == 1 then Weight(|txs[0].inputs|, |txs[0].outputs|, txs[0].kernels)
    else Weight(|Inputs(txs) - Outputs(txs)|, |Outputs(txs) - Inputs(txs)|, Kernels(txs))
  }

  lemma One(tx: Tx)
    ensures Inputs([tx]) == multiset(tx.inputs) && Outputs([tx]) == multiset(tx.outputs)
    ensures Kernels([tx]) == tx.kernels && Fees([tx]) == tx.fee
  {
    Pushed([], tx);
    assert [] + [tx] == [tx];
  }

  lemma WeightWithin(txs: seq<Tx>, tx: Tx)
    requires txs != []
    ensures WeightOf(txs + [tx]) <= WeightOf(txs) + Weight(|tx.inputs|, |tx.outputs|, tx.kernels)
  {
    hide Inputs, Outputs, Kernels;
    Pushed(txs, tx);
    MoreIsCut(Inputs(txs), Outputs(txs), multiset(tx.inputs), multiset(tx.outputs));
    if |txs| == 1 {
      One(txs[0]);
      assert txs == [txs[0]];
    }
  }

  lemma LowerShare(x: nat, w: nat, y: nat, v: nat, u: nat, f: nat)
    requires w * f <= x && x + y < u * f && u <= w + v
    ensures y < v * f
  {
    Grows(f, u, w + v);
    assert (w + v) * f == w * f + v * f;
  }

  lemma Share(x: nat, w: nat, f: nat)
    requires w >= 1
    ensures x / w < f <==> x < w * f
    ensures w * (x / w) <= x
  {
    var q := x / w;
    assert w * q <= x < w * q + w;
    if q < f { Grows(w, q + 1, f); } else { Grows(w, f, q); }
  }

  lemma Grows(a: nat, b: nat, c: nat)
    requires b <= c
    ensures a * b <= a * c && b * a <= c * a
  {}

  /** A transaction that would lower the value of a bucket pays less for its weight than the bucket. */
  lemma SplitPaysLess(txs: seq<Tx>, tx: Tx)
    requires txs != [] && Combined(txs + [tx]) < Value(txs)
    ensures Rate(tx) < Value(txs)
  {
    hide Weight, Inputs, Outputs, Kernels, Fees;
    Pushed(txs, tx);
    WeightWithin(txs, tx);
    if |txs| == 1 {
      One(txs[0]);
      assert txs == [txs[0]];
    }
    var x, y, f := Fees(txs) * 1000, tx.fee * 1000, Value(txs);
    var w, v, u := WeightOf(txs), Weight(|tx.inputs|, |tx.outputs|, tx.kernels), WeightOf(txs + [tx]);
    Share(x, w, f);
    Share(x + y, u, f);
    Share(y, v, f);
    LowerShare(x, w, y, v, u, f);
  }

  // The walk over the entries

  /**
   * After some entries: the buckets as places of entries, the bucket listed for each output, the outputs of
   * dropped entries, and for each chosen entry the bucket that holds it (home) and the one listed for its outputs (base).
   */
  datatype Run = Run(groups: seq<seq<nat>>, commits: map<Commit, nat>, rejected: set<Commit>, home: map<nat, nat>, base: map<nat, nat>)

  const START := Run([], map[], {}, map[], map[])

  ghost predicate Shaped(run: Run, n: nat) {
    && (forall c :: c in run.commits ==> run.commits[c] < |run.groups|)
    && (forall g :: 0 <= g < |run.groups| ==> Below(run.groups[g], n) && run.groups[g] != [])
  }

  ghost predicate Below(s: seq<nat>, n: nat) {
    forall x :: x in s ==> x < n
  }

  ghost function TxsOf(entries: seq<Tx>, s: seq<nat>): (txs: seq<Tx>)
    requires Below(s, |entries|)
    ensures |txs| == |s|
  {
    seq(|s|, k requires 0 <= k < |s| => assert s[k] in s; entries[s[k]])
  }

  lemma TxsPush(entries: seq<Tx>, s: seq<nat>, n: nat)
    requires Below(s, |entries|) && n < |entries|
    ensures Below(s + [n], |entries|) && TxsOf(entries, s + [n]) == TxsOf(entries, s) + [entries[n]]
  {}

  /** An input from a dropped entry, or two from chosen ones. */
  ghost predicate TurnedDown(inputs: seq<Commit>, commits: map<Commit, nat>, rejected: set<Commit>) {
    || (exists k :: 0 <= k < |inputs| && inputs[k] in rejected)
    || (exists k, l :: 0 <= k < l < |inputs| && inputs[k] in commits && inputs[l] in commits)
  }

  /** The bucket listed for the first input from a chosen entry. */
  ghost function FirstListed(inputs: seq<Commit>, commits: map<Commit, nat>, rejected: set<Commit>, m: nat): (pos: Option<nat>)
    requires m <= |inputs|
  {
    if m == 0 then None
    else
      var before := FirstListed(inputs, commits, rejected, m - 1);
      if before.None? && inputs[m - 1] !in rejected && inputs[m - 1] in commits then Some(commits[inputs[m - 1]]) else before
  }

  lemma {:induction false} FirstListedIs(inputs: seq<Commit>, commits: map<Commit, nat>, rejected: set<Commit>, m: nat)
    requires m <= |inputs|
    ensures FirstListed(inputs, commits, rejected, m).Some? <==>
              exists k :: 0 <= k < m && inputs[k] !in rejected && inputs[k] in commits
    ensures FirstListed(inputs, commits, rejected, m).Some? ==>
              exists k :: 0 <= k < m && inputs[k] in commits && commits[inputs[k]] == FirstListed(inputs, commits, rejected, m).value
  {
    if m > 0 { FirstListedIs(inputs, commits, rejected, m - 1); }
  }

  function Recorded(commits: map<Commit, nat>, outputs: seq<Commit>, pos: nat): (r: map<Commit, nat>)
    ensures forall c :: c in r <==> c in commits || c in outputs
    ensures forall c :: c in r ==> r[c] == if c in outputs then pos else commits[c]
  {
    if outputs == [] then commits
    else Recorded(commits, outputs[..|outputs| - 1], pos)[outputs[|outputs| - 1] := pos]
  }

  function SetOf(outputs: seq<Commit>): (r: set<Commit>) {
    set c | c in outputs
  }

  ghost function Drop(run: Run, tx: Tx): (r: Run) {
    run.(rejected := run.rejected + SetOf(tx.outputs))
  }

  /** Entry n in a bucket of its own, its outputs listed under another one or under it. */
  ghost function Open(run: Run, tx: Tx, n: nat, pos: nat): (r: Run) {
    Run(run.groups + [[n]], Recorded(run.commits, tx.outputs, pos), run.rejected, run.home[n := |run.groups|], run.base[n := pos])
  }

  ghost function Join(run: Run, tx: Tx, n: nat, pos: nat): (r: Run)
    requires pos < |run.groups|
  {
    Run(run.groups[pos := run.groups[pos] + [n]], Recorded(run.commits, tx.outputs, pos), run.rejected,
        run.home[n := pos], run.base[n := pos])
  }

  /** How one entry is dealt with. */
  datatype Move = Dropping | Opening(pos: nat) | Joining(pos: nat)

  ghost function Decide(entries: seq<Tx>, valid: seq<Tx> -> bool, run: Run, n: nat): (m: Move)
    requires n < |entries| && Shaped(run, n)
    ensures m.Joining? ==> m.pos < |run.groups|
    ensures m.Opening? ==> m.pos <= |run.groups|
  {
    var tx := entries[n];
    if TurnedDown(tx.inputs, run.commits, run.rejected) then Dropping
    else
      var listed := FirstListed(tx.inputs, run.commits, run.rejected, |tx.inputs|);
      if listed.None? then Opening(|run.groups|)
      else
        FirstListedIs(tx.inputs, run.commits, run.rejected, |tx.inputs|);
        var group := run.groups[listed.value];
        TxsPush(entries, group, n);
        if !valid(TxsOf(entries, group + [n])) then Dropping
        else if Combined(TxsOf(entries, group + [n])) >= Value(TxsOf(entries, group)) then Joining(listed.value)
        else Opening(listed.value)
  }

  ghost function Step(run: Run, tx: Tx, n: nat, m: Move): (r: Run)
    requires Shaped(run, n) && (m.Joining? ==> m.pos < |run.groups|) && (m.Opening? ==> m.pos <= |run.groups|)
    ensures Shaped(r, n + 1)
  {
    StepShaped(run, tx, n);
    match m
    case Dropping => Drop(run, tx)
    case Opening(pos) => Open(run, tx, n, pos)
    case Joining(pos) => Join(run, tx, n, pos)
  }

  lemma StepShaped(run: Run, tx: Tx, n: nat)
    requires Shaped(run, n)
    ensures Shaped(Drop(run, tx), n + 1)
    ensures forall pos :: 0 <= pos <= |run.groups| ==> Shaped(Open(run, tx, n, pos), n + 1)
    ensures forall pos :: 0 <= pos < |run.groups| ==> Shaped(Join(run, tx, n, pos), n + 1)
  {
    hide Recorded, SetOf;
  }

  /** After the first n entries. */
  ghost function After(entries: seq<Tx>, valid: seq<Tx> -> bool, n: nat): (run: Run)
    requires n <= |entries|
    ensures Shaped(run, n)
  {
    if n == 0 then START
    else
      var run := After(entries, valid, n - 1);
      Step(run, entries[n - 1], n - 1, Decide(entries, valid, run, n - 1))
  }

  // Where the entries are

  ghost predicate Rising(s: seq<nat>) {
    forall k, l :: 0 <= k < l < |s| ==> s[k] < s[l]
  }

  /** Every chosen entry is in one bucket, at one place, and a bucket lists its entries in the order of the pool. */
  ghost predicate Housed(run: Run, n: nat) {
    && run.home.Keys == run.base.Keys
    && (forall i :: i in run.home ==> i < n && run.home[i] < |run.groups| && i in run.groups[run.home[i]])
    && (forall g, i :: 0 <= g < |run.groups| && i in run.groups[g] ==> i in run.home && run.home[i] == g)
    && (forall g :: 0 <= g < |run.groups| ==> Rising(run.groups[g]))
  }

  lemma HousedOpen(run: Run, tx: Tx, n: nat, pos: nat)
    requires Shaped(run, n) && Housed(run, n)
    ensures Housed(Open(run, tx, n, pos), n + 1)
  {
    hide Recorded;
  }

  lemma RisingPush(s: seq<nat>, n: nat)
    requires Rising(s) && Below(s, n)
    ensures Rising(s + [n])
  {
    assert forall k :: 0 <= k < |s| ==> s[k] in s;
  }

  lemma HousedJoin(run: Run, tx: Tx, n: nat, pos: nat)
    requires Shaped(run, n) && Housed(run, n) && pos < |run.groups|
    ensures Housed(Join(run, tx, n, pos), n + 1)
  {
    hide Recorded, Rising;
    RisingPush(run.groups[pos], n);
  }

  lemma {:induction false} AllHoused(entries: seq<Tx>, valid: seq<Tx> -> bool, n: nat)
    requires n <= |entries|
    ensures Housed(After(entries, valid, n), n)
  {
    hide Decide, Housed, Open, Join;
    if n == 0 {
      NoneHoused();
    } else {
      AllHoused(entries, valid, n - 1);
      var run := After(entries, valid, n - 1);
      match Decide(entries, valid, run, n - 1)
      case Dropping => HousedDrop(run, entries[n - 1], n - 1);
      case Opening(pos) => HousedOpen(run, entries[n - 1], n - 1, pos);
      case Joining(pos) => HousedJoin(run, entries[n - 1], n - 1, pos);
    }
  }

  lemma NoneHoused()
    ensures Housed(START, 0)
  {}

  lemma HousedDrop(run: Run, tx: Tx, n: nat)
    requires Housed(run, n)
    ensures Housed(Drop(run, tx), n + 1)
  {}

  // Who created what

  /** The last chosen entry before n that creates the output. */
  ghost function Last(entries: seq<Tx>, picked: set<nat>, n: nat, c: Commit): (j: Option<nat>)
    requires n <= |entries|
    ensures j.Some? ==> j.value < n && j.value in picked && c in entries[j.value].outputs
  {
    if n == 0 then None
    else if n - 1 in picked && c in entries[n - 1].outputs then Some(n - 1)
    else Last(entries, picked, n - 1, c)
  }

  lemma {:induction false} LastLocal(entries: seq<Tx>, picked: set<nat>, picked': set<nat>, n: nat, c: Commit)
    requires n <= |entries| && forall i :: 0 <= i < n ==> (i in picked <==> i in picked')
    ensures Last(entries, picked, n, c) == Last(entries, picked', n, c)
  {
    if n > 0 { LastLocal(entries, picked, picked', n - 1, c); }
  }

  /** Some chosen entry before n creates the output exactly if there is a last one. */
  lemma {:induction false} LastIs(entries: seq<Tx>, picked: set<nat>, n: nat, c: Commit)
    requires n <= |entries|
    ensures Last(entries, picked, n, c).None? <==> forall j :: j in picked && j < n ==> c !in entries[j].outputs
  {
    if n > 0 { LastIs(entries, picked, n - 1, c); }
  }

  /** The lists of the walk: outputs of chosen entries with the bucket of their last creator, and outputs of dropped ones. */
  ghost predicate Known(entries: seq<Tx>, run: Run, n: nat) {
    && n <= |entries| && run.home.Keys == run.base.Keys && (forall i :: i in run.home ==> i < n)
    && (forall c :: c in run.commits <==> Last(entries, run.home.Keys, n, c).Some?)
    && (forall c :: c in run.commits ==> run.commits[c] == run.base[Last(entries, run.home.Keys, n, c).value])
    && (forall c :: c in run.rejected <==> exists i :: 0 <= i < n && i !in run.home && c in entries[i].outputs)
  }

  lemma KnownDrop(entries: seq<Tx>, run: Run, n: nat)
    requires n < |entries| && Known(entries, run, n)
    ensures Known(entries, Drop(run, entries[n]), n + 1)
  {
    hide Recorded;
    var r := Drop(run, entries[n]);
    forall c ensures c in r.rejected <==> exists i :: 0 <= i < n + 1 && i !in r.home && c in entries[i].outputs {
      if c in entries[n].outputs { assert n !in r.home; }
    }
  }

  lemma KnownPick(entries: seq<Tx>, run: Run, n: nat, r: Run, pos: nat)
    requires n < |entries| && Known(entries, run, n)
    requires r.home.Keys == run.home.Keys + {n} && r.base == run.base[n := pos] && r.rejected == run.rejected
    requires r.commits == Recorded(run.commits, entries[n].outputs, pos)
    ensures Known(entries, r, n + 1)
  {
    hide Recorded;
    forall c ensures Last(entries, r.home.Keys, n, c) == Last(entries, run.home.Keys, n, c) {
      LastLocal(entries, r.home.Keys, run.home.Keys, n, c);
    }
  }

  lemma {:induction false} AllKnown(entries: seq<Tx>, valid: seq<Tx> -> bool, n: nat)
    requires n <= |entries|
    ensures Known(entries, After(entries, valid, n), n)
  {
    hide Decide, Known, Recorded;
    if n == 0 {
      NoneKnown(entries);
    } else {
      AllKnown(entries, valid, n - 1);
      var run := After(entries, valid, n - 1);
      match Decide(entries, valid, run, n - 1)
      case Dropping => KnownDrop(entries, run, n - 1);
      case Opening(pos) => KnownPick(entries, run, n - 1, After(entries, valid, n), pos);
      case Joining(pos) => KnownPick(entries, run, n - 1, After(entries, valid, n), pos);
    }
  }

  lemma NoneKnown(entries: seq<Tx>)
    ensures Known(entries, START, 0)
  {}

  // What becomes of an entry

  /** The aggregate of entry n with the bucket listed for one of its inputs is not valid. */
  ghost predicate BadAggregate(entries: seq<Tx>, valid: seq<Tx> -> bool, run: Run, n: nat)
    requires n < |entries| && Shaped(run, n)
  {
    exists k :: 0 <= k < |entries[n].inputs| && entries[n].inputs[k] in run.commits &&
                !valid(TxsOf(entries, run.groups[run.commits[entries[n].inputs[k]]] + [n]))
  }

  /** With no input turned down, an input that is listed decides the bucket. */
  lemma OneListed(inputs: seq<Commit>, commits: map<Commit, nat>, rejected: set<Commit>, k: nat)
    requires !TurnedDown(inputs, commits, rejected) && k < |inputs| && inputs[k] in commits
    ensures FirstListed(inputs, commits, rejected, |inputs|) == Some(commits[inputs[k]])
  {
    FirstListedIs(inputs, commits, rejected, |inputs|);
  }

  lemma DroppedIs(entries: seq<Tx>, valid: seq<Tx> -> bool, run: Run, n: nat)
    requires n < |entries| && Shaped(run, n)
    ensures Decide(entries, valid, run, n).Dropping? <==>
              TurnedDown(entries[n].inputs, run.commits, run.rejected) || BadAggregate(entries, valid, run, n)
  {
    hide Combined, Value, Shaped, TurnedDown, TxsOf;
    var tx := entries[n];
    if !TurnedDown(tx.inputs, run.commits, run.rejected) {
      forall k | 0 <= k < |tx.inputs| && tx.inputs[k] in run.commits
        ensures FirstListed(tx.inputs, run.commits, run.rejected, |tx.inputs|) == Some(run.commits[tx.inputs[k]])
      {
        OneListed(tx.inputs, run.commits, run.rejected, k);
      }
      FirstListedIs(tx.inputs, run.commits, run.rejected, |tx.inputs|);
    }
  }

  lemma PlacedIs(entries: seq<Tx>, valid: seq<Tx> -> bool, run: Run, n: nat)
    requires n < |entries| && Shaped(run, n) && !Decide(entries, valid, run, n).Dropping?
    ensures var m := Decide(entries, valid, run, n);
            && !TurnedDown(entries[n].inputs, run.commits, run.rejected)
            && (forall k :: 0 <= k < |entries[n].inputs| && entries[n].inputs[k] in run.commits ==>
                  m.pos == run.commits[entries[n].inputs[k]])
            && (m == Opening(|run.groups|) || exists k :: 0 <= k < |entries[n].inputs| && entries[n].inputs[k] in run.commits)
            && ((forall k :: 0 <= k < |entries[n].inputs| ==> entries[n].inputs[k] !in run.commits) ==> m == Opening(|run.groups|))
  {
    hide Combined, Value, TurnedDown, TxsOf;
    var tx := entries[n];
    forall k | 0 <= k < |tx.inputs| && tx.inputs[k] in run.commits
      ensures FirstListed(tx.inputs, run.commits, run.rejected, |tx.inputs|) == Some(run.commits[tx.inputs[k]])
    {
      OneListed(tx.inputs, run.commits, run.rejected, k);
    }
    FirstListedIs(tx.inputs, run.commits, run.rejected, |tx.inputs|);
  }

  lemma ValueIs(entries: seq<Tx>, valid: seq<Tx> -> bool, run: Run, n: nat)
    requires n < |entries| && Shaped(run, n)
    ensures var m := Decide(entries, valid, run, n);
            !m.Dropping? && m.pos < |run.groups| ==>
              && Below(run.groups[m.pos], |entries|) && Below(run.groups[m.pos] + [n], |entries|)
              && (m.Joining? <==> Combined(TxsOf(entries, run.groups[m.pos] + [n])) >= Value(TxsOf(entries, run.groups[m.pos])))
              && |run.groups[m.pos] + [n]| > 1
  {
    hide Combined, Value, TurnedDown, TxsOf, FirstListed;
  }

  /** A chosen entry is listed where the last creator of its one input from the pool is, and owes nothing to dropped ones. */
  ghost predicate Linked(entries: seq<Tx>, run: Run, i: nat) {
    && i < |entries| && i in run.home && run.home.Keys == run.base.Keys
    && (forall k :: 0 <= k < |entries[i].inputs| ==>
          var j := Last(entries, run.home.Keys, i, entries[i].inputs[k]);
          j.Some? ==> run.base[i] == run.base[j.value])
    && ((forall k :: 0 <= k < |entries[i].inputs| ==> Last(entries, run.home.Keys, i, entries[i].inputs[k]).None?) ==>
          run.base[i] == run.home[i])
    && (forall k, l :: 0 <= k < l < |entries[i].inputs| ==>
          (Last(entries, run.home.Keys, i, entries[i].inputs[k]).None? || Last(entries, run.home.Keys, i, entries[i].inputs[l]).None?))
    && (forall j :: 0 <= j < i && j !in run.home ==> !Shares(entries[j], entries[i]))
  }

  /** The first creates an output that the second spends. */
  ghost predicate Shares(parent: Tx, child: Tx) {
    exists c :: c in parent.outputs && c in child.inputs
  }

  lemma LinkedKept(entries: seq<Tx>, run: Run, r: Run, n: nat, i: nat)
    requires n <= |entries| && i < n && Linked(entries, run, i) && r.home.Keys == r.base.Keys
    requires forall j :: 0 <= j < n ==> (j in r.home <==> j in run.home)
    requires forall j :: j in run.home ==> j in r.home && r.home[j] == run.home[j] && r.base[j] == run.base[j]
    ensures Linked(entries, r, i)
  {
    hide Shares;
    forall k | 0 <= k < |entries[i].inputs|
      ensures Last(entries, r.home.Keys, i, entries[i].inputs[k]) == Last(entries, run.home.Keys, i, entries[i].inputs[k])
    {
      LastLocal(entries, r.home.Keys, run.home.Keys, i, entries[i].inputs[k]);
    }
  }

  lemma LinkedNew(entries: seq<Tx>, valid: seq<Tx> -> bool, run: Run, n: nat)
    requires n < |entries| && Shaped(run, n) && Known(entries, run, n) && !Decide(entries, valid, run, n).Dropping?
    ensures Linked(entries, Step(run, entries[n], n, Decide(entries, valid, run, n)), n)
  {
    hide Decide, Recorded, Shaped;
    PlacedIs(entries, valid, run, n);
    var m := Decide(entries, valid, run, n);
    var r := Step(run, entries[n], n, m);
    assert r.home.Keys == run.home.Keys + {n} && r.base == run.base[n := m.pos];
    forall k | 0 <= k < |entries[n].inputs|
      ensures Last(entries, r.home.Keys, n, entries[n].inputs[k]) == Last(entries, run.home.Keys, n, entries[n].inputs[k])
    {
      LastLocal(entries, r.home.Keys, run.home.Keys, n, entries[n].inputs[k]);
    }
  }

  lemma {:induction false} AllLinked(entries: seq<Tx>, valid: seq<Tx> -> bool, n: nat)
    requires n <= |entries|
    ensures forall i :: i in After(entries, valid, n).home ==> Linked(entries, After(entries, valid, n), i)
  {
    hide Decide, Known, Recorded, Shaped, Linked;
    if n > 0 {
      AllLinked(entries, valid, n - 1);
      AllHomes(entries, valid, n - 1);
      AllHomes(entries, valid, n);
      AllKnown(entries, valid, n - 1);
      var run, r := After(entries, valid, n - 1), After(entries, valid, n);
      var m := Decide(entries, valid, run, n - 1);
      if !m.Dropping? { LinkedNew(entries, valid, run, n - 1); }
      forall i | i in r.home ensures Linked(entries, r, i) {
        if i != n - 1 { LinkedKept(entries, run, r, n - 1, i); }
      }
    }
  }

  lemma AllHomes(entries: seq<Tx>, valid: seq<Tx> -> bool, n: nat)
    requires n <= |entries|
    ensures var run := After(entries, valid, n); run.home.Keys == run.base.Keys && forall i :: i in run.home ==> i < n
  {
    AllHoused(entries, valid, n);
  }

  // Entries split off

  /** A chosen entry in a bucket of its own although its parent has one. */
  ghost predicate SplitOff(run: Run, i: nat) {
    i in run.home && i in run.base && run.home[i] != run.base[i]
  }

  /** What bucket g pays for its weight. */
  ghost function Pays(entries: seq<Tx>, run: Run, g: nat): (rate: nat)
    requires g < |run.groups| && Below(run.groups[g], |entries|)
  {
    Value(TxsOf(entries, run.groups[g]))
  }

  /** A bucket that was split off stays alone and pays less than the one it was split off from. */
  ghost predicate Alone(entries: seq<Tx>, run: Run, i: nat) {
    && i in run.home && i in run.base && run.home[i] < |run.groups| && run.base[i] < |run.groups|
    && run.groups[run.home[i]] == [i] && (forall j :: j in run.base ==> run.base[j] != run.home[i])
    && i < |entries| && Below(run.groups[run.base[i]], |entries|)
    && Rate(entries[i]) < Pays(entries, run, run.base[i])
  }

  ghost predicate Apart(entries: seq<Tx>, run: Run) {
    && (forall i :: i in run.base ==> run.base[i] < |run.groups|)
    && (forall i :: SplitOff(run, i) ==> Alone(entries, run, i))
  }

  lemma ApartDrop(entries: seq<Tx>, run: Run, tx: Tx)
    requires Apart(entries, run)
    ensures Apart(entries, Drop(run, tx))
  {
    var r := Drop(run, tx);
    forall i | SplitOff(r, i) ensures Alone(entries, r, i) {
      assert SplitOff(run, i);
    }
  }

  lemma AloneOpen(entries: seq<Tx>, run: Run, n: nat, pos: nat, i: nat)
    requires n < |entries| && Housed(run, n) && Apart(entries, run) && pos <= |run.groups| && SplitOff(run, i)
    requires pos < |run.groups| ==> exists j :: j in run.base && run.base[j] == pos
    ensures Alone(entries, Open(run, entries[n], n, pos), i)
  {
    hide Recorded, Rate, Value, TxsOf, Rising;
    assert Alone(entries, run, i);
    var r := Open(run, entries[n], n, pos);
    assert i != n && r.groups[r.home[i]] == [i] && r.groups[r.base[i]] == run.groups[run.base[i]];
  }

  lemma ApartOpen(entries: seq<Tx>, run: Run, n: nat, pos: nat)
    requires n < |entries| && Housed(run, n) && Apart(entries, run) && pos <= |run.groups|
    requires pos < |run.groups| ==> Below(run.groups[pos], |entries|) && Rate(entries[n]) < Pays(entries, run, pos)
    requires pos < |run.groups| ==> exists j :: j in run.base && run.base[j] == pos
    ensures Apart(entries, Open(run, entries[n], n, pos))
  {
    hide Recorded, Rate, Value, TxsOf, Rising, Housed;
    var r := Open(run, entries[n], n, pos);
    forall i | SplitOff(r, i) ensures Alone(entries, r, i) {
      if i != n {
        AloneOpen(entries, run, n, pos, i);
      } else {
        assert r.groups[r.base[n]] == run.groups[pos];
      }
    }
  }

  lemma ApartJoin(entries: seq<Tx>, run: Run, n: nat, pos: nat)
    requires n < |entries| && Housed(run, n) && Shaped(run, n) && Apart(entries, run) && pos < |run.groups|
    requires exists j :: j in run.base && run.base[j] == pos
    requires Below(run.groups[pos] + [n], |entries|) && Value(TxsOf(entries, run.groups[pos] + [n])) >= Pays(entries, run, pos)
    ensures Apart(entries, Join(run, entries[n], n, pos))
  {
    hide Recorded, Rate, Value, TxsOf, Rising;
    var r := Join(run, entries[n], n, pos);
    forall i | SplitOff(r, i) ensures Alone(entries, r, i) {
      assert i != n && SplitOff(run, i);
      assert run.home[i] != pos;
    }
  }

  lemma ApartStep(entries: seq<Tx>, valid: seq<Tx> -> bool, run: Run, n: nat)
    requires n < |entries| && Shaped(run, n) && Housed(run, n) && Known(entries, run, n) && Apart(entries, run)
    requires !Decide(entries, valid, run, n).Dropping?
    ensures Apart(entries, Step(run, entries[n], n, Decide(entries, valid, run, n)))
  {
    hide Decide, Recorded, Rate, Combined, TxsOf, Housed, Apart, TurnedDown, Open, Join;
    PlacedIs(entries, valid, run, n);
    ValueIs(entries, valid, run, n);
    var m := Decide(entries, valid, run, n);
    if m.pos < |run.groups| {
      var group := run.groups[m.pos];
      TxsPush(entries, group, n);
      var k :| 0 <= k < |entries[n].inputs| && entries[n].inputs[k] in run.commits;
      var j := Last(entries, run.home.Keys, n, entries[n].inputs[k]);
      assert run.base[j.value] == m.pos;
      if m.Joining? {
        ApartJoin(entries, run, n, m.pos);
      } else {
        SplitPaysLess(TxsOf(entries, group), entries[n]);
        ApartOpen(entries, run, n, m.pos);
      }
    } else {
      ApartOpen(entries, run, n, m.pos);
    }
  }

  lemma NoneApart(entries: seq<Tx>)
    ensures Apart(entries, START)
  {}

  lemma {:induction false} AllApart(entries: seq<Tx>, valid: seq<Tx> -> bool, n: nat)
    requires n <= |entries|
    ensures Apart(entries, After(entries, valid, n))
  {
    hide Decide, Known, Recorded, Shaped, Apart, Housed, Open, Join, Drop;
    if n == 0 {
      NoneApart(entries);
    } else {
      AllApart(entries, valid, n - 1);
      AllHoused(entries, valid, n - 1);
      AllKnown(entries, valid, n - 1);
      var run := After(entries, valid, n - 1);
      if Decide(entries, valid, run, n - 1).Dropping? {
        ApartDrop(entries, run, entries[n - 1]);
      } else {
        ApartStep(entries, valid, run, n - 1);
      }
    }
  }

  // The order of what is chosen

  ghost predicate Precedes(s: seq<nat>, x: nat, y: nat) {
    exists a, b :: 0 <= a < b < |s| && s[a] == x && s[b] == y
  }

  lemma BelowRest(s: seq<nat>, n: nat)
    requires Below(s, n) && s != []
    ensures Below(s[..|s| - 1], n) && s[|s| - 1] < n
  {
    var rest := s[..|s| - 1];
    assert s == rest + [s[|s| - 1]] && s[|s| - 1] in s;
    forall x | x in rest ensures x < n { assert x in s; }
  }

  /** The buckets one after the other. */
  ghost function Spread(groups: seq<seq<nat>>, order: seq<nat>): (places: seq<nat>)
    requires Below(order, |groups|)
  {
    if order == [] then []
    else BelowRest(order, |groups|); Spread(groups, order[..|order| - 1]) + groups[order[|order| - 1]]
  }

  /** An order of all buckets in which what they pay falls; buckets that pay the same come in any order. */
  ghost predicate Falling(entries: seq<Tx>, run: Run, order: seq<nat>) {
    && Below(order, |run.groups|) && Distinct(order) && (forall g :: 0 <= g < |run.groups| ==> g in order && Below(run.groups[g], |entries|))
    && (forall a, b :: 0 <= a < b < |order| && order[a] < |run.groups| && order[b] < |run.groups| ==>
          Pays(entries, run, order[a]) >= Pays(entries, run, order[b]))
  }

  lemma PrecedesConcat(s: seq<nat>, t: seq<nat>, x: nat, y: nat)
    ensures Precedes(s + t, x, y) <==> Precedes(s, x, y) || (x in s && y in t) || Precedes(t, x, y)
  {
    if Precedes(s + t, x, y) {
      var a, b :| 0 <= a < b < |s + t| && (s + t)[a] == x && (s + t)[b] == y;
      if a >= |s| {
        assert t[a - |s|] == x && t[b - |s|] == y;
      } else if b >= |s| {
        assert s[a] in s && t[b - |s|] in t;
      } else {
        assert s[a] == x && s[b] == y;
      }
    }
    if Precedes(s, x, y) {
      var a, b :| 0 <= a < b < |s| && s[a] == x && s[b] == y;
      assert (s + t)[a] == x && (s + t)[b] == y;
    }
    if Precedes(t, x, y) {
      var a, b :| 0 <= a < b < |t| && t[a] == x && t[b] == y;
      assert (s + t)[|s| + a] == x && (s + t)[|s| + b] == y;
    }
    if x in s && y in t {
      var a :| 0 <= a < |s| && s[a] == x;
      var b :| 0 <= b < |t| && t[b] == y;
      assert (s + t)[a] == x && (s + t)[|s| + b] == y;
    }
  }

  lemma PrecedesRising(s: seq<nat>, x: nat, y: nat)
    requires Rising(s)
    ensures Precedes(s, x, y) <==> x in s && y in s && x < y
  {
    if x in s && y in s && x < y {
      var a :| 0 <= a < |s| && s[a] == x;
      var b :| 0 <= b < |s| && s[b] == y;
      assert a < b;
    }
  }

  lemma {:induction false} SpreadHas(run: Run, n: nat, order: seq<nat>, x: nat)
    requires Housed(run, n) && Below(order, |run.groups|)
    ensures x in Spread(run.groups, order) <==> x in run.home && run.home[x] in order
  {
    hide Rising;
    if order != [] {
      var rest, g := order[..|order| - 1], order[|order| - 1];
      assert order == rest + [g];
      BelowRest(order, |run.groups|);
      SpreadHas(run, n, rest, x);
    }
  }

  /** By bucket, and within a bucket in the order of the pool. */
  lemma {:induction false} SpreadOrder(run: Run, n: nat, order: seq<nat>, x: nat, y: nat)
    requires Housed(run, n) && Below(order, |run.groups|) && Distinct(order) && x in run.home && y in run.home
    ensures Precedes(Spread(run.groups, order), x, y) <==>
              Precedes(order, run.home[x], run.home[y]) || (run.home[x] == run.home[y] && run.home[x] in order && x < y)
  {
    hide Precedes, Rising, Distinct;
    if order == [] {
      assert !Precedes([], x, y) && !Precedes([], run.home[x], run.home[y]) by { NothingPrecedes(); }
    } else {
      var rest, g := order[..|order| - 1], order[|order| - 1];
      assert order == rest + [g];
      BelowRest(order, |run.groups|);
      DistinctSplit(rest, g);
      SpreadOrder(run, n, rest, x, y);
      SpreadHas(run, n, rest, x);
      SpreadHas(run, n, rest, y);
      PrecedesConcat(Spread(run.groups, rest), run.groups[g], x, y);
      PrecedesConcat(rest, [g], run.home[x], run.home[y]);
      PrecedesRising(run.groups[g], x, y);
      assert !Precedes([g], run.home[x], run.home[y]) by { NotAlone(g); }
    }
  }

  lemma NothingPrecedes()
    ensures forall x, y :: !Precedes([], x, y)
  {}

  lemma NotAlone(g: nat)
    ensures forall x, y :: !Precedes([g], x, y)
  {}

  lemma DistinctSplit(rest: seq<nat>, g: nat)
    requires Distinct(rest + [g])
    ensures Distinct(rest) && g !in rest
  {
    var s := rest + [g];
    forall i, j | 0 <= i < j < |rest| ensures rest[i] != rest[j] {
      assert s[i] == rest[i] && s[j] == rest[j];
    }
    forall i | 0 <= i < |rest| ensures rest[i] != g {
      assert s[i] == rest[i] && s[|rest|] == g;
    }
  }

  /** The bucket that pays more comes first. */
  lemma PaysOrder(entries: seq<Tx>, run: Run, order: seq<nat>, g: nat, h: nat)
    requires Falling(entries, run, order) && g < |run.groups| && h < |run.groups|
    requires Pays(entries, run, g) > Pays(entries, run, h)
    ensures Precedes(order, g, h) && !Precedes(order, h, g)
  {
    hide Pays;
    assert g in order && h in order;
    var a :| 0 <= a < |order| && order[a] == g;
    var b :| 0 <= b < |order| && order[b] == h;
    assert a < b;
  }

  /** Entry j is the last chosen one before i to create some input of chosen entry i. */
  ghost predicate Supplies(entries: seq<Tx>, run: Run, j: nat, i: nat) {
    i < |entries| && i in run.home &&
    exists k :: 0 <= k < |entries[i].inputs| && Last(entries, run.home.Keys, i, entries[i].inputs[k]) == Some(j)
  }

  lemma SuppliesIs(entries: seq<Tx>, run: Run, j: nat, i: nat)
    requires Supplies(entries, run, j, i) && Linked(entries, run, i)
    ensures j < i && j in run.home && j in run.base && i in run.base && run.base[i] == run.base[j]
  {}

  lemma AloneIs(entries: seq<Tx>, run: Run, i: nat)
    requires Apart(entries, run) && SplitOff(run, i)
    ensures run.home[i] < |run.groups| && run.base[i] < |run.groups| && run.groups[run.home[i]] == [i]
    ensures i < |entries| && Below([i], |entries|) && Below(run.groups[run.base[i]], |entries|)
    ensures Pays(entries, run, run.home[i]) < Pays(entries, run, run.base[i])
    ensures Pays(entries, run, run.home[i]) == Rate(entries[i])
  {
    hide Rate;
    assert Alone(entries, run, i);
    assert TxsOf(entries, [i]) == [entries[i]];
  }

  /** One transaction and its parent. */
  lemma PairOrder(entries: seq<Tx>, run: Run, n: nat, order: seq<nat>, j: nat, i: nat)
    requires Housed(run, n) && Apart(entries, run) && Falling(entries, run, order)
    requires Supplies(entries, run, j, i) && Linked(entries, run, i)
    ensures j in run.home && i in run.home
    ensures Precedes(Spread(run.groups, order), j, i) <==>
              (SplitOff(run, j) ==> SplitOff(run, i) && Precedes(order, run.home[j], run.home[i]))
  {
    hide Precedes, Rising, Pays, Linked, Supplies, Apart, Spread;
    SuppliesIs(entries, run, j, i);
    SpreadOrder(run, n, order, j, i);
    if SplitOff(run, j) {
      AloneIs(entries, run, j);
      if SplitOff(run, i) {
        AloneIs(entries, run, i);
        assert [i][0] != [j][0];
      } else {
        PaysOrder(entries, run, order, run.base[j], run.home[j]);
      }
    } else if SplitOff(run, i) {
      AloneIs(entries, run, i);
      PaysOrder(entries, run, order, run.base[i], run.home[i]);
    }
  }

  /** Every chosen transaction comes after the one it spends from. */
  ghost predicate ParentsFirst(entries: seq<Tx>, run: Run, places: seq<nat>) {
    forall i, j :: Supplies(entries, run, j, i) ==> Precedes(places, j, i)
  }

  /** Every chosen child of a split-off transaction was split off and pays less than it for its weight. */
  ghost predicate SplitsByFee(entries: seq<Tx>, run: Run) {
    forall i: nat, j: nat :: Supplies(entries, run, j, i) && SplitOff(run, j) ==>
                               SplitOff(run, i) && j < |entries| && Rate(entries[i]) < Rate(entries[j])
  }

  /** Every chosen child of a split-off transaction was split off and its bucket comes later. */
  ghost predicate SplitsInOrder(entries: seq<Tx>, run: Run, order: seq<nat>) {
    forall i, j :: Supplies(entries, run, j, i) && SplitOff(run, j) ==>
                     SplitOff(run, i) && Precedes(order, run.home[j], run.home[i])
  }

  /** Sorting keeps the order of dependency exactly when chosen children of split-off transactions are split off and sort after. */
  lemma DependencyOrder(entries: seq<Tx>, valid: seq<Tx> -> bool, order: seq<nat>)
    requires Falling(entries, After(entries, valid, |entries|), order)
    ensures var run := After(entries, valid, |entries|);
            ParentsFirst(entries, run, Spread(run.groups, order)) <==> SplitsInOrder(entries, run, order)
  {
    var run := After(entries, valid, |entries|);
    AllHoused(entries, valid, |entries|);
    AllLinked(entries, valid, |entries|);
    AllApart(entries, valid, |entries|);
    hide *;
    FallingIs(entries, run, order);
    forall i, j | Supplies(entries, run, j, i)
      ensures j in run.home && i in run.home
      ensures Precedes(Spread(run.groups, order), j, i) <==>
                (SplitOff(run, j) ==> SplitOff(run, i) && Precedes(order, run.home[j], run.home[i]))
    {
      SuppliesChosen(entries, run, j, i);
      PairOrder(entries, run, |entries|, order, j, i);
    }
    OrderFromPairs(entries, run, order);
  }

  lemma FallingIs(entries: seq<Tx>, run: Run, order: seq<nat>)
    requires Falling(entries, run, order)
    ensures Below(order, |run.groups|) && Distinct(order)
  {}

  lemma SuppliesChosen(entries: seq<Tx>, run: Run, j: nat, i: nat)
    requires Supplies(entries, run, j, i)
    ensures i in run.home
  {}

  lemma OrderFromPairs(entries: seq<Tx>, run: Run, order: seq<nat>)
    requires Below(order, |run.groups|)
    requires forall i, j :: Supplies(entries, run, j, i) ==>
               j in run.home && i in run.home &&
               (Precedes(Spread(run.groups, order), j, i) <==>
                (SplitOff(run, j) ==> SplitOff(run, i) && Precedes(order, run.home[j], run.home[i])))
    ensures ParentsFirst(entries, run, Spread(run.groups, order)) <==> SplitsInOrder(entries, run, order)
  {
    hide Supplies, Precedes, Spread;
  }

  // What is chosen

  lemma {:induction false} HomeKept(entries: seq<Tx>, valid: seq<Tx> -> bool, i: nat, n: nat)
    requires i < n <= |entries|
    ensures i in After(entries, valid, n).home <==> !Decide(entries, valid, After(entries, valid, i), i).Dropping?
    ensures i in After(entries, valid, n).home <==> i in After(entries, valid, i + 1).home
  {
    hide Decide, Recorded, Shaped, SetOf;
    if n == i + 1 {
      AllHomes(entries, valid, i);
    } else {
      HomeKept(entries, valid, i, n - 1);
    }
  }

  lemma SameBelow(entries: seq<Tx>, valid: seq<Tx> -> bool, i: nat, n: nat)
    requires i <= n <= |entries|
    ensures forall j :: 0 <= j < i ==> (j in After(entries, valid, i).home <==> j in After(entries, valid, n).home)
  {
    forall j: nat | j < i ensures j in After(entries, valid, i).home <==> j in After(entries, valid, n).home {
      HomeKept(entries, valid, j, i);
      HomeKept(entries, valid, j, n);
    }
  }

  /** Entry i has two inputs from entries chosen before it. */
  ghost predicate TwoLinks(entries: seq<Tx>, picked: set<nat>, i: nat)
    requires i < |entries|
  {
    exists k, l :: 0 <= k < l < |entries[i].inputs| && Last(entries, picked, i, entries[i].inputs[k]).Some? &&
                   Last(entries, picked, i, entries[i].inputs[l]).Some?
  }

  /** Entry i spends from an entry before it that was not chosen. */
  ghost predicate LostParent(entries: seq<Tx>, picked: set<nat>, i: nat)
    requires i < |entries|
  {
    exists j :: 0 <= j < i && j !in picked && Shares(entries[j], entries[i])
  }

  lemma TurnedDownIs(entries: seq<Tx>, run: Run, i: nat)
    requires i < |entries| && Known(entries, run, i)
    ensures TurnedDown(entries[i].inputs, run.commits, run.rejected) <==>
              LostParent(entries, run.home.Keys, i) || TwoLinks(entries, run.home.Keys, i)
  {
    hide Last;
    var inputs := entries[i].inputs;
    if k :| 0 <= k < |inputs| && inputs[k] in run.rejected {
      var j :| 0 <= j < i && j !in run.home && inputs[k] in entries[j].outputs;
      assert Shares(entries[j], entries[i]);
    }
    if j :| 0 <= j < i && j !in run.home && Shares(entries[j], entries[i]) {
      var c :| c in entries[j].outputs && c in inputs;
      assert c in run.rejected;
    }
  }

  lemma LinksLocal(entries: seq<Tx>, picked: set<nat>, picked': set<nat>, i: nat)
    requires i < |entries| && forall j :: 0 <= j < i ==> (j in picked <==> j in picked')
    ensures TwoLinks(entries, picked, i) <==> TwoLinks(entries, picked', i)
    ensures LostParent(entries, picked, i) <==> LostParent(entries, picked', i)
  {
    hide Last, Shares;
    forall k | 0 <= k < |entries[i].inputs|
      ensures Last(entries, picked, i, entries[i].inputs[k]) == Last(entries, picked', i, entries[i].inputs[k])
    {
      LastLocal(entries, picked, picked', i, entries[i].inputs[k]);
    }
  }

  /**
   * An entry is left out exactly when it spends from one that was left out, has two inputs from chosen ones,
   * or its aggregate with the bucket listed for its input, as it then stands, is not valid.
   */
  lemma LeftOut(entries: seq<Tx>, valid: seq<Tx> -> bool, i: nat)
    requires i < |entries|
    ensures var picked := After(entries, valid, |entries|).home.Keys;
            i !in picked <==>
              || LostParent(entries, picked, i)
              || TwoLinks(entries, picked, i)
              || BadAggregate(entries, valid, After(entries, valid, i), i)
  {
    hide *;
    var run := After(entries, valid, i);
    var picked := After(entries, valid, |entries|).home.Keys;
    HomeKept(entries, valid, i, |entries|);
    DroppedIs(entries, valid, run, i);
    AllKnown(entries, valid, i);
    TurnedDownIs(entries, run, i);
    SameBelow(entries, valid, i, |entries|);
    LinksLocal(entries, run.home.Keys, picked, i);
  }

  /** An entry that spends nothing from the pool is chosen. */
  lemma IndependentChosen(entries: seq<Tx>, valid: seq<Tx> -> bool, i: nat)
    requires i < |entries| && forall j :: 0 <= j < i ==> !Shares(entries[j], entries[i])
    ensures i in After(entries, valid, |entries|).home
  {
    LeftOut(entries, valid, i);
    AllKnown(entries, valid, i);
    hide After, Decide, Known;
    KnownShares(entries, After(entries, valid, i), i);
    var picked := After(entries, valid, |entries|).home.Keys;
    forall k | 0 <= k < |entries[i].inputs| ensures Last(entries, picked, i, entries[i].inputs[k]).None? {
      LastIs(entries, picked, i, entries[i].inputs[k]);
    }
  }

  lemma KnownShares(entries: seq<Tx>, run: Run, i: nat)
    requires i < |entries| && Known(entries, run, i) && forall j :: 0 <= j < i ==> !Shares(entries[j], entries[i])
    ensures forall k :: 0 <= k < |entries[i].inputs| ==> entries[i].inputs[k] !in run.commits
  {}

  /** Where no two chosen entries create the same output, an entry is supplied by exactly its parents before it. */
  lemma OnlyParents(entries: seq<Tx>, run: Run, j: nat, i: nat)
    requires i < |entries| && Linked(entries, run, i)
    requires forall a, b, c :: a in run.home && b in run.home && a < i && b < i && c in entries[a].outputs && c in entries[b].outputs ==> a == b
    ensures Supplies(entries, run, j, i) <==> j < i && Shares(entries[j], entries[i])
  {
    if j < i && Shares(entries[j], entries[i]) {
      var c :| c in entries[j].outputs && c in entries[i].inputs;
      var k :| 0 <= k < |entries[i].inputs| && entries[i].inputs[k] == c;
      LastIs(entries, run.home.Keys, i, c);
    }
  }

  /** The transactions chosen among the first n entries. */
  ghost function Chosen(entries: seq<Tx>, picked: set<nat>, n: nat): (txs: multiset<Tx>)
    requires n <= |entries|
  {
    if n == 0 then multiset{}
    else Chosen(entries, picked, n - 1) + if n - 1 in picked then multiset{entries[n - 1]} else multiset{}
  }

  lemma {:induction false} ChosenWithin(entries: seq<Tx>, picked: set<nat>, n: nat)
    requires n <= |entries|
    ensures Chosen(entries, picked, n) <= multiset(entries[..n])
  {
    if n > 0 {
      ChosenWithin(entries, picked, n - 1);
      assert entries[..n] == entries[..n - 1] + [entries[n - 1]];
    }
  }

  lemma {:induction false} ChosenMore(entries: seq<Tx>, picked: set<nat>, x: nat, n: nat)
    requires n <= |entries| && x < |entries| && x !in picked
    ensures Chosen(entries, picked + {x}, n) == Chosen(entries, picked, n) + if x < n then multiset{entries[x]} else multiset{}
  {
    ChosenNone(entries);
    hide Chosen;
    if n > 0 {
      ChosenMore(entries, picked, x, n - 1);
      ChosenStep(entries, picked, n);
      ChosenStep(entries, picked + {x}, n);
      if x < n - 1 {
        Swap(Chosen(entries, picked, n - 1), multiset{entries[x]}, if n - 1 in picked then multiset{entries[n - 1]} else multiset{});
      }
    }
  }

  lemma ChosenNone(entries: seq<Tx>)
    ensures forall picked :: Chosen(entries, picked, 0) == multiset{}
  {}

  lemma ChosenStep(entries: seq<Tx>, picked: set<nat>, n: nat)
    requires 0 < n <= |entries|
    ensures Chosen(entries, picked, n) ==
            Chosen(entries, picked, n - 1) + if n - 1 in picked then multiset{entries[n - 1]} else multiset{}
  {}

  lemma Swap<T>(a: multiset<T>, b: multiset<T>, c: multiset<T>)
    ensures a + b + c == a + c + b
  {}

  lemma {:induction false} NoneChosen(entries: seq<Tx>, n: nat)
    requires n <= |entries|
    ensures Chosen(entries, {}, n) == multiset{}
  {
    if n > 0 { NoneChosen(entries, n - 1); }
  }

  lemma {:induction false} PlacesChosen(entries: seq<Tx>, s: seq<nat>, picked: set<nat>)
    requires Below(s, |entries|) && Distinct(s) && forall x :: x in picked <==> x in s
    ensures multiset(TxsOf(entries, s)) == Chosen(entries, picked, |entries|)
  {
    hide Below, Distinct, TxsOf, Chosen;
    if s == [] {
      NoneChosen(entries, |entries|);
      assert picked == {};
    } else {
      var rest, x := s[..|s| - 1], s[|s| - 1];
      assert s == rest + [x];
      BelowRest(s, |entries|);
      DistinctSplit(rest, x);
      PlacesChosen(entries, rest, picked - {x});
      TxsPush(entries, rest, x);
      ChosenMore(entries, picked - {x}, x, |entries|);
      assert picked - {x} + {x} == picked;
    }
  }

  lemma SpreadDistinct(run: Run, n: nat, order: seq<nat>)
    requires Housed(run, n) && Below(order, |run.groups|) && Distinct(order)
    ensures Distinct(Spread(run.groups, order))
  {
    hide Housed, Spread;
    var s := Spread(run.groups, order);
    forall a, b | 0 <= a < b < |s| ensures s[a] != s[b] {
      if s[a] == s[b] {
        assert s[a] in s && Precedes(s, s[a], s[a]);
        SpreadHas(run, n, order, s[a]);
        SpreadOrder(run, n, order, s[a], s[a]);
        assert false;
      }
    }
  }

  /** Each chosen entry comes once, and no other. */
  lemma SpreadAll(entries: seq<Tx>, valid: seq<Tx> -> bool, order: seq<nat>)
    requires Falling(entries, After(entries, valid, |entries|), order)
    ensures var run := After(entries, valid, |entries|);
            var places := Spread(run.groups, order);
            && Distinct(places) && Below(places, |entries|) && (forall i :: i in places <==> i in run.home)
            && multiset(TxsOf(entries, places)) == Chosen(entries, run.home.Keys, |entries|)
            && multiset(TxsOf(entries, places)) <= multiset(entries)
  {
    hide After, Spread, Decide, Chosen, TxsOf, Pays;
    var run := After(entries, valid, |entries|);
    AllHoused(entries, valid, |entries|);
    var places := Spread(run.groups, order);
    SpreadDistinct(run, |entries|, order);
    forall x ensures x in places <==> x in run.home { SpreadHas(run, |entries|, order, x); }
    PlacesChosen(entries, places, run.home.Keys);
    ChosenWithin(entries, run.home.Keys, |entries|);
    assert entries[..|entries|] == entries;
  }

  // Out of order

  const FIRST := Tx(0, [0], [1], 1, 100)
  const SECOND := Tx(1, [1], [2], 1, 1)
  const THIRD := Tx(2, [2], [3], 1, 1000)

  lemma SingleValues()
    ensures Rate(FIRST) == 25000 && Rate(SECOND) == 250
  {}

  lemma PairIs(a: Tx, b: Tx)
    ensures Inputs([a, b]) == multiset(a.inputs) + multiset(b.inputs)
    ensures Outputs([a, b]) == multiset(a.outputs) + multiset(b.outputs)
    ensures Kernels([a, b]) == a.kernels + b.kernels && Fees([a, b]) == a.fee + b.fee
  {
    hide Inputs, Outputs, Kernels, Fees;
    One(a);
    Pushed([a], b);
    assert [a] + [b] == [a, b];
  }

  lemma SecondLowers()
    ensures Combined([FIRST, SECOND]) == 20200
  {
    hide Inputs, Outputs, Kernels, Fees;
    PairIs(FIRST, SECOND);
    var ins, outs := multiset([0]) + multiset([1]), multiset([1]) + multiset([2]);
    assert |ins - outs| == 1 && |outs - ins| == 1 by {
      assert ins - outs == multiset{0} && outs - ins == multiset{2};
    }
  }

  lemma ThirdRaises()
    ensures Combined([FIRST, THIRD]) == 137500
  {
    hide Inputs, Outputs, Kernels, Fees;
    PairIs(FIRST, THIRD);
    var ins, outs := multiset([0]) + multiset([2]), multiset([1]) + multiset([3]);
    assert |ins - outs| == 2 && |outs - ins| == 2 by {
      assert ins - outs == ins && outs - ins == outs;
    }
  }

  /** An entry whose one input is listed, while every aggregate is valid. */
  lemma DecideSingle(entries: seq<Tx>, valid: seq<Tx> -> bool, run: Run, n: nat, c: Commit)
    requires n < |entries| && Shaped(run, n) && entries[n].inputs == [c] && c in run.commits && run.rejected == {}
    requires forall txs :: valid(txs)
    ensures var group := run.groups[run.commits[c]];
            && Below(group, |entries|) && Below(group + [n], |entries|)
            && Decide(entries, valid, run, n) ==
               if Combined(TxsOf(entries, group + [n])) >= Value(TxsOf(entries, group)) then Joining(run.commits[c])
               else Opening(run.commits[c])
  {
    hide Combined, Value, TxsOf;
    TxsPush(entries, run.groups[run.commits[c]], n);
    assert entries[n].inputs[0] == c;
    OneListed(entries[n].inputs, run.commits, run.rejected, 0);
  }

  lemma AfterFirst(valid: seq<Tx> -> bool)
    ensures After([FIRST, SECOND, THIRD], valid, 1) == Run([[0]], map[1 := 0], {}, map[0 := 0], map[0 := 0])
  {
    assert After([FIRST, SECOND, THIRD], valid, 0) == START;
  }

  lemma AfterSecond(valid: seq<Tx> -> bool)
    requires forall txs :: valid(txs)
    ensures After([FIRST, SECOND, THIRD], valid, 2) ==
              Run([[0], [1]], map[1 := 0, 2 := 0], {}, map[0 := 0, 1 := 1], map[0 := 0, 1 := 0])
  {
    hide After, Combined, Rate, Decide;
    AfterFirst(valid);
    var entries := [FIRST, SECOND, THIRD];
    var run := After(entries, valid, 1);
    DecideSingle(entries, valid, run, 1, 1);
    SingleValues();
    SecondLowers();
    assert TxsOf(entries, [0] + [1]) == [FIRST, SECOND] && TxsOf(entries, [0]) == [FIRST];
    AfterIs(entries, valid, 2);
    assert Recorded(map[1 := 0], [2], 0) == map[1 := 0, 2 := 0];
  }

  lemma AfterThird(valid: seq<Tx> -> bool)
    requires forall txs :: valid(txs)
    ensures After([FIRST, SECOND, THIRD], valid, 3) ==
              Run([[0, 2], [1]], map[1 := 0, 2 := 0, 3 := 0], {}, map[0 := 0, 1 := 1, 2 := 0], map[0 := 0, 1 := 0, 2 := 0])
  {
    hide After, Combined, Rate, Decide;
    AfterSecond(valid);
    var entries := [FIRST, SECOND, THIRD];
    var run := After(entries, valid, 2);
    DecideSingle(entries, valid, run, 2, 2);
    SingleValues();
    ThirdRaises();
    assert TxsOf(entries, [0] + [2]) == [FIRST, THIRD] && TxsOf(entries, [0]) == [FIRST];
    AfterIs(entries, valid, 3);
    assert [0] + [2] == [0, 2] && [[0], [1]][0 := [0, 2]] == [[0, 2], [1]];
    assert Recorded(map[1 := 0, 2 := 0], [3], 0) == map[1 := 0, 2 := 0, 3 := 0];
  }

  lemma AfterIs(entries: seq<Tx>, valid: seq<Tx> -> bool, n: nat)
    requires 0 < n <= |entries|
    ensures var run := After(entries, valid, n - 1);
            After(entries, valid, n) == Step(run, entries[n - 1], n - 1, Decide(entries, valid, run, n - 1))
  {}

  /**
   * The second spends from the first and is split off, the third spends from the second and joins the first:
   * the third then comes before the second, whatever the sort does with equal buckets.
   */
  lemma OutOfOrder(valid: seq<Tx> -> bool, order: seq<nat>)
    requires forall txs :: valid(txs)
    requires Falling([FIRST, SECOND, THIRD], After([FIRST, SECOND, THIRD], valid, 3), order)
    ensures var entries := [FIRST, SECOND, THIRD];
            var run := After(entries, valid, 3);
            && Supplies(entries, run, 1, 2) && Spread(run.groups, order) == [0, 2, 1]
            && !ParentsFirst(entries, run, Spread(run.groups, order))
  {
    hide After, Combined, Rate, Falling, Precedes;
    AfterThird(valid);
    var entries := [FIRST, SECOND, THIRD];
    var run := After(entries, valid, 3);
    SingleValues();
    ThirdRaises();
    assert TxsOf(entries, [0, 2]) == [FIRST, THIRD] && TxsOf(entries, [1]) == [SECOND];
    TwoInOrder(entries, run, order);
    SpreadTwo([0, 2], [1]);
    assert Last(entries, run.home.Keys, 2, 2) == Some(1);
    assert entries[2].inputs[0] == 2 && Last(entries, run.home.Keys, 2, entries[2].inputs[0]) == Some(1);
    assert Supplies(entries, run, 1, 2);
    assert !Precedes([0, 2, 1], 1, 2) by { LastOfThree(); }
  }

  lemma SpreadTwo(g: seq<nat>, h: seq<nat>)
    ensures Spread([g, h], [0, 1]) == g + h
  {
    assert [0, 1][..1] == [0] && [0][..0] == [];
    assert Spread([g, h], [0]) == g;
  }

  lemma LastOfThree()
    ensures !Precedes([0, 2, 1], 1, 2)
  {}

  lemma TwoInOrder(entries: seq<Tx>, run: Run, order: seq<nat>)
    requires Falling(entries, run, order) && |run.groups| == 2 && Pays(entries, run, 0) > Pays(entries, run, 1)
    ensures order == [0, 1]
  {
    PaysOrder(entries, run, order, 0, 1);
    hide Pays, Falling;
    FallingIs(entries, run, order);
    TwoOnly(order);
  }

  lemma TwoOnly(order: seq<nat>)
    requires Below(order, 2) && Distinct(order) && Precedes(order, 0, 1)
    ensures order == [0, 1]
  {
    var x, y, z := order[0], order[1], order[|order| - 1];
    assert x in order && y in order && z in order;
  }
}
