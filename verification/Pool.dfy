/** Choosing transactions of the pool for a block. */
module Pools {
  import opened Wrappers
  import opened Buckets

  datatype Bucket = Bucket(rawTxs: seq<Tx>, feeToWeight: nat)

  /** What aggregating transactions and validating the aggregate ends with. */
  datatype Verdict = Valid | Invalid | AggregateError

  // Sorting

  ghost predicate Descending(fees: seq<nat>, order: seq<nat>) {
    forall a, b :: 0 <= a < b < |order| && order[a] < |fees| && order[b] < |fees| ==> fees[order[a]] >= fees[order[b]]
  }

  /** Puts bucket g in its place among sorted ones. */
  function Insert(fees: seq<nat>, sorted: seq<nat>, g: nat): (r: seq<nat>)
    requires g < |fees| && forall x :: x in sorted ==> x < |fees|
  {
    var n := |sorted|;
    if n == 0 then [g]
    else
      assert sorted[n - 1] in sorted;
      if fees[sorted[n - 1]] >= fees[g] then sorted + [g]
      else
        BelowRest(sorted, |fees|);
        Insert(fees, sorted[..n - 1], g) + [sorted[n - 1]]
  }

  lemma {:induction false} InsertHas(fees: seq<nat>, sorted: seq<nat>, g: nat)
    requires g < |fees| && forall x :: x in sorted ==> x < |fees|
    ensures forall x :: x in Insert(fees, sorted, g) <==> x in sorted || x == g
  {
    var n := |sorted|;
    if n > 0 {
      BelowRest(sorted, |fees|);
      InsertHas(fees, sorted[..n - 1], g);
      assert sorted == sorted[..n - 1] + [sorted[n - 1]];
    }
  }

  lemma PushSorted(fees: seq<nat>, sorted: seq<nat>, g: nat)
    requires g < |fees| && Below(sorted, |fees|) && Distinct(sorted) && Descending(fees, sorted)
    requires forall x :: x in sorted ==> x != g && fees[x] >= fees[g]
    ensures Distinct(sorted + [g]) && Descending(fees, sorted + [g])
  {
    assert forall a :: 0 <= a < |sorted| ==> sorted[a] in sorted;
  }

  lemma LowestLast(fees: seq<nat>, rest: seq<nat>, last: nat)
    requires Below(rest + [last], |fees|) && Distinct(rest + [last]) && Descending(fees, rest + [last])
    ensures last < |fees| && Below(rest, |fees|) && Distinct(rest) && Descending(fees, rest)
    ensures forall x :: x in rest ==> x != last && fees[x] >= fees[last]
  {
    var s := rest + [last];
    assert s[|rest|] == last && last in s;
    DistinctSplit(rest, last);
    forall x | x in rest ensures x < |fees| && fees[x] >= fees[last] {
      assert x in s;
      var a :| 0 <= a < |rest| && rest[a] == x;
      assert s[a] == x;
    }
    forall a, b | 0 <= a < b < |rest| && rest[a] < |fees| && rest[b] < |fees| ensures fees[rest[a]] >= fees[rest[b]] {
      assert s[a] == rest[a] && s[b] == rest[b];
    }
  }

  lemma {:induction false} InsertKeeps(fees: seq<nat>, sorted: seq<nat>, g: nat)
    requires g < |fees| && Below(sorted, |fees|) && Distinct(sorted) && Descending(fees, sorted) && g !in sorted
    ensures Distinct(Insert(fees, sorted, g)) && Descending(fees, Insert(fees, sorted, g))
  {
    hide Below, Distinct, Descending;
    var n := |sorted|;
    assert forall x :: x in sorted ==> x < |fees| by { BelowIs(sorted, |fees|); }
    if n == 0 {
      assert [] + [g] == [g];
      PushSorted(fees, sorted, g);
    } else {
      var rest, last := sorted[..n - 1], sorted[n - 1];
      assert sorted == rest + [last];
      LowestLast(fees, rest, last);
      BelowIs(rest, |fees|);
      if fees[last] >= fees[g] {
        PushSorted(fees, sorted, g);
      } else {
        InsertKeeps(fees, rest, g);
        InsertHas(fees, rest, g);
        BelowIs(Insert(fees, rest, g), |fees|);
        PushSorted(fees, Insert(fees, rest, g), last);
      }
    }
  }

  lemma BelowIs(s: seq<nat>, n: nat)
    ensures Below(s, n) <==> forall x :: x in s ==> x < n
  {}

  /** The buckets by falling fee for their weight. */
  function SortByFee(fees: seq<nat>, n: nat): (order: seq<nat>)
    requires n <= |fees|
    ensures forall x: nat :: x in order <==> x < n
  {
    if n == 0 then [] else
      InsertHas(fees, SortByFee(fees, n - 1), n - 1);
      Insert(fees, SortByFee(fees, n - 1), n - 1)
  }

  /** Every bucket once, by falling fee for its weight. */
  lemma {:induction false} SortKeeps(fees: seq<nat>, n: nat)
    requires n <= |fees|
    ensures Distinct(SortByFee(fees, n)) && Descending(fees, SortByFee(fees, n))
    ensures forall g: nat :: g in SortByFee(fees, n) <==> g < n
  {
    hide Insert;
    if n > 0 {
      SortKeeps(fees, n - 1);
      InsertKeeps(fees, SortByFee(fees, n - 1), n - 1);
    }
  }

  function Flatten(buckets: seq<Bucket>, order: seq<nat>): (txs: seq<Tx>)
    requires forall x :: x in order ==> x < |buckets|
  {
    if order == [] then []
    else
      BelowRest(order, |buckets|);
      Flatten(buckets, order[..|order| - 1]) + buckets[order[|order| - 1]].rawTxs
  }

  // Choosing

  /** The buckets are those of the walk. */
  ghost predicate Match(entries: seq<Tx>, run: Run, buckets: seq<Bucket>) {
    && |buckets| == |run.groups|
    && (forall g :: 0 <= g < |buckets| ==> Below(run.groups[g], |entries|) && run.groups[g] != [])
    && (forall g :: 0 <= g < |buckets| ==>
          buckets[g].rawTxs == TxsOf(entries, run.groups[g]) && buckets[g].feeToWeight == Pays(entries, run, g))
  }

  method LookAtInputs(tx: Tx, commits: map<Commit, nat>, rejected: set<Commit>)
    returns (insertPos: Option<nat>, isRejected: bool)
    ensures insertPos == FirstListed(tx.inputs, commits, rejected, |tx.inputs|)
    ensures isRejected <==> TurnedDown(tx.inputs, commits, rejected)
  {
    insertPos, isRejected := None, false;
    for m := 0 to |tx.inputs|
      invariant insertPos == FirstListed(tx.inputs, commits, rejected, m)
      invariant isRejected <==>
                (exists k :: 0 <= k < m && tx.inputs[k] in rejected) ||
                (exists k, l :: 0 <= k < l < m && tx.inputs[k] in commits && tx.inputs[l] in commits)
    {
      var input := tx.inputs[m];
      FirstListedIs(tx.inputs, commits, rejected, m);
      if input in rejected {
        isRejected := true;
      } else if input in commits {
        if insertPos.Some? {
          isRejected := true;
        } else {
          insertPos := Some(commits[input]);
        }
      }
    }
  }

  /**
   * Into the bucket of its parent, into a new bucket, or nowhere exactly when the aggregate is not valid.
   * No bucket pays less than before.
   */
  method Place(tx: Tx, insertPos: Option<nat>, buckets: seq<Bucket>, valid: seq<Tx> -> bool)
    returns (next: seq<Bucket>, pos: Option<nat>)
    requires insertPos.Some? ==> insertPos.value < |buckets|
    ensures pos.None? <==> insertPos.Some? && !valid(buckets[insertPos.value].rawTxs + [tx])
    ensures pos.None? ==> next == buckets
    ensures pos.Some? ==> pos == if insertPos.Some? then insertPos else Some(|buckets|)
    ensures pos.Some? ==>
              if insertPos.Some? && Combined(buckets[insertPos.value].rawTxs + [tx]) >= buckets[insertPos.value].feeToWeight
              then next == buckets[insertPos.value := Bucket(buckets[insertPos.value].rawTxs + [tx],
                                                             Combined(buckets[insertPos.value].rawTxs + [tx]))]
              else next == buckets + [Bucket([tx], Rate(tx))]
    ensures forall g :: 0 <= g < |buckets| ==> g < |next| && next[g].feeToWeight >= buckets[g].feeToWeight
  {
    next, pos := buckets, insertPos;
    match insertPos
    case None =>
      pos := Some(|buckets|);
      next := buckets + [Bucket([tx], Rate(tx))];
    case Some(p) =>
      var bucket := buckets[p];
      if !valid(bucket.rawTxs + [tx]) {
        return buckets, None;
      }
      var joined := Bucket(bucket.rawTxs + [tx], Combined(bucket.rawTxs + [tx]));
      if joined.feeToWeight >= bucket.feeToWeight {
        next := buckets[p := joined];
      } else {
        next := buckets + [Bucket([tx], Rate(tx))];
      }
  }

  lemma MatchOpen(entries: seq<Tx>, run: Run, buckets: seq<Bucket>, n: nat, pos: nat)
    requires n < |entries| && Match(entries, run, buckets)
    ensures Match(entries, Open(run, entries[n], n, pos), buckets + [Bucket([entries[n]], Rate(entries[n]))])
  {
    hide Rate, Combined, Recorded;
    assert TxsOf(entries, [n]) == [entries[n]];
  }

  lemma MatchJoin(entries: seq<Tx>, run: Run, buckets: seq<Bucket>, n: nat, pos: nat)
    requires n < |entries| && Match(entries, run, buckets) && pos < |buckets|
    ensures var txs := buckets[pos].rawTxs + [entries[n]];
            Match(entries, Join(run, entries[n], n, pos), buckets[pos := Bucket(txs, Combined(txs))])
  {
    hide Rate, Combined, Recorded, TxsOf;
    TxsPush(entries, run.groups[pos], n);
  }

  /** The new state after an entry is that of the walk. */
  lemma Walked(entries: seq<Tx>, valid: seq<Tx> -> bool, run: Run, buckets: seq<Bucket>, n: nat,
               insertPos: Option<nat>, isRejected: bool, next: seq<Bucket>, pos: Option<nat>)
    requires n < |entries| && Shaped(run, n) && Match(entries, run, buckets)
    requires insertPos == FirstListed(entries[n].inputs, run.commits, run.rejected, |entries[n].inputs|)
    requires isRejected <==> TurnedDown(entries[n].inputs, run.commits, run.rejected)
    requires insertPos.Some? ==> insertPos.value < |buckets|
    requires isRejected ==> pos.None? && next == buckets
    requires !isRejected ==>
               && (pos.None? <==> insertPos.Some? && !valid(buckets[insertPos.value].rawTxs + [entries[n]]))
               && (pos.None? ==> next == buckets)
               && (pos.Some? ==> pos == if insertPos.Some? then insertPos else Some(|buckets|))
               && (pos.Some? ==>
                     if insertPos.Some? && Combined(buckets[insertPos.value].rawTxs + [entries[n]]) >= buckets[insertPos.value].feeToWeight
                     then next == buckets[insertPos.value := Bucket(buckets[insertPos.value].rawTxs + [entries[n]],
                                                                    Combined(buckets[insertPos.value].rawTxs + [entries[n]]))]
                     else next == buckets + [Bucket([entries[n]], Rate(entries[n]))])
    ensures var r := Step(run, entries[n], n, Decide(entries, valid, run, n));
            && Match(entries, r, next)
            && r.commits == (if pos.Some? then Recorded(run.commits, entries[n].outputs, pos.value) else run.commits)
            && r.rejected == (if pos.Some? then run.rejected else run.rejected + SetOf(entries[n].outputs))
  {
    hide Rate, Combined, Recorded, TxsOf, TurnedDown, FirstListed, SetOf;
    if insertPos.Some? { TxsPush(entries, run.groups[insertPos.value], n); }
    if pos.Some? {
      MatchOpen(entries, run, buckets, n, pos.value);
      if pos.value < |buckets| { MatchJoin(entries, run, buckets, n, pos.value); }
    }
  }

  lemma {:induction false} FlattenIs(entries: seq<Tx>, run: Run, buckets: seq<Bucket>, order: seq<nat>)
    requires Match(entries, run, buckets) && Below(order, |buckets|)
    ensures Below(Spread(run.groups, order), |entries|) && Flatten(buckets, order) == TxsOf(entries, Spread(run.groups, order))
  {
    if order != [] {
      BelowRest(order, |buckets|);
      FlattenIs(entries, run, buckets, order[..|order| - 1]);
    }
  }

  lemma FallingFrom(entries: seq<Tx>, run: Run, buckets: seq<Bucket>, fees: seq<nat>, order: seq<nat>)
    requires Match(entries, run, buckets) && |fees| == |buckets| && Distinct(order) && Descending(fees, order)
    requires forall g :: 0 <= g < |fees| ==> fees[g] == buckets[g].feeToWeight
    requires forall g: nat :: g in order <==> g < |fees|
    ensures Falling(entries, run, order)
  {
    hide Pays;
  }

  // The order of dependency by fees alone

  lemma SomeOrder(entries: seq<Tx>, run: Run) returns (order: seq<nat>)
    requires Shaped(run, |entries|)
    ensures Falling(entries, run, order)
  {
    hide Pays, Below;
    var fees := seq(|run.groups|, g requires 0 <= g < |run.groups| => Pays(entries, run, g));
    order := SortByFee(fees, |fees|);
    SortKeeps(fees, |fees|);
    BelowIs(order, |run.groups|);
  }

  /** Two buckets that pay the same change places, and the order still falls. */
  lemma SwapFalling(entries: seq<Tx>, run: Run, order: seq<nat>, a: nat, b: nat)
    requires Falling(entries, run, order) && a < b < |order| && order[a] < |run.groups| && order[b] < |run.groups|
    requires Pays(entries, run, order[a]) == Pays(entries, run, order[b])
    ensures Falling(entries, run, order[a := order[b]][b := order[a]])
    ensures !Precedes(order[a := order[b]][b := order[a]], order[a], order[b])
  {
    hide Pays, Below;
    var next := order[a := order[b]][b := order[a]];
    BelowIs(order, |run.groups|);
    forall k | 0 <= k < |next| ensures next[k] == order[if k == a then b else if k == b then a else k] {}
    forall g | 0 <= g < |run.groups| ensures g in next {
      assert g in order;
      var k :| 0 <= k < |order| && order[k] == g;
      assert next[if k == a then b else if k == b then a else k] == g;
    }
    forall x | x in next ensures x < |run.groups| {
      var k :| 0 <= k < |next| && next[k] == x;
      assert order[if k == a then b else if k == b then a else k] in order;
    }
    BelowIs(next, |run.groups|);
  }

  /** Where one bucket comes first in every order, it pays more. */
  lemma PairFees(entries: seq<Tx>, run: Run, order: seq<nat>, j: nat, i: nat)
    requires Apart(entries, run) && SplitOff(run, j) && SplitOff(run, i) && Falling(entries, run, order)
    requires forall other :: Falling(entries, run, other) ==> Precedes(other, run.home[j], run.home[i])
    ensures i < |entries| && j < |entries| && Rate(entries[i]) < Rate(entries[j])
  {
    AloneIs(entries, run, i);
    AloneIs(entries, run, j);
    hide Pays, Below, Apart, Rate;
    var a, b :| 0 <= a < b < |order| && order[a] == run.home[j] && order[b] == run.home[i];
    assert Pays(entries, run, order[a]) >= Pays(entries, run, order[b]);
    if Pays(entries, run, order[a]) == Pays(entries, run, order[b]) { SwapFalling(entries, run, order, a, b); }
  }

  /** Parents come first, however buckets that pay the same are sorted, exactly when the fees are right. */
  ghost predicate AlwaysFirst(entries: seq<Tx>, run: Run) {
    forall order :: Falling(entries, run, order) ==> Below(order, |run.groups|) && ParentsFirst(entries, run, Spread(run.groups, order))
  }

  lemma DependencyByFees(entries: seq<Tx>, valid: seq<Tx> -> bool)
    ensures var run := After(entries, valid, |entries|); AlwaysFirst(entries, run) <==> SplitsByFee(entries, run)
  {
    hide *;
    var run := After(entries, valid, |entries|);
    AllApart(entries, valid, |entries|);
    AllLinked(entries, valid, |entries|);
    AlwaysIs(entries, run);
    ByFeeIs(entries, run);
    forall order | Falling(entries, run, order)
      ensures Below(order, |run.groups|)
      ensures ParentsFirst(entries, run, Spread(run.groups, order)) <==> SplitsInOrder(entries, run, order)
    {
      FallingIs(entries, run, order);
      DependencyOrder(entries, valid, order);
    }
    if SplitsByFee(entries, run) {
      forall order | Falling(entries, run, order) ensures SplitsInOrder(entries, run, order) {
        FeesInOrder(entries, run, order);
      }
    }
    if AlwaysFirst(entries, run) {
      var order := SomeOrder(entries, run);
      OrderedFees(entries, run, order);
    }
  }

  lemma AlwaysIs(entries: seq<Tx>, run: Run)
    ensures AlwaysFirst(entries, run) <==>
              forall order :: Falling(entries, run, order) ==>
                Below(order, |run.groups|) && ParentsFirst(entries, run, Spread(run.groups, order))
  {
    hide Falling, Below, ParentsFirst, Spread;
  }

  lemma ByFeeIs(entries: seq<Tx>, run: Run)
    ensures SplitsByFee(entries, run) <==>
              forall i: nat, j: nat :: Supplies(entries, run, j, i) && SplitOff(run, j) ==>
                SplitOff(run, i) && j < |entries| && Rate(entries[i]) < Rate(entries[j])
  {
    hide Rate;
  }

  lemma FeesInOrder(entries: seq<Tx>, run: Run, order: seq<nat>)
    requires SplitsByFee(entries, run) && Apart(entries, run) && Falling(entries, run, order)
    ensures SplitsInOrder(entries, run, order)
  {
    hide Pays, Below, Apart, Rate, Supplies, Precedes, Falling;
    forall i: nat, j: nat | Supplies(entries, run, j, i) && SplitOff(run, j)
      ensures SplitOff(run, i) && Precedes(order, run.home[j], run.home[i])
    {
      AloneIs(entries, run, i);
      AloneIs(entries, run, j);
      PaysOrder(entries, run, order, run.home[j], run.home[i]);
    }
  }

  /** When every order is right, no two buckets that could be sorted otherwise are in the way. */
  lemma OrderedFees(entries: seq<Tx>, run: Run, order: seq<nat>)
    requires Apart(entries, run) && Falling(entries, run, order)
    requires forall i :: i in run.home ==> Linked(entries, run, i)
    requires forall other :: Falling(entries, run, other) ==> SplitsInOrder(entries, run, other)
    ensures SplitsByFee(entries, run)
  {
    hide Pays, Below, Apart, Rate, Supplies, Precedes, Falling, Linked;
    forall i: nat, j: nat | Supplies(entries, run, j, i) && SplitOff(run, j)
      ensures SplitOff(run, i) && i < |entries| && j < |entries| && Rate(entries[i]) < Rate(entries[j])
    {
      assert SplitsInOrder(entries, run, order);
      forall other | Falling(entries, run, other) ensures Precedes(other, run.home[j], run.home[i]) {
        assert SplitsInOrder(entries, run, other);
      }
      PairFees(entries, run, order, j, i);
    }
  }

  /**
   * bucket_transactions: the buckets of the walk by falling fee. Every chosen transaction comes once. It has at most
   * one input from chosen transactions and spends from none that was left out, and LeftOut says which are left out.
   * Parents come first exactly when every chosen child of a split-off transaction is split off and sorts after it.
   */
  method BucketTransactions(entries: seq<Tx>, valid: seq<Tx> -> bool) returns (txs: seq<Tx>, ghost order: seq<nat>)
    ensures var run := After(entries, valid, |entries|);
            Falling(entries, run, order) &&
            var places := Spread(run.groups, order);
            && Below(places, |entries|) && Distinct(places)
            && (forall i :: i in places <==> i in run.home) && txs == TxsOf(entries, places)
            && multiset(txs) == Chosen(entries, run.home.Keys, |entries|) && multiset(txs) <= multiset(entries)
            && (forall i :: i in run.home ==> Linked(entries, run, i))
            && (ParentsFirst(entries, run, places) <==> SplitsInOrder(entries, run, order))
  {
    hide *;
    var buckets: seq<Bucket> := [];
    var commits: map<Commit, nat> := map[];
    var rejected: set<Commit> := {};
    WalkStart(entries, valid);
    for n := 0 to |entries|
      invariant Match(entries, After(entries, valid, n), buckets)
      invariant commits == After(entries, valid, n).commits && rejected == After(entries, valid, n).rejected
    {
      var tx := entries[n];
      ghost var run := After(entries, valid, n);
      MatchIs(entries, run, n, buckets);
      AfterIs(entries, valid, n + 1);
      var insertPos, isRejected := LookAtInputs(tx, commits, rejected);
      FirstListedIs(tx.inputs, commits, rejected, |tx.inputs|);
      if isRejected {
        Walked(entries, valid, run, buckets, n, insertPos, true, buckets, None);
        rejected := rejected + SetOf(tx.outputs);
        continue;
      }
      var next, pos := Place(tx, insertPos, buckets, valid);
      Walked(entries, valid, run, buckets, n, insertPos, false, next, pos);
      buckets := next;
      if pos.None? {
        rejected := rejected + SetOf(tx.outputs);
      } else {
        commits := Recorded(commits, tx.outputs, pos.value);
      }
    }
    ghost var run := After(entries, valid, |entries|);
    MatchIs(entries, run, |entries|, buckets);
    var fees := seq(|buckets|, g requires 0 <= g < |buckets| => buckets[g].feeToWeight);
    var sorted := SortByFee(fees, |fees|);
    SortKeeps(fees, |fees|);
    FallingFrom(entries, run, buckets, fees, sorted);
    FallingIs(entries, run, sorted);
    order := sorted;
    txs := Flatten(buckets, sorted);
    FlattenIs(entries, run, buckets, sorted);
    SpreadAll(entries, valid, sorted);
    AllLinked(entries, valid, |entries|);
    DependencyOrder(entries, valid, sorted);
  }

  lemma WalkStart(entries: seq<Tx>, valid: seq<Tx> -> bool)
    ensures Match(entries, After(entries, valid, 0), []) && After(entries, valid, 0) == Run([], map[], {}, map[], map[])
  {}

  lemma MatchIs(entries: seq<Tx>, run: Run, n: nat, buckets: seq<Bucket>)
    requires Match(entries, run, buckets) && Shaped(run, n)
    ensures |buckets| == |run.groups| && forall c :: c in run.commits ==> run.commits[c] < |buckets|
  {}

  // Validation one by one

  /** How many chosen places are below i. */
  ghost function Before(picks: seq<nat>, i: nat): (n: nat)
    ensures n <= |picks|
  {
    if picks == [] then 0
    else if picks[|picks| - 1] < i then |picks|
    else Before(picks[..|picks| - 1], i)
  }

  /** The kept transactions: a subsequence, each valid on top of those before it, the others not. */
  ghost predicate Greedy(txs: seq<Tx>, extra: seq<Tx>, judge: seq<Tx> -> Verdict, kept: seq<Tx>, picks: seq<nat>, n: nat)
  {
    && n <= |txs| && |picks| == |kept|
    && (forall k :: 0 <= k < |picks| ==> picks[k] < n && kept[k] == txs[picks[k]])
    && (forall k, l :: 0 <= k < l < |picks| ==> picks[k] < picks[l])
    && (forall k :: 0 <= k < |kept| ==> judge(extra + kept[..k] + [kept[k]]) == Valid)
    && (forall i :: 0 <= i < n && i !in picks ==> judge(extra + kept[..Before(picks, i)] + [txs[i]]) == Invalid)
  }

  lemma {:induction false} BeforeAll(picks: seq<nat>, i: nat)
    requires forall k :: 0 <= k < |picks| ==> picks[k] < i
    ensures Before(picks, i) == |picks|
  {}

  lemma BeforePush(picks: seq<nat>, p: nat, i: nat)
    requires i <= p
    ensures Before(picks + [p], i) == Before(picks, i)
  {
    assert (picks + [p])[..|picks|] == picks;
  }

  lemma GreedyKeep(txs: seq<Tx>, extra: seq<Tx>, judge: seq<Tx> -> Verdict, kept: seq<Tx>, picks: seq<nat>, n: nat)
    requires Greedy(txs, extra, judge, kept, picks, n) && n < |txs| && judge(extra + kept + [txs[n]]) == Valid
    ensures Greedy(txs, extra, judge, kept + [txs[n]], picks + [n], n + 1)
  {
    hide Before;
    var kept', picks' := kept + [txs[n]], picks + [n];
    forall k | 0 <= k < |kept'| ensures judge(extra + kept'[..k] + [kept'[k]]) == Valid {
      if k < |kept| {
        assert kept'[..k] == kept[..k] && kept'[k] == kept[k];
      } else {
        assert kept'[..k] == kept;
      }
    }
    forall i | 0 <= i < n + 1 && i !in picks'
      ensures judge(extra + kept'[..Before(picks', i)] + [txs[i]]) == Invalid
    {
      assert picks'[|picks|] == n;
      assert forall k :: 0 <= k < |picks| ==> picks'[k] == picks[k];
      BeforePush(picks, n, i);
      assert kept'[..Before(picks, i)] == kept[..Before(picks, i)];
    }
  }

  lemma GreedyDrop(txs: seq<Tx>, extra: seq<Tx>, judge: seq<Tx> -> Verdict, kept: seq<Tx>, picks: seq<nat>, n: nat)
    requires Greedy(txs, extra, judge, kept, picks, n) && n < |txs| && judge(extra + kept + [txs[n]]) == Invalid
    ensures Greedy(txs, extra, judge, kept, picks, n + 1)
  {
    hide Before;
    BeforeAll(picks, n);
    assert kept[..|kept|] == kept;
  }

  /** What is kept of the first n transactions. */
  ghost function Kept(txs: seq<Tx>, extra: seq<Tx>, judge: seq<Tx> -> Verdict, n: nat): (kept: seq<Tx>)
    requires n <= |txs|
  {
    if n == 0 then []
    else
      var before := Kept(txs, extra, judge, n - 1);
      if judge(extra + before + [txs[n - 1]]) == Valid then before + [txs[n - 1]] else before
  }

  /** The aggregate for transaction n cannot be built. */
  ghost predicate Breaks(txs: seq<Tx>, extra: seq<Tx>, judge: seq<Tx> -> Verdict, n: nat) {
    n < |txs| && judge(extra + Kept(txs, extra, judge, n) + [txs[n]]) == AggregateError
  }

  /** validate_raw_txs: an error exactly when some aggregate cannot be built, and otherwise the greedy choice. */
  method ValidateRawTxs(txs: seq<Tx>, extraTx: Option<Tx>, judge: seq<Tx> -> Verdict) returns (r: Option<seq<Tx>>)
    ensures var extra := if extraTx.Some? then [extraTx.value] else [];
            && (r.None? <==> exists n :: Breaks(txs, extra, judge, n))
            && (r.Some? ==> r.value == Kept(txs, extra, judge, |txs|))
  {
    var validTxs: seq<Tx> := [];
    ghost var extra := if extraTx.Some? then [extraTx.value] else [];
    for i := 0 to |txs|
      invariant validTxs == Kept(txs, extra, judge, i)
      invariant forall n :: 0 <= n < i ==> !Breaks(txs, extra, judge, n)
    {
      var candidateTxs: seq<Tx> := [];
      if extraTx.Some? {
        candidateTxs := candidateTxs + [extraTx.value];
      }
      candidateTxs := candidateTxs + validTxs;
      candidateTxs := candidateTxs + [txs[i]];
      assert candidateTxs == extra + validTxs + [txs[i]];
      var verdict := judge(candidateTxs);
      if verdict == AggregateError {
        assert Breaks(txs, extra, judge, i);
        return None;
      }
      if verdict == Valid {
        validTxs := validTxs + [txs[i]];
      }
    }
    r := Some(validTxs);
  }

  lemma GreedyStart(txs: seq<Tx>, extra: seq<Tx>, judge: seq<Tx> -> Verdict)
    ensures Greedy(txs, extra, judge, [], [], 0)
  {}

  /** What is kept is a subsequence, each member valid on top of those before it, and each dropped one not. */
  lemma {:induction false} KeptIsGreedy(txs: seq<Tx>, extra: seq<Tx>, judge: seq<Tx> -> Verdict, n: nat)
    returns (picks: seq<nat>)
    requires n <= |txs| && forall i :: 0 <= i < n ==> !Breaks(txs, extra, judge, i)
    ensures Greedy(txs, extra, judge, Kept(txs, extra, judge, n), picks, n)
  {
    hide Greedy;
    picks := [];
    GreedyStart(txs, extra, judge);
    if n > 0 {
      picks := KeptIsGreedy(txs, extra, judge, n - 1);
      assert !Breaks(txs, extra, judge, n - 1);
      var before := Kept(txs, extra, judge, n - 1);
      if judge(extra + before + [txs[n - 1]]) == Valid {
        GreedyKeep(txs, extra, judge, before, picks, n - 1);
        picks := picks + [n - 1];
      } else {
        GreedyDrop(txs, extra, judge, before, picks, n - 1);
      }
    }
  }

  /** The aggregate of all that is kept is valid. */
  lemma {:induction false} KeptIsValid(txs: seq<Tx>, extra: seq<Tx>, judge: seq<Tx> -> Verdict, n: nat)
    requires n <= |txs| && Kept(txs, extra, judge, n) != []
    ensures judge(extra + Kept(txs, extra, judge, n)) == Valid
  {
    var before := Kept(txs, extra, judge, n - 1);
    if judge(extra + before + [txs[n - 1]]) == Valid {
      assert extra + before + [txs[n - 1]] == extra + (before + [txs[n - 1]]);
    } else {
      KeptIsValid(txs, extra, judge, n - 1);
    }
  }
}
