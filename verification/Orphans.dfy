/** The pool of blocks whose parent is not known yet, indexed by hash and by height. */
module Orphans {
  import opened Bitmaps
  import opened Compaction
  import opened Wrappers

  type Hash = nat

  datatype Orphan = Orphan(hash: Hash, height: nat, added: nat)

  /** What processing a block may end with. */
  datatype Outcome = Accepted | Rejected | Orphaned

  const MAX_ORPHAN_SIZE: nat := 200
  const MAX_ORPHAN_AGE_SECS: nat := 300

  /** Every orphan is listed under its height, and every listing is under the height of its block. */
  ghost predicate Indexed(orphans: map<Hash, Orphan>, index: map<nat, seq<Hash>>, heightOf: Hash -> nat)
  {
    && (forall h :: h in orphans ==>
          orphans[h].hash == h && orphans[h].height == heightOf(h) && heightOf(h) in index && h in index[heightOf(h)])
    && (forall k, i :: k in index && 0 <= i < |index[k]| ==> heightOf(index[k][i]) == k)
  }

  /** The orphans that are not too old. */
  function Young(orphans: map<Hash, Orphan>, now: nat): (r: map<Hash, Orphan>) {
    map h | h in orphans && now - orphans[h].added < MAX_ORPHAN_AGE_SECS :: orphans[h]
  }

  /** The orphans below a height. */
  function Under(orphans: map<Hash, Orphan>, height: nat): (r: map<Hash, Orphan>) {
    map h | h in orphans && orphans[h].height < height :: orphans[h]
  }

  function From(orphans: map<Hash, Orphan>, height: nat): (r: map<Hash, Orphan>) {
    map h | h in orphans && orphans[h].height >= height :: orphans[h]
  }

  /** The heights at which there are orphans. */
  ghost function HeightsOf(orphans: map<Hash, Orphan>): (r: set<nat>) {
    set h | h in orphans :: orphans[h].height
  }

  ghost predicate Within(a: map<Hash, Orphan>, b: map<Hash, Orphan>) {
    forall h :: h in a ==> h in b && b[h] == a[h]
  }

  lemma FewerKeys<T>(a: set<T>, b: set<T>)
    requires a <= b
    ensures |a| <= |b| && (a < b ==> |a| < |b|)
  {
    assert b == a + (b - a);
    if a < b { var x :| x in b - a; }
  }

  lemma WithinSmaller(a: map<Hash, Orphan>, b: map<Hash, Orphan>)
    requires Within(a, b)
    ensures |a| <= |b|
  {
    FewerKeys(a.Keys, b.Keys);
    assert |a| == |a.Keys| && |b| == |b.Keys|;
  }

  lemma WithinIs(a: map<Hash, Orphan>, b: map<Hash, Orphan>)
    requires Within(a, b)
    ensures forall h :: h in a ==> h in b && b[h] == a[h]
  {}

  /** An orphan is kept for 300 seconds. */
  lemma YoungIs(orphans: map<Hash, Orphan>, now: nat, h: Hash)
    ensures h in Young(orphans, now) <==> h in orphans && now < orphans[h].added + 300
  {}

  lemma YoungWithin(orphans: map<Hash, Orphan>, now: nat)
    ensures Within(Young(orphans, now), orphans)
  {}

  lemma UnderWithin(orphans: map<Hash, Orphan>, t: nat)
    ensures Within(Under(orphans, t), orphans)
  {}

  lemma OneMore(orphans: map<Hash, Orphan>, x: Orphan)
    ensures |orphans[x.hash := x]| == if x.hash in orphans then |orphans| else |orphans| + 1
  {
    var more := orphans[x.hash := x];
    assert more.Keys == orphans.Keys + {x.hash};
    assert |more| == |more.Keys| && |orphans| == |orphans.Keys|;
    if x.hash in orphans { assert more.Keys == orphans.Keys; }
  }

  lemma IndexedWithin(orphans: map<Hash, Orphan>, rest: map<Hash, Orphan>, index: map<nat, seq<Hash>>, heightOf: Hash -> nat)
    requires Indexed(orphans, index, heightOf) && Within(rest, orphans)
    ensures Indexed(rest, index, heightOf)
  {}

  ghost function Without(orphans: map<Hash, Orphan>, hashes: seq<Hash>): (r: map<Hash, Orphan>) {
    map h | h in orphans && h !in hashes :: orphans[h]
  }

  ghost function ListedUnder(index: map<nat, seq<Hash>>, t: nat): (r: map<nat, seq<Hash>>) {
    map k | k in index && k < t :: index[k]
  }

  /** What has been taken out and what is left. */
  ghost predicate Removing(orphans: map<Hash, Orphan>, hashes: seq<Hash>, rest: map<Hash, Orphan>, removed: seq<Orphan>)
  {
    && rest == Without(orphans, hashes) && Distinct(removed) && |rest| + |removed| == |orphans|
    && forall x :: x in removed <==> x.hash in orphans && x.hash in hashes && x == orphans[x.hash]
  }

  lemma RemovingStart(orphans: map<Hash, Orphan>)
    ensures Removing(orphans, [], orphans, [])
  {
    assert Without(orphans, []) == orphans;
  }

  lemma WithoutNext(orphans: map<Hash, Orphan>, hashes: seq<Hash>, h: Hash)
    ensures Without(orphans, hashes + [h]) == Without(orphans, hashes) - {h}
    ensures h !in Without(orphans, hashes) ==> Without(orphans, hashes + [h]) == Without(orphans, hashes)
    ensures h in Without(orphans, hashes) <==> h in orphans && h !in hashes
    ensures h in orphans && h !in hashes ==> Without(orphans, hashes)[h] == orphans[h]
  {}

  lemma DistinctPush(removed: seq<Orphan>, x: Orphan)
    requires Distinct(removed) && x !in removed
    ensures Distinct(removed + [x])
  {}

  lemma RemovingStep(orphans: map<Hash, Orphan>, hashes: seq<Hash>, rest: map<Hash, Orphan>, removed: seq<Orphan>, h: Hash)
    requires Removing(orphans, hashes, rest, removed) && (h in orphans ==> orphans[h].hash == h)
    ensures h in rest ==> Removing(orphans, hashes + [h], rest - {h}, removed + [rest[h]])
    ensures h !in rest ==> Removing(orphans, hashes + [h], rest, removed)
  {
    hide Without, Distinct;
    WithoutNext(orphans, hashes, h);
    if h in rest {
      OneLess(rest, h);
      DistinctPush(removed, rest[h]);
    }
  }

  /** Every orphan is held under its hash. */
  ghost predicate Hashed(orphans: map<Hash, Orphan>) {
    forall h :: h in orphans ==> orphans[h].hash == h
  }

  /** Takes the listed orphans out, each once. */
  method RemoveAll(orphans: map<Hash, Orphan>, hashes: seq<Hash>) returns (rest: map<Hash, Orphan>, removed: seq<Orphan>)
    requires Hashed(orphans)
    ensures rest == Without(orphans, hashes)
    ensures Distinct(removed) && |rest| + |removed| == |orphans|
    ensures forall x :: x in removed <==> x.hash in orphans && x.hash in hashes && x == orphans[x.hash]
  {
    hide Without, Distinct, Removing;
    rest, removed := orphans, [];
    RemovingStart(orphans);
    assert hashes[..0] == [] && hashes[..|hashes|] == hashes;
    for i := 0 to |hashes|
      invariant Removing(orphans, hashes[..i], rest, removed)
    {
      var h := hashes[i];
      assert hashes[..i + 1] == hashes[..i] + [h];
      RemovingStep(orphans, hashes[..i], rest, removed, h);
      if h in rest {
        removed := removed + [rest[h]];
        rest := rest - {h};
      }
    }
    RemovingIs(orphans, hashes, rest, removed);
  }

  lemma RemovingIs(orphans: map<Hash, Orphan>, hashes: seq<Hash>, rest: map<Hash, Orphan>, removed: seq<Orphan>)
    requires Removing(orphans, hashes, rest, removed)
    ensures rest == Without(orphans, hashes) && Distinct(removed) && |rest| + |removed| == |orphans|
    ensures forall x :: x in removed <==> x.hash in orphans && x.hash in hashes && x == orphans[x.hash]
  {
    hide Without, Distinct;
  }

  lemma OneLess(orphans: map<Hash, Orphan>, h: Hash)
    requires h in orphans
    ensures |orphans - {h}| == |orphans| - 1
  {
    assert (orphans - {h}).Keys == orphans.Keys - {h};
    assert |orphans - {h}| == |(orphans - {h}).Keys| && |orphans| == |orphans.Keys|;
  }

  lemma ListedIsHeight(orphans: map<Hash, Orphan>, index: map<nat, seq<Hash>>, heightOf: Hash -> nat, height: nat)
    requires Indexed(orphans, index, heightOf) && height in index
    ensures forall h :: h in orphans ==> (h in index[height] <==> orphans[h].height == height)
  {}

  function With(orphans: map<Hash, Orphan>, x: Orphan): (r: map<Hash, Orphan>) {
    orphans[x.hash := x]
  }

  /** The index with the block behind the others of its height. */
  function ListedWith(index: map<nat, seq<Hash>>, x: Orphan): (r: map<nat, seq<Hash>>) {
    var hashes := if x.height in index then index[x.height] else [];
    index[x.height := hashes + [x.hash]]
  }

  lemma WithIs(orphans: map<Hash, Orphan>, x: Orphan)
    ensures forall h :: h in With(orphans, x) && h != x.hash ==> h in orphans && With(orphans, x)[h] == orphans[h]
    ensures |With(orphans, x)| == if x.hash in orphans then |orphans| else |orphans| + 1
  {
    OneMore(orphans, x);
  }

  lemma HeightsWith(orphans: map<Hash, Orphan>, heightOf: Hash -> nat, x: Orphan)
    requires (forall h :: h in orphans ==> orphans[h].height == heightOf(h)) && x.height == heightOf(x.hash)
    ensures HeightsOf(With(orphans, x)) == HeightsOf(orphans) + {x.height}
  {
    var more := With(orphans, x);
    assert x.hash in more && more[x.hash] == x;
    forall h | h in orphans ensures h in more && more[h].height == orphans[h].height {}
  }

  lemma ListedWithIs(index: map<nat, seq<Hash>>, x: Orphan)
    ensures ListedWith(index, x).Keys == index.Keys + {x.height} && x.hash in ListedWith(index, x)[x.height]
    ensures forall k, h :: k in index && h in index[k] ==> h in ListedWith(index, x)[k]
    ensures forall k, i :: k in ListedWith(index, x) && 0 <= i < |ListedWith(index, x)[k]| ==>
              var h := ListedWith(index, x)[k][i]; (k == x.height && h == x.hash) || (k in index && h in index[k])
  {
    var hashes := if x.height in index then index[x.height] else [];
    assert (hashes + [x.hash])[|hashes|] == x.hash;
  }

  /** One more block. */
  lemma IndexedInsert(orphans: map<Hash, Orphan>, index: map<nat, seq<Hash>>, heightOf: Hash -> nat, x: Orphan)
    requires Indexed(orphans, index, heightOf) && x.height == heightOf(x.hash)
    requires index.Keys == HeightsOf(orphans)
    ensures Indexed(With(orphans, x), ListedWith(index, x), heightOf)
    ensures ListedWith(index, x).Keys == HeightsOf(With(orphans, x)) && x.height in ListedWith(index, x).Keys
  {
    hide ListedWith, HeightsOf;
    HeightsWith(orphans, heightOf, x);
    ListedWithIs(index, x);
    var index' := ListedWith(index, x);
    forall k, i | k in index' && 0 <= i < |index'[k]| ensures heightOf(index'[k][i]) == k {
      var h := index'[k][i];
      if k in index && h in index[k] { var j :| 0 <= j < |index[k]| && index[k][j] == h; }
    }
  }

  class OrphanBlockPool {
    /** The height that a block, named by its hash, has. */
    ghost const heightOf: Hash -> nat
    var orphans: map<Hash, Orphan>
    var heightIdx: map<nat, seq<Hash>>
    var evicted: nat
    ghost var inserted: nat
    ghost var replaced: nat
    ghost var taken: nat

    /** The indexes agree, the size is bounded, and no orphan is unaccounted for. */
    ghost predicate Valid()
      reads this
    {
      && Indexed(orphans, heightIdx, heightOf) && heightIdx.Keys == HeightsOf(orphans) && |orphans| <= MAX_ORPHAN_SIZE
      && inserted == |orphans| + taken + evicted + replaced
    }

    constructor (ghost height: Hash -> nat)
      ensures Valid() && orphans == map[] && evicted == 0 && inserted == 0 && heightOf == height
    {
      heightOf := height;
      orphans, heightIdx, evicted, inserted, replaced, taken := map[], map[], 0, 0, 0, 0;
    }

    /** add: when there are too many, the old ones go, and then whole heights from the top. */
    method Add(orphan: Orphan, now: nat)
      requires Valid() && orphan.height == heightOf(orphan.hash)
      modifies this
      ensures Valid() && inserted == old(inserted) + 1 && taken == old(taken) && |orphans| <= 200
      ensures forall h :: h in orphans && h != orphan.hash ==> h in old(orphans) && orphans[h] == old(orphans)[h]
      ensures var all := With(old(orphans), orphan);
              && evicted + |orphans| == old(evicted) + |all|
              && if |all| <= MAX_ORPHAN_SIZE then orphans == all else Trimmed(Young(all, now), HeightsOf(all), orphans)
    {
      hide *;
      MaxIs();
      WithIs(orphans, orphan);
      Put(orphan);
      if |orphans| > MAX_ORPHAN_SIZE {
        ghost var all := orphans;
        ghost var t := MakeRoom(now);
        TrimmedAt(Young(all, now), HeightsOf(all), orphans, t);
      }
      ValidIs();
    }

    /** The orphan goes under its hash and is listed at its height. */
    method Put(orphan: Orphan)
      requires Valid() && orphan.height == heightOf(orphan.hash)
      modifies this`orphans, this`heightIdx, this`inserted, this`replaced
      ensures orphans == With(old(orphans), orphan) && inserted == old(inserted) + 1
      ensures Indexed(orphans, heightIdx, heightOf) && heightIdx.Keys == HeightsOf(orphans) && orphan.height in heightIdx
      ensures inserted == |orphans| + taken + evicted + replaced
    {
      hide *;
      ValidIs();
      IndexedInsert(orphans, heightIdx, heightOf, orphan);
      WithIs(orphans, orphan);
      heightIdx := ListedWith(heightIdx, orphan);
      inserted := inserted + 1;
      if orphan.hash in orphans { replaced := replaced + 1; }
      orphans := With(orphans, orphan);
    }

    /** remove_by_height: exactly the held orphans of the height, each once. */
    method RemoveByHeight(height: nat) returns (r: Option<seq<Orphan>>)
      requires Valid()
      modifies this`orphans, this`heightIdx, this`taken
      ensures Valid() && taken == old(taken) + if r.None? then 0 else |r.value|
      ensures |orphans| + (if r.None? then 0 else |r.value|) == |old(orphans)|
      ensures r.None? ==> orphans == old(orphans) && forall h :: h in orphans ==> orphans[h].height != height
      ensures r.Some? ==>
                && Distinct(r.value)
                && (forall x :: x in r.value <==> x.hash in old(orphans) && x == old(orphans)[x.hash] && x.height == height)
                && orphans == Elsewhere(old(orphans), height)
    {
      hide *;
      ValidIs();
      IndexedHashes(orphans, heightIdx, heightOf);
      if height !in heightIdx {
        return None;
      }
      var hashes := heightIdx[height];
      ListedIsHeight(orphans, heightIdx, heightOf, height);
      WithoutHeight(orphans, heightIdx, heightOf, height);
      HeightsElsewhere(orphans, height);
      heightIdx := heightIdx - {height};
      var rest, removed := RemoveAll(orphans, hashes);
      orphans := rest;
      taken := taken + |removed|;
      ValidIs();
      r := Some(removed);
    }

    /**
     * check_orphans: height by height while blocks are accepted. The log has the batch of every height and, by its place,
     * the call that processed each of them. All orphans of these heights are processed, each once, and the search stops
     * at the first height where none is accepted. What is put back is held again, and nothing is evicted.
     */
    method CheckOrphans(start: nat, outcome: nat -> Outcome, clock: nat -> nat)
      returns (height: nat, ghost accepted: seq<Orphan>, ghost log: seq<seq<Orphan>>)
      requires Valid()
      modifies this
      ensures Valid() && height == start + |log| - 1 && evicted == old(evicted)
      ensures Logged(old(orphans), start, log) && Remains(old(orphans), start, log, outcome, clock, orphans)
      ensures Stops(log, outcome) && Chosen(accepted, start, log, outcome) && |accepted| == height - start
      ensures Always(outcome, Accepted) ==> Gap(old(orphans), start, height) && orphans == Outside(old(orphans), start, height)
    {
      hide *;
      height, accepted, log := start, [], [];
      var calls := 0;
      ghost var held := orphans;
      HeldHeights();
      ValidIs();
      LogStart(held, start, outcome, clock);
      var going := true;
      ghost var above := |From(held, height)|;
      while going
        invariant Valid() && |orphans| <= |held| && evicted == old(evicted) && calls == Calls(log, |log|)
        invariant Logged(held, start, log) && Remains(held, start, log, outcome, clock, orphans)
        invariant Chosen(accepted, start, log, outcome) && height == start + |accepted|
        invariant going ==> Goes(log, outcome) && |log| == |accepted| && above == |From(held, height)|
        invariant !going ==> Stops(log, outcome) && |log| == |accepted| + 1
        decreases going, above
      {
        var orphanAccepted, heightAccepted;
        ghost var last, batch;
        orphanAccepted, heightAccepted, calls, last, batch := CheckHeight(held, start, log, height, outcome, clock, calls);
        LogStep(held, start, log, batch, outcome);
        ChosenStep(accepted, start, log, batch, outcome, last);
        log := log + [batch];
        going := orphanAccepted;
        if going {
          accepted := accepted + [last];
          height := heightAccepted + 1;
          above := |From(held, height)|;
        }
      }
      AllAccepted(held, start, log, outcome, clock, orphans);
    }

    /** One height of the search. */
    method CheckHeight(ghost held: map<Hash, Orphan>, ghost start: nat, ghost log: seq<seq<Orphan>>, height: nat,
                       outcome: nat -> Outcome, clock: nat -> nat, first: nat)
      returns (orphanAccepted: bool, heightAccepted: nat, calls: nat, ghost last: Orphan, ghost batch: seq<Orphan>)
      requires Valid() && Proper(held, heightOf) && |orphans| <= |held| <= MAX_ORPHAN_SIZE
      requires Logged(held, start, log) && Remains(held, start, log, outcome, clock, orphans)
      requires height == start + |log| && first == Calls(log, |log|)
      modifies this
      ensures Valid() && |orphans| <= |held| && evicted == old(evicted) && calls == first + |batch|
      ensures Batch(held, height, batch) && Remains(held, start, log + [batch], outcome, clock, orphans)
      ensures orphanAccepted <==> AnyAccepted(outcome, first, |batch|)
      ensures orphanAccepted ==>
                && heightAccepted == height == last.height && AcceptedIn(last, batch, outcome, first)
                && |From(held, height + 1)| < |From(held, height)|
    {
      hide *;
      HeldHeights();
      ghost var before := orphans;
      orphanAccepted, heightAccepted, calls, last := false, height, first, Orphan(0, height, 0);
      var found := RemoveByHeight(height);
      batch := if found.Some? then found.value else [];
      BatchIs(before, height, found, orphans);
      BatchHeld(held, start, log, outcome, clock, before, batch, orphans, height, heightOf);
      ghost var rest := orphans;
      if found.Some? {
        orphanAccepted, heightAccepted, calls, last := ProcessBatch(found.value, height, outcome, clock, first);
      } else {
        DoneStart(orphans, [], outcome, clock, first);
      }
      RemainsStep(held, start, log, outcome, clock, before, batch, rest, orphans);
      if orphanAccepted { LastAccepted(held, height, batch, last, outcome, first); }
    }

    /** The orphans of one height, each processed once; those that are orphans still are added again. */
    method ProcessBatch(batch: seq<Orphan>, height: nat, outcome: nat -> Outcome, clock: nat -> nat, first: nat)
      returns (orphanAccepted: bool, heightAccepted: nat, calls: nat, ghost last: Orphan)
      requires Valid() && Fresh(batch, height, heightOf, orphans) && |orphans| + |batch| <= MAX_ORPHAN_SIZE
      modifies this
      ensures Valid() && calls == first + |batch| && evicted == old(evicted) && |orphans| <= |old(orphans)| + |batch|
      ensures Done(old(orphans), batch, outcome, clock, first, orphans)
      ensures orphanAccepted <==> AnyAccepted(outcome, first, |batch|)
      ensures orphanAccepted ==> heightAccepted == height && AcceptedIn(last, batch, outcome, first)
    {
      hide *;
      orphanAccepted, heightAccepted, calls, last := false, height, first, Orphan(0, height, 0);
      DoneStart(orphans, batch, outcome, clock, first);
      for i := 0 to |batch|
        invariant Valid() && calls == first + i && heightAccepted == height && evicted == old(evicted)
        invariant Done(old(orphans), batch[..i], outcome, clock, first, orphans) && |orphans| <= |old(orphans)| + i
        invariant orphanAccepted <==> AnyAccepted(outcome, first, i)
        invariant orphanAccepted ==> AcceptedIn(last, batch[..i], outcome, first)
      {
        var orphan := batch[i];
        FreshAt(batch, height, heightOf, old(orphans), i);
        DoneStep(old(orphans), batch, height, heightOf, outcome, clock, first, i, orphans);
        AcceptedStep(batch, outcome, first, i, last);
        var res := outcome(calls);
        if res == Accepted {
          orphanAccepted := true;
          heightAccepted := orphan.height;
          last := orphan;
        } else if res == Orphaned {
          WithIs(orphans, Orphan(orphan.hash, orphan.height, clock(calls)));
          Add(Orphan(orphan.hash, orphan.height, clock(calls)), clock(calls));
        }
        calls := calls + 1;
      }
      assert batch[..|batch|] == batch;
    }

    /** The part of add that evicts. */
    method MakeRoom(now: nat) returns (ghost t: nat)
      requires Indexed(orphans, heightIdx, heightOf) && heightIdx.Keys != {}
      requires inserted == |orphans| + taken + evicted + replaced
      modifies this`orphans, this`heightIdx, this`evicted
      ensures Valid() && evicted + |orphans| == old(evicted) + |old(orphans)|
      ensures Cut(Young(old(orphans), now), t, old(heightIdx).Keys) && orphans == Under(Young(old(orphans), now), t)
      ensures forall h :: h in orphans ==> h in old(orphans) && old(orphans)[h] == orphans[h]
    {
      hide *;
      MaxIs();
      var oldLen := |orphans|;
      ghost var all := orphans;
      orphans := Young(orphans, now);
      YoungWithin(all, now);
      WithinSmaller(orphans, all);
      IndexedWithin(all, orphans, heightIdx, heightOf);
      t := EvictHeights();
      UnderWithin(Young(all, now), t);
      WithinIs(Young(all, now), all);
      WithinIs(orphans, Young(all, now));
      WithinSmaller(orphans, Young(all, now));
      CleanIndex();
      evicted := evicted + (oldLen - |orphans|);
      CutSmall(Young(all, now), t, old(heightIdx).Keys);
      ValidIs();
    }

    lemma HeldHeights()
      requires Valid()
      ensures Proper(orphans, heightOf) && Hashed(orphans)
    {}

    lemma ValidIs()
      ensures Valid() <==>
                && Indexed(orphans, heightIdx, heightOf) && heightIdx.Keys == HeightsOf(orphans) && |orphans| <= MAX_ORPHAN_SIZE
                && inserted == |orphans| + taken + evicted + replaced
    {}

    /** Drops the index entries that list no held orphan. */
    method CleanIndex()
      requires Indexed(orphans, heightIdx, heightOf)
      modifies this`heightIdx
      ensures Indexed(orphans, heightIdx, heightOf) && heightIdx.Keys == HeightsOf(orphans)
      ensures forall k :: k in heightIdx ==> exists i :: 0 <= i < |heightIdx[k]| && heightIdx[k][i] in orphans
    {
      heightIdx := map k | k in heightIdx && (exists i :: 0 <= i < |heightIdx[k]| && heightIdx[k][i] in orphans)
                     :: heightIdx[k];
    }

    /** Removes the orphans of the greatest heights until few enough are left. */
    method EvictHeights() returns (ghost t: nat)
      requires Indexed(orphans, heightIdx, heightOf) && heightIdx.Keys != {}
      modifies this`orphans, this`heightIdx
      ensures Indexed(orphans, heightIdx, heightOf)
      ensures Cut(old(orphans), t, old(heightIdx).Keys) && orphans == Under(old(orphans), t)
    {
      hide *;
      orphans, heightIdx, t := Evict(orphans, heightIdx, heightOf);
    }
  }

  method Evict(all: map<Hash, Orphan>, index: map<nat, seq<Hash>>, ghost heightOf: Hash -> nat)
    returns (orphans: map<Hash, Orphan>, heightIdx: map<nat, seq<Hash>>, ghost t: nat)
    requires Indexed(all, index, heightOf) && index.Keys != {}
    ensures Indexed(orphans, heightIdx, heightOf)
    ensures Cut(all, t, index.Keys) && orphans == Under(all, t)
  {
    hide *;
    orphans, heightIdx := all, index;
    var heights := Members(heightIdx.Keys);
    MembersList(heightIdx.Keys);
    var i := |heights|;
    EvictStart(all, index, heights);
    while i > 0
      invariant 0 <= i <= |heights|
      invariant orphans == Left(all, heights, i) && heightIdx == Listed(index, heights, i)
      invariant forall j :: i <= j < |heights| ==> |Under(all, heights[j])| >= MAX_ORPHAN_SIZE
      decreases i
    {
      i := i - 1;
      var h := heights[i];
      EvictOne(all, index, heightOf, heights, i);
      if h in heightIdx {
        var hashes := heightIdx[h];
        heightIdx := heightIdx - {h};
        var rest, _ := RemoveAll(orphans, hashes);
        orphans := rest;
      }
      if |orphans| < MAX_ORPHAN_SIZE {
        t := h;
        EvictEnd(all, index, heightOf, heights, i);
        return;
      }
    }
    NothingBelow(all, index, heightOf, heights);
    MaxIs();
    assert false;
  }

  /** What is left when the heights from number i on are gone. */
  ghost function Left(all: map<Hash, Orphan>, heights: seq<nat>, i: nat): (r: map<Hash, Orphan>) {
    if i >= |heights| then all else Under(all, heights[i])
  }

  ghost function Listed(index: map<nat, seq<Hash>>, heights: seq<nat>, i: nat): (r: map<nat, seq<Hash>>) {
    if i >= |heights| then index else ListedUnder(index, heights[i])
  }

  function Elsewhere(orphans: map<Hash, Orphan>, height: nat): (r: map<Hash, Orphan>) {
    map h | h in orphans && orphans[h].height != height :: orphans[h]
  }

  lemma IndexedHashes(orphans: map<Hash, Orphan>, index: map<nat, seq<Hash>>, heightOf: Hash -> nat)
    requires Indexed(orphans, index, heightOf)
    ensures forall h :: h in orphans ==> orphans[h].hash == h && orphans[h].height in index
    ensures Hashed(orphans)
  {}

  lemma HeightsElsewhere(orphans: map<Hash, Orphan>, height: nat)
    ensures HeightsOf(Elsewhere(orphans, height)) == HeightsOf(orphans) - {height}
  {
    forall h | h in orphans && orphans[h].height != height ensures h in Elsewhere(orphans, height) {}
  }

  lemma WithoutHeight(orphans: map<Hash, Orphan>, index: map<nat, seq<Hash>>, heightOf: Hash -> nat, height: nat)
    requires Indexed(orphans, index, heightOf) && height in index
    ensures Without(orphans, index[height]) == Elsewhere(orphans, height)
    ensures Indexed(Elsewhere(orphans, height), index - {height}, heightOf)
  {
    ListedIsHeight(orphans, index, heightOf, height);
  }

  // What check_orphans does

  ghost predicate Always(outcome: nat -> Outcome, res: Outcome) {
    forall n :: outcome(n) == res
  }

  ghost predicate AnyAccepted(outcome: nat -> Outcome, first: nat, n: nat) {
    exists i :: first <= i < first + n && outcome(i) == Accepted
  }

  /** One of the batch that was accepted. */
  ghost predicate AcceptedIn(x: Orphan, batch: seq<Orphan>, outcome: nat -> Outcome, first: nat) {
    exists i :: 0 <= i < |batch| && batch[i] == x && outcome(first + i) == Accepted
  }

  lemma AcceptedStep(batch: seq<Orphan>, outcome: nat -> Outcome, first: nat, i: nat, last: Orphan)
    requires i < |batch|
    ensures AnyAccepted(outcome, first, i + 1) <==> AnyAccepted(outcome, first, i) || outcome(first + i) == Accepted
    ensures AcceptedIn(last, batch[..i], outcome, first) ==> AcceptedIn(last, batch[..i + 1], outcome, first)
    ensures outcome(first + i) == Accepted ==> AcceptedIn(batch[i], batch[..i + 1], outcome, first)
  {
    var next := batch[..i + 1];
    assert next[i] == batch[i];
    if AcceptedIn(last, batch[..i], outcome, first) {
      var j :| 0 <= j < i && batch[..i][j] == last && outcome(first + j) == Accepted;
      assert next[j] == last;
    }
  }

  /** Exactly the orphans held at a height, each once. */
  ghost predicate Batch(held: map<Hash, Orphan>, height: nat, batch: seq<Orphan>) {
    && Distinct(batch)
    && forall x :: x in batch <==> x.hash in held && x == held[x.hash] && x.height == height
  }

  /** The batches are those of the heights from start on. */
  ghost predicate Logged(held: map<Hash, Orphan>, start: nat, log: seq<seq<Orphan>>) {
    forall k :: 0 <= k < |log| ==> Batch(held, start + k, log[k])
  }

  /** How many blocks have been processed before the height number k. */
  ghost function Calls(log: seq<seq<Orphan>>, k: nat): (n: nat)
    requires k <= |log|
  {
    if k == 0 then 0 else Calls(log, k - 1) + |log[k - 1]|
  }

  /** At each of the heights a block was accepted. */
  ghost predicate Goes(log: seq<seq<Orphan>>, outcome: nat -> Outcome) {
    forall k :: 0 <= k < |log| ==> AnyAccepted(outcome, Calls(log, k), |log[k]|)
  }

  /** At each of the heights but the last a block was accepted, and at the last one none. */
  ghost predicate Stops(log: seq<seq<Orphan>>, outcome: nat -> Outcome) {
    && |log| > 0
    && forall k :: 0 <= k < |log| ==> (AnyAccepted(outcome, Calls(log, k), |log[k]|) <==> k < |log| - 1)
  }

  /** A processed block is held exactly when it is still an orphan, and then since it was processed. */
  ghost predicate Fate(x: Orphan, res: Outcome, now: nat, pool: map<Hash, Orphan>) {
    && (x.hash in pool <==> res == Orphaned)
    && (res == Orphaned ==> pool[x.hash] == Orphan(x.hash, x.height, now))
  }

  /** What is left in the pool: what was held at other heights, and of these heights what was put back. */
  ghost predicate Remains(held: map<Hash, Orphan>, start: nat, log: seq<seq<Orphan>>, outcome: nat -> Outcome, clock: nat -> nat,
                          pool: map<Hash, Orphan>)
  {
    && (forall h :: h in pool ==> h in held)
    && (forall h :: h in held && !(start <= held[h].height < start + |log|) ==> h in pool && pool[h] == held[h])
    && (forall k, i :: 0 <= k < |log| && 0 <= i < |log[k]| ==>
          Fate(log[k][i], outcome(Calls(log, k) + i), clock(Calls(log, k) + i), pool))
  }

  ghost function HashesOf(batch: seq<Orphan>): (r: set<Hash>) {
    set i | 0 <= i < |batch| :: batch[i].hash
  }

  /** The batch has been processed, and all others are as before. */
  ghost predicate Done(before: map<Hash, Orphan>, batch: seq<Orphan>, outcome: nat -> Outcome, clock: nat -> nat, first: nat,
                       pool: map<Hash, Orphan>)
  {
    && (forall h :: h !in HashesOf(batch) ==> (h in pool <==> h in before) && (h in pool ==> pool[h] == before[h]))
    && (forall i :: 0 <= i < |batch| ==> Fate(batch[i], outcome(first + i), clock(first + i), pool))
  }

  /** Different blocks of a height, none of them held. */
  ghost predicate Fresh(batch: seq<Orphan>, height: nat, heightOf: Hash -> nat, pool: map<Hash, Orphan>) {
    && (forall i :: 0 <= i < |batch| ==> batch[i].height == height == heightOf(batch[i].hash) && batch[i].hash !in pool)
    && (forall i, j :: 0 <= i < j < |batch| ==> batch[i].hash != batch[j].hash)
  }

  lemma FreshAt(batch: seq<Orphan>, height: nat, heightOf: Hash -> nat, pool: map<Hash, Orphan>, i: nat)
    requires Fresh(batch, height, heightOf, pool) && i < |batch|
    ensures batch[i].height == height == heightOf(batch[i].hash)
  {}

  lemma DoneStart(before: map<Hash, Orphan>, batch: seq<Orphan>, outcome: nat -> Outcome, clock: nat -> nat, first: nat)
    ensures Done(before, batch[..0], outcome, clock, first, before) && Done(before, [], outcome, clock, first, before)
    ensures !AnyAccepted(outcome, first, 0)
  {}

  lemma HashesStep(batch: seq<Orphan>, i: nat)
    requires i < |batch|
    ensures HashesOf(batch[..i + 1]) == HashesOf(batch[..i]) + {batch[i].hash}
  {
    var part, more := batch[..i], batch[..i + 1];
    assert more[i] == batch[i];
    forall j | 0 <= j < i ensures more[j] == part[j] {}
  }

  lemma DoneStep(before: map<Hash, Orphan>, batch: seq<Orphan>, height: nat, heightOf: Hash -> nat, outcome: nat -> Outcome,
                 clock: nat -> nat, first: nat, i: nat, pool: map<Hash, Orphan>)
    requires Fresh(batch, height, heightOf, before) && i < |batch| && Done(before, batch[..i], outcome, clock, first, pool)
    ensures var x, n := batch[i], first + i;
            Done(before, batch[..i + 1], outcome, clock, first,
                 if outcome(n) == Orphaned then With(pool, Orphan(x.hash, x.height, clock(n))) else pool)
  {
    hide HashesOf;
    var x, n := batch[i], first + i;
    var pool' := if outcome(n) == Orphaned then With(pool, Orphan(x.hash, x.height, clock(n))) else pool;
    HashesStep(batch, i);
    NotYet(batch, height, heightOf, before, i);
    var part, more := batch[..i], batch[..i + 1];
    forall j | 0 <= j < |more| ensures Fate(more[j], outcome(first + j), clock(first + j), pool') {
      if j < i {
        assert more[j] == part[j] == batch[j] && batch[j].hash != x.hash;
        assert Fate(part[j], outcome(first + j), clock(first + j), pool);
      }
    }
  }

  lemma NotYet(batch: seq<Orphan>, height: nat, heightOf: Hash -> nat, before: map<Hash, Orphan>, i: nat)
    requires Fresh(batch, height, heightOf, before) && i < |batch|
    ensures batch[i].hash !in HashesOf(batch[..i]) && batch[i].hash !in before
  {}

  lemma LogStart(held: map<Hash, Orphan>, start: nat, outcome: nat -> Outcome, clock: nat -> nat)
    ensures Logged(held, start, []) && Remains(held, start, [], outcome, clock, held) && Calls([], 0) == 0 && Goes([], outcome)
    ensures Chosen([], start, [], outcome)
  {}

  /** What remove_by_height gives is the batch of the height, and what it leaves is elsewhere. */
  lemma BatchIs(before: map<Hash, Orphan>, height: nat, found: Option<seq<Orphan>>, rest: map<Hash, Orphan>)
    requires found.None? ==> rest == before && forall h :: h in before ==> before[h].height != height
    requires found.Some? ==>
               && Distinct(found.value) && rest == Elsewhere(before, height)
               && forall x :: x in found.value <==> x.hash in before && x == before[x.hash] && x.height == height
    ensures Batch(before, height, if found.Some? then found.value else []) && rest == Elsewhere(before, height)
  {}

  /** Every orphan is held under its hash and has the height of its block. */
  ghost predicate Proper(orphans: map<Hash, Orphan>, heightOf: Hash -> nat) {
    forall h :: h in orphans ==> orphans[h].hash == h && orphans[h].height == heightOf(h)
  }

  /** What is found at the next height was held from the beginning. */
  lemma BatchHeld(held: map<Hash, Orphan>, start: nat, log: seq<seq<Orphan>>, outcome: nat -> Outcome, clock: nat -> nat,
                  before: map<Hash, Orphan>, batch: seq<Orphan>, rest: map<Hash, Orphan>, height: nat, heightOf: Hash -> nat)
    requires Remains(held, start, log, outcome, clock, before) && height == start + |log|
    requires Batch(before, height, batch) && rest == Elsewhere(before, height)
    requires Proper(held, heightOf) && Proper(before, heightOf)
    ensures Batch(held, height, batch) && Fresh(batch, height, heightOf, rest)
  {
    hide Distinct, Calls;
    forall x ensures x in batch <==> x.hash in held && x == held[x.hash] && x.height == height {
      if x.hash in held && x == held[x.hash] && x.height == height { assert before[x.hash] == x; }
    }
    BatchFresh(before, height, batch, heightOf);
  }

  lemma BatchFresh(before: map<Hash, Orphan>, height: nat, batch: seq<Orphan>, heightOf: Hash -> nat)
    requires Batch(before, height, batch) && Proper(before, heightOf)
    ensures Fresh(batch, height, heightOf, Elsewhere(before, height))
  {
    forall i | 0 <= i < |batch|
      ensures batch[i].height == height == heightOf(batch[i].hash) && batch[i].hash !in Elsewhere(before, height)
    {
      assert batch[i] in batch;
    }
    forall i, j | 0 <= i < j < |batch| ensures batch[i].hash != batch[j].hash {
      assert batch[i] in batch && batch[j] in batch;
    }
  }

  lemma HashesHeight(held: map<Hash, Orphan>, height: nat, batch: seq<Orphan>)
    requires Batch(held, height, batch)
    ensures forall h :: h in HashesOf(batch) ==> h in held && held[h].height == height
  {
    forall i | 0 <= i < |batch| ensures batch[i] in batch {}
  }

  /** One more height. */
  lemma RemainsStep(held: map<Hash, Orphan>, start: nat, log: seq<seq<Orphan>>, outcome: nat -> Outcome, clock: nat -> nat,
                    before: map<Hash, Orphan>, batch: seq<Orphan>, rest: map<Hash, Orphan>, pool: map<Hash, Orphan>)
    requires Remains(held, start, log, outcome, clock, before) && Logged(held, start, log)
    requires var height := start + |log|; Batch(held, height, batch) && rest == Elsewhere(before, height)
    requires Done(rest, batch, outcome, clock, Calls(log, |log|), pool)
    ensures Remains(held, start, log + [batch], outcome, clock, pool)
  {
    hide *;
    var log', height := log + [batch], start + |log|;
    RemainsIs(held, start, log, outcome, clock, before);
    DoneIs(rest, batch, outcome, clock, Calls(log, |log|), pool);
    HashesHeight(held, height, batch);
    ElsewhereIs(before, height);
    forall k, i | 0 <= k < |log'| && 0 <= i < |log'[k]|
      ensures Fate(log'[k][i], outcome(Calls(log', k) + i), clock(Calls(log', k) + i), pool)
    {
      CallsStay(log, batch, k);
      if k < |log| {
        var n := Calls(log, k) + i;
        assert Fate(log[k][i], outcome(n), clock(n), before);
        LoggedAt(held, start, log, k, i);
        FateStays(held, log[k][i], outcome(n), clock(n), before, height, batch, rest, pool);
      }
    }
    RemainsFrom(held, start, log', outcome, clock, pool);
  }

  lemma ElsewhereIs(orphans: map<Hash, Orphan>, height: nat)
    ensures forall h :: h in Elsewhere(orphans, height) <==> h in orphans && orphans[h].height != height
    ensures forall h :: h in Elsewhere(orphans, height) ==> Elsewhere(orphans, height)[h] == orphans[h]
  {}

  lemma RemainsIs(held: map<Hash, Orphan>, start: nat, log: seq<seq<Orphan>>, outcome: nat -> Outcome, clock: nat -> nat,
                  pool: map<Hash, Orphan>)
    requires Remains(held, start, log, outcome, clock, pool)
    ensures forall h :: h in pool ==> h in held
    ensures forall h :: h in held && !(start <= held[h].height < start + |log|) ==> h in pool && pool[h] == held[h]
    ensures forall k, i :: 0 <= k < |log| && 0 <= i < |log[k]| ==>
              Fate(log[k][i], outcome(Calls(log, k) + i), clock(Calls(log, k) + i), pool)
  {
    hide Calls, Fate;
  }

  lemma RemainsFrom(held: map<Hash, Orphan>, start: nat, log: seq<seq<Orphan>>, outcome: nat -> Outcome, clock: nat -> nat,
                    pool: map<Hash, Orphan>)
    requires forall h :: h in pool ==> h in held
    requires forall h :: h in held && !(start <= held[h].height < start + |log|) ==> h in pool && pool[h] == held[h]
    requires forall k, i :: 0 <= k < |log| && 0 <= i < |log[k]| ==>
               Fate(log[k][i], outcome(Calls(log, k) + i), clock(Calls(log, k) + i), pool)
    ensures Remains(held, start, log, outcome, clock, pool)
  {
    hide Calls, Fate;
  }

  lemma DoneIs(before: map<Hash, Orphan>, batch: seq<Orphan>, outcome: nat -> Outcome, clock: nat -> nat, first: nat,
               pool: map<Hash, Orphan>)
    requires Done(before, batch, outcome, clock, first, pool)
    ensures forall h :: h !in HashesOf(batch) ==> (h in pool <==> h in before) && (h in pool ==> pool[h] == before[h])
    ensures forall i :: 0 <= i < |batch| ==> Fate(batch[i], outcome(first + i), clock(first + i), pool)
  {
    hide HashesOf, Fate;
  }

  lemma LoggedAt(held: map<Hash, Orphan>, start: nat, log: seq<seq<Orphan>>, k: nat, i: nat)
    requires Logged(held, start, log) && k < |log| && i < |log[k]|
    ensures log[k][i].height == start + k && log[k][i].hash in held && held[log[k][i].hash] == log[k][i]
  {
    hide Distinct;
    assert Batch(held, start + k, log[k]) && log[k][i] in log[k];
  }

  lemma FateStays(held: map<Hash, Orphan>, x: Orphan, res: Outcome, now: nat, before: map<Hash, Orphan>, height: nat,
                  batch: seq<Orphan>, rest: map<Hash, Orphan>, pool: map<Hash, Orphan>)
    requires Fate(x, res, now, before) && x.height != height && x.hash in held && held[x.hash] == x
    requires rest == Elsewhere(before, height)
    requires forall h :: h in HashesOf(batch) ==> h in held && held[h].height == height
    requires forall h :: h !in HashesOf(batch) ==> (h in pool <==> h in rest) && (h in pool ==> pool[h] == rest[h])
    ensures Fate(x, res, now, pool)
  {
    hide HashesOf;
    assert x.hash !in HashesOf(batch);
  }

  lemma LogStep(held: map<Hash, Orphan>, start: nat, log: seq<seq<Orphan>>, batch: seq<Orphan>, outcome: nat -> Outcome)
    requires Logged(held, start, log) && Batch(held, start + |log|, batch) && Goes(log, outcome)
    ensures var log' := log + [batch];
            && Logged(held, start, log') && Calls(log', |log'|) == Calls(log, |log|) + |batch|
            && if AnyAccepted(outcome, Calls(log, |log|), |batch|) then Goes(log', outcome) else Stops(log', outcome)
  {
    hide *;
    LoggedStep(held, start, log, batch);
    CallsNext(log, batch);
    GoesStep(log, batch, outcome);
  }

  lemma LoggedStep(held: map<Hash, Orphan>, start: nat, log: seq<seq<Orphan>>, batch: seq<Orphan>)
    requires Logged(held, start, log) && Batch(held, start + |log|, batch)
    ensures Logged(held, start, log + [batch])
  {
    hide Batch;
  }

  lemma CallsNext(log: seq<seq<Orphan>>, batch: seq<Orphan>)
    ensures Calls(log + [batch], |log| + 1) == Calls(log, |log|) + |batch|
  {
    CallsStay(log, batch, |log|);
  }

  lemma GoesStep(log: seq<seq<Orphan>>, batch: seq<Orphan>, outcome: nat -> Outcome)
    requires Goes(log, outcome)
    ensures if AnyAccepted(outcome, Calls(log, |log|), |batch|) then Goes(log + [batch], outcome) else Stops(log + [batch], outcome)
  {
    hide AnyAccepted, Calls;
    var log', more := log + [batch], AnyAccepted(outcome, Calls(log, |log|), |batch|);
    forall k | 0 <= k < |log'| ensures AnyAccepted(outcome, Calls(log', k), |log'[k]|) <==> k < |log| || more {
      CallsStay(log, batch, k);
      if k < |log| { assert log'[k] == log[k]; }
    }
  }

  /** A block of every height, in order, that was accepted there. */
  ghost predicate Chosen(accepted: seq<Orphan>, start: nat, log: seq<seq<Orphan>>, outcome: nat -> Outcome) {
    && |accepted| <= |log|
    && forall k :: 0 <= k < |accepted| ==>
         accepted[k].height == start + k && AcceptedIn(accepted[k], log[k], outcome, Calls(log, k))
  }

  lemma ChosenStep(accepted: seq<Orphan>, start: nat, log: seq<seq<Orphan>>, batch: seq<Orphan>, outcome: nat -> Outcome, last: Orphan)
    requires Chosen(accepted, start, log, outcome) && |accepted| == |log|
    ensures Chosen(accepted, start, log + [batch], outcome)
    ensures AcceptedIn(last, batch, outcome, Calls(log, |log|)) && last.height == start + |log| ==>
              Chosen(accepted + [last], start, log + [batch], outcome)
  {
    hide AcceptedIn, Calls;
    var log', more := log + [batch], accepted + [last];
    forall k | 0 <= k < |log| ensures AcceptedIn(accepted[k], log'[k], outcome, Calls(log', k)) {
      CallsStay(log, batch, k);
      assert log'[k] == log[k];
    }
    CallsStay(log, batch, |log|);
    assert log'[|log|] == batch && more[|log|] == last && forall k :: 0 <= k < |log| ==> more[k] == accepted[k];
  }

  lemma {:induction false} CallsStay(log: seq<seq<Orphan>>, batch: seq<Orphan>, k: nat)
    requires k <= |log|
    ensures Calls(log + [batch], k) == Calls(log, k)
  {
    if k > 0 { CallsStay(log, batch, k - 1); }
  }

  lemma LastAccepted(held: map<Hash, Orphan>, height: nat, batch: seq<Orphan>, last: Orphan, outcome: nat -> Outcome, first: nat)
    requires Batch(held, height, batch) && AcceptedIn(last, batch, outcome, first)
    ensures last.height == height && |From(held, height + 1)| < |From(held, height)|
  {
    assert last in batch;
    var a, b := From(held, height + 1), From(held, height);
    assert last.hash in b.Keys && last.hash !in a.Keys;
    FewerKeys(a.Keys, b.Keys);
    assert |a| == |a.Keys| && |b| == |b.Keys|;
  }

  /** There are orphans at every height from start on, and none at this one. */
  ghost predicate Gap(held: map<Hash, Orphan>, start: nat, height: nat) {
    height !in HeightsOf(held) && forall j :: start <= j < height ==> j in HeightsOf(held)
  }

  ghost function Outside(held: map<Hash, Orphan>, start: nat, height: nat): (r: map<Hash, Orphan>) {
    map h | h in held && !(start <= held[h].height < height) :: held[h]
  }

  /** When every block is accepted, the search runs to the first height without orphans and leaves none below it. */
  lemma AllAccepted(held: map<Hash, Orphan>, start: nat, log: seq<seq<Orphan>>, outcome: nat -> Outcome, clock: nat -> nat,
                    pool: map<Hash, Orphan>)
    requires Logged(held, start, log) && Remains(held, start, log, outcome, clock, pool) && Stops(log, outcome) && Hashed(held)
    ensures |log| > 0 && (Always(outcome, Accepted) ==>
              var height := start + |log| - 1; Gap(held, start, height) && pool == Outside(held, start, height))
  {
    hide *;
    StopsIs(log, outcome);
    if Always(outcome, Accepted) {
      var height := start + |log| - 1;
      forall j | start <= j <= height ensures j in HeightsOf(held) <==> j < height {
        HeightOccupied(held, start, log, outcome, j - start);
      }
      GapIs(held, start, height);
      RemainsIs(held, start, log, outcome, clock, pool);
      forall h | h in held && start <= held[h].height < height ensures h !in pool {
        Gone(held, start, log, outcome, clock, pool, h);
      }
      OutsideIs(held, start, height, pool);
    }
  }

  lemma StopsIs(log: seq<seq<Orphan>>, outcome: nat -> Outcome)
    requires Stops(log, outcome)
    ensures |log| > 0
    ensures forall k :: 0 <= k < |log| ==> (AnyAccepted(outcome, Calls(log, k), |log[k]|) <==> k < |log| - 1)
  {
    hide AnyAccepted, Calls;
  }

  lemma GapIs(held: map<Hash, Orphan>, start: nat, height: nat)
    requires start <= height && forall j :: start <= j <= height ==> (j in HeightsOf(held) <==> j < height)
    ensures Gap(held, start, height)
  {
    hide HeightsOf;
  }

  lemma OutsideIs(held: map<Hash, Orphan>, start: nat, height: nat, pool: map<Hash, Orphan>)
    requires forall h :: h in pool ==> h in held
    requires forall h :: h in held && !(start <= held[h].height <= height) ==> h in pool && pool[h] == held[h]
    requires (forall h :: h in held && start <= held[h].height < height ==> h !in pool) && height !in HeightsOf(held)
    ensures pool == Outside(held, start, height)
  {}

  lemma HeightOccupied(held: map<Hash, Orphan>, start: nat, log: seq<seq<Orphan>>, outcome: nat -> Outcome, k: nat)
    requires Logged(held, start, log) && Always(outcome, Accepted) && Hashed(held) && k < |log|
    requires AnyAccepted(outcome, Calls(log, k), |log[k]|) <==> k < |log| - 1
    ensures start + k in HeightsOf(held) <==> k < |log| - 1
  {
    hide Distinct, Calls;
    var batch := log[k];
    assert Batch(held, start + k, batch);
    if |batch| > 0 { assert batch[0] in batch && outcome(Calls(log, k)) == Accepted; }
    if start + k in HeightsOf(held) {
      var h :| h in held && held[h].height == start + k;
      assert held[h] in batch;
    }
  }

  lemma Gone(held: map<Hash, Orphan>, start: nat, log: seq<seq<Orphan>>, outcome: nat -> Outcome, clock: nat -> nat,
             pool: map<Hash, Orphan>, h: Hash)
    requires Logged(held, start, log) && Hashed(held) && Always(outcome, Accepted)
    requires Remains(held, start, log, outcome, clock, pool)
    requires h in held && start <= held[h].height < start + |log|
    ensures h !in pool
  {
    hide Distinct, Calls, Remains;
    RemainsIs(held, start, log, outcome, clock, pool);
    var k := held[h].height - start;
    assert Batch(held, start + k, log[k]) && held[h] in log[k];
    var i :| 0 <= i < |log[k]| && log[k][i] == held[h];
    assert Fate(log[k][i], outcome(Calls(log, k) + i), clock(Calls(log, k) + i), pool);
  }

  lemma MaxIs()
    ensures MAX_ORPHAN_SIZE == 200
  {}

  lemma CutSmall(orphans: map<Hash, Orphan>, t: nat, heights: set<nat>)
    requires Cut(orphans, t, heights)
    ensures |Under(orphans, t)| < MAX_ORPHAN_SIZE
  {}

  lemma EvictStart(all: map<Hash, Orphan>, index: map<nat, seq<Hash>>, heights: seq<nat>)
    ensures Left(all, heights, |heights|) == all && Listed(index, heights, |heights|) == index
  {}

  lemma EvictStep(all: map<Hash, Orphan>, index: map<nat, seq<Hash>>, heightOf: Hash -> nat, heights: seq<nat>, i: nat)
    requires Indexed(all, index, heightOf) && i < |heights|
    requires Lists(heights, index.Keys)
    ensures heights[i] in index && heights[i] in Listed(index, heights, i + 1)
    ensures Listed(index, heights, i + 1)[heights[i]] == index[heights[i]]
    ensures Listed(index, heights, i + 1) - {heights[i]} == Listed(index, heights, i)
    ensures Listed(index, heights, i) == ListedUnder(index, heights[i])
  {
    hide Indexed, Lists;
    NextBelow(all, index, heightOf, heights, i);
  }

  /** One turn of the eviction. */
  lemma EvictOne(all: map<Hash, Orphan>, index: map<nat, seq<Hash>>, heightOf: Hash -> nat, heights: seq<nat>, i: nat)
    requires Indexed(all, index, heightOf) && i < |heights| && Lists(heights, index.Keys)
    ensures var listed := Listed(index, heights, i + 1);
            && heights[i] in listed && listed - {heights[i]} == Listed(index, heights, i)
            && Without(Left(all, heights, i + 1), listed[heights[i]]) == Left(all, heights, i) == Under(all, heights[i])
    ensures Hashed(Left(all, heights, i + 1))
  {
    hide *;
    EvictStep(all, index, heightOf, heights, i);
    LeftHashes(all, index, heightOf, heights, i + 1);
    LeftStep(all, index, heightOf, heights, i, Without(Left(all, heights, i + 1), index[heights[i]]));
  }

  lemma EvictEnd(all: map<Hash, Orphan>, index: map<nat, seq<Hash>>, heightOf: Hash -> nat, heights: seq<nat>, i: nat)
    requires Indexed(all, index, heightOf) && i < |heights| && Lists(heights, index.Keys)
    requires |Left(all, heights, i)| < MAX_ORPHAN_SIZE
    requires forall j :: i < j < |heights| ==> |Under(all, heights[j])| >= MAX_ORPHAN_SIZE
    ensures Cut(all, heights[i], index.Keys) && Indexed(Left(all, heights, i), Listed(index, heights, i), heightOf)
    ensures Left(all, heights, i) == Under(all, heights[i])
  {
    hide *;
    EvictOne(all, index, heightOf, heights, i);
    EvictStep(all, index, heightOf, heights, i);
    CutIs(all, heights, i, index.Keys);
    IndexedUnder(all, index, Listed(index, heights, i), heightOf, heights[i]);
  }

  lemma LeftStep(all: map<Hash, Orphan>, index: map<nat, seq<Hash>>, heightOf: Hash -> nat, heights: seq<nat>, i: nat,
                 rest: map<Hash, Orphan>)
    requires Indexed(all, index, heightOf) && i < |heights| && heights[i] in index
    requires Lists(heights, index.Keys)
    requires rest == Without(Left(all, heights, i + 1), index[heights[i]])
    ensures rest == Left(all, heights, i) == Under(all, heights[i])
  {
    hide Indexed, Lists;
    NextBelow(all, index, heightOf, heights, i);
    ListedIsHeight(all, index, heightOf, heights[i]);
    forall x | x in all ensures x in rest <==> all[x].height < heights[i] {}
  }

  lemma LeftHashes(all: map<Hash, Orphan>, index: map<nat, seq<Hash>>, heightOf: Hash -> nat, heights: seq<nat>, i: nat)
    requires Indexed(all, index, heightOf)
    ensures Hashed(Left(all, heights, i))
  {}

  /** The heights are the keys in order. */
  ghost predicate Lists(heights: seq<nat>, keys: set<nat>) {
    && (forall k :: 0 <= k < |heights| ==> heights[k] in keys)
    && (forall x :: x in keys ==> x in heights)
    && (forall j, k :: 0 <= j < k < |heights| ==> heights[j] < heights[k])
  }

  /** Between a listed height and the next one above it there are no orphans. */
  lemma NextBelow(all: map<Hash, Orphan>, index: map<nat, seq<Hash>>, heightOf: Hash -> nat, heights: seq<nat>, i: nat)
    requires Indexed(all, index, heightOf) && i < |heights|
    requires Lists(heights, index.Keys)
    ensures heights[i] in index && (i + 1 < |heights| ==> heights[i] < heights[i + 1])
    ensures forall h :: h in all && (i + 1 < |heights| ==> all[h].height < heights[i + 1]) ==> all[h].height <= heights[i]
    ensures forall k :: k in index && (i + 1 < |heights| ==> k < heights[i + 1]) ==> k <= heights[i]
  {
    forall x | x in index && (i + 1 < |heights| ==> x < heights[i + 1]) ensures x <= heights[i] {
      var k :| 0 <= k < |heights| && heights[k] == x;
    }
  }

  lemma NothingBelow(all: map<Hash, Orphan>, index: map<nat, seq<Hash>>, heightOf: Hash -> nat, heights: seq<nat>)
    requires Indexed(all, index, heightOf) && |heights| > 0
    requires Lists(heights, index.Keys)
    ensures |Under(all, heights[0])| == 0
  {
    forall h | h in all ensures all[h].height >= heights[0] {
      var k :| 0 <= k < |heights| && heights[k] == all[h].height;
    }
    assert Under(all, heights[0]) == map[];
  }

  lemma CutIs(all: map<Hash, Orphan>, heights: seq<nat>, i: nat, keys: set<nat>)
    requires i < |heights| && |Under(all, heights[i])| < MAX_ORPHAN_SIZE
    requires Lists(heights, keys)
    requires forall j :: i < j < |heights| ==> |Under(all, heights[j])| >= MAX_ORPHAN_SIZE
    ensures Cut(all, heights[i], keys)
  {
    assert heights[i] in keys;
    forall x | x in keys && x > heights[i] ensures |Under(all, x)| >= MAX_ORPHAN_SIZE {
      var k :| 0 <= k < |heights| && heights[k] == x;
      assert k > i;
    }
  }

  lemma IndexedUnder(all: map<Hash, Orphan>, index: map<nat, seq<Hash>>, rest: map<nat, seq<Hash>>, heightOf: Hash -> nat, t: nat)
    requires Indexed(all, index, heightOf) && rest == ListedUnder(index, t)
    ensures Indexed(Under(all, t), rest, heightOf)
  {}

  lemma MembersList(s: set<nat>)
    ensures Lists(Members(s), s) && (s != {} ==> |Members(s)| > 0)
  {
    hide Ascending;
    forall x: nat ensures x in s <==> x in Members(s) { AscendingMember(s, Maximum(s) + 1, x); }
    forall i, j | 0 <= i < j < |Members(s)| ensures Members(s)[i] < Members(s)[j] {
      AscendingSorted(s, Maximum(s) + 1, i, j);
    }
  }

  /** The height to cut at: the highest one listed that leaves few enough. */
  ghost predicate Cut(orphans: map<Hash, Orphan>, t: nat, heights: set<nat>)
  {
    && t in heights && |Under(orphans, t)| < MAX_ORPHAN_SIZE
    && forall k :: k in heights && k > t ==> |Under(orphans, k)| >= MAX_ORPHAN_SIZE
  }

  /** What is kept is all of it below such a height. */
  ghost predicate Trimmed(young: map<nat, Orphan>, heights: set<nat>, kept: map<nat, Orphan>) {
    exists t :: Cut(young, t, heights) && kept == Under(young, t)
  }

  lemma TrimmedAt(young: map<nat, Orphan>, heights: set<nat>, kept: map<nat, Orphan>, t: nat)
    requires Cut(young, t, heights) && kept == Under(young, t)
    ensures Trimmed(young, heights, kept)
  {}
}
