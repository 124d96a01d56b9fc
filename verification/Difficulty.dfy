/** Difficulty retargeting over a window of headers. */
module Difficulties {
  import opened Arithmetic
  import opened Wrappers

  const BLOCK_TIME_SEC: nat := 60
  const DIFFICULTY_ADJUST_WINDOW: nat := 60
  const BLOCK_TIME_WINDOW: nat := 3600
  const CLAMP_FACTOR: nat := 2
  const DIFFICULTY_DAMP_FACTOR: nat := 3

  /** A header as the retarget sees it, with its difficulty for the algorithm in question. */
  datatype HeaderInfo = HeaderInfo(timestamp: nat, difficulty: nat, prevTimespan: nat)

  function SaturatingSub(a: nat, b: nat): (r: nat) {
    if a < b then 0 else a - b
  }

  // The window

  /** The timestamp of the header i before the first, from the timespans in between. */
  function Timestamp(cursor: seq<HeaderInfo>, i: nat): (t: nat)
    requires i < |cursor|
  {
    if i == 0 then cursor[0].timestamp else SaturatingSub(Timestamp(cursor, i - 1), cursor[i - 1].prevTimespan)
  }

  /** The first n headers with their timestamps set. */
  ghost predicate Rewritten(cursor: seq<HeaderInfo>, xs: seq<HeaderInfo>, n: nat)
    requires |xs| <= |cursor| && n <= |xs|
  {
    && (forall i :: 0 <= i < n ==> xs[i] == cursor[i].(timestamp := Timestamp(cursor, i)))
    && (forall i :: n <= i < |xs| ==> xs[i] == cursor[i])
  }

  ghost predicate Falling(xs: seq<HeaderInfo>) {
    forall i :: 0 < i < |xs| ==> xs[i].timestamp <= xs[i - 1].timestamp
  }

  ghost predicate Rising(xs: seq<HeaderInfo>) {
    forall i, j :: 0 <= i <= j < |xs| ==> xs[i].timestamp <= xs[j].timestamp
  }

  lemma {:induction false} FallingFar(xs: seq<HeaderInfo>, i: nat, j: nat)
    requires Falling(xs) && i <= j < |xs|
    ensures xs[j].timestamp <= xs[i].timestamp
  {
    if i < j { FallingFar(xs, i, j - 1); }
  }

  /** The time between simulated headers: that between the first two, or the goal when there is only one. */
  ghost function Pace(cursor: seq<HeaderInfo>): (delta: nat)
    requires |cursor| > 0
  {
    if |cursor| > 1 then Timestamp(cursor, 0) - Timestamp(cursor, 1) else 60
  }

  /**
   * difficulty_data_to_vector: always one header more than the window, oldest first, with
   * timestamps that never fall, so that differences of timestamps never go below zero.
   */
  method DifficultyDataToVector(cursor: seq<HeaderInfo>, window: nat) returns (r: seq<HeaderInfo>)
    requires |cursor| > 0
    ensures |r| == window + 1 && Rising(r)
    ensures forall i :: 0 <= i <= window && i < |cursor| ==> r[window - i] == cursor[i].(timestamp := Timestamp(cursor, i))
    ensures forall k :: 0 <= k <= window - |cursor| ==>
              r[k] == HeaderInfo(SaturatingSub(r[k + 1].timestamp, Pace(cursor)), cursor[0].difficulty, 0)
  {
    hide *;
    var needed := window + 1;
    var n := if |cursor| < needed then |cursor| else needed;
    var lastN := cursor[..n];
    RewriteStart(cursor, n);
    for i := 1 to n
      invariant |lastN| == n && Rewritten(cursor, lastN, i)
    {
      RewriteStep(cursor, lastN, i);
      lastN := lastN[i := lastN[i].(timestamp := SaturatingSub(lastN[i - 1].timestamp, lastN[i - 1].prevTimespan))];
    }
    RewriteEnd(cursor, lastN);
    var full := lastN;
    if needed > n {
      SpanPositive(lastN);
      var delta := if n > 1 then lastN[0].timestamp - lastN[1].timestamp else BLOCK_TIME_SEC;
      PaceIs(cursor);
      full := Pad(lastN, needed, delta, lastN[0].difficulty);
      PaddedBack(full, n, delta, cursor[0].difficulty);
    }
    r := Reversed(full);
    ReversedRises(full);
  }

  lemma RewriteStart(cursor: seq<HeaderInfo>, n: nat)
    requires 0 < n <= |cursor|
    ensures Rewritten(cursor, cursor[..n], 1)
  {
    assert cursor[0].(timestamp := Timestamp(cursor, 0)) == cursor[0];
  }

  lemma RewriteStep(cursor: seq<HeaderInfo>, xs: seq<HeaderInfo>, i: nat)
    requires 0 < i < |xs| <= |cursor| && Rewritten(cursor, xs, i)
    ensures var t := SaturatingSub(xs[i - 1].timestamp, xs[i - 1].prevTimespan);
            Rewritten(cursor, xs[i := xs[i].(timestamp := t)], i + 1)
  {
    hide SaturatingSub;
    assert xs[i - 1] == cursor[i - 1].(timestamp := Timestamp(cursor, i - 1));
  }

  lemma RewriteEnd(cursor: seq<HeaderInfo>, xs: seq<HeaderInfo>)
    requires 0 < |xs| <= |cursor| && Rewritten(cursor, xs, |xs|)
    ensures Falling(xs) && forall i :: 0 <= i < |xs| ==> xs[i] == cursor[i].(timestamp := Timestamp(cursor, i))
    ensures xs[0].difficulty == cursor[0].difficulty
  {
    forall i | 0 < i < |xs| ensures xs[i].timestamp <= xs[i - 1].timestamp {
      assert xs[i - 1] == cursor[i - 1].(timestamp := Timestamp(cursor, i - 1));
    }
  }

  lemma PaceIs(cursor: seq<HeaderInfo>)
    requires |cursor| > 0
    ensures Pace(cursor) == (if |cursor| > 1 then Timestamp(cursor, 0) - Timestamp(cursor, 1) else BLOCK_TIME_SEC)
  {}

  lemma PaddedBack(full: seq<HeaderInfo>, n: nat, delta: nat, difficulty: nat)
    requires 0 < n <= |full|
    requires forall i :: n <= i < |full| ==> full[i] == HeaderInfo(SaturatingSub(full[i - 1].timestamp, delta), difficulty, 0)
    ensures var r := Reversed(full);
            forall k :: 0 <= k < |full| - n ==> r[k] == HeaderInfo(SaturatingSub(r[k + 1].timestamp, delta), difficulty, 0)
  {
    hide SaturatingSub;
    var r := Reversed(full);
    forall k | 0 <= k < |full| - n ensures r[k] == HeaderInfo(SaturatingSub(r[k + 1].timestamp, delta), difficulty, 0) {
      assert r[k] == full[|full| - 1 - k] && r[k + 1] == full[|full| - 2 - k];
    }
  }

  lemma SpanPositive(xs: seq<HeaderInfo>)
    requires Falling(xs)
    ensures |xs| > 1 ==> xs[1].timestamp <= xs[0].timestamp
  {}

  lemma ReversedRises(xs: seq<HeaderInfo>)
    requires Falling(xs)
    ensures Rising(Reversed(xs))
  {
    hide Falling;
    var r := Reversed(xs);
    forall i, j | 0 <= i <= j < |r| ensures r[i].timestamp <= r[j].timestamp {
      FallingFar(xs, |r| - 1 - j, |r| - 1 - i);
    }
  }

  /** Simulated headers before the first one, at a steady pace. */
  method Pad(xs: seq<HeaderInfo>, needed: nat, delta: nat, difficulty: nat) returns (r: seq<HeaderInfo>)
    requires 0 < |xs| <= needed && Falling(xs)
    ensures |r| == needed && Falling(r) && r[..|xs|] == xs
    ensures forall i :: |xs| <= i < needed ==> r[i] == HeaderInfo(SaturatingSub(r[i - 1].timestamp, delta), difficulty, 0)
  {
    r := xs;
    var lastTs := xs[|xs| - 1].timestamp;
    for k := |xs| to needed
      invariant |r| == k && Falling(r) && lastTs == r[k - 1].timestamp && r[..|xs|] == xs
      invariant forall i :: |xs| <= i < k ==> r[i] == HeaderInfo(SaturatingSub(r[i - 1].timestamp, delta), difficulty, 0)
    {
      lastTs := SaturatingSub(lastTs, delta);
      r := r + [HeaderInfo(lastTs, difficulty, 0)];
    }
  }

  // The retarget

  function Damp(actual: nat, goal: nat, factor: nat): (r: nat)
    requires factor > 0
  {
    MulPositive(factor - 1, goal);
    DivPositive(actual + (factor - 1) * goal, factor);
    (actual + (factor - 1) * goal) / factor
  }

  function Clamp(actual: nat, goal: nat, factor: nat): (r: nat)
    requires factor > 0
  {
    var upper := if actual < goal * factor then actual else goal * factor;
    if goal / factor < upper then upper else goal / factor
  }

  /** The time that the window is taken to have needed: between two thirds of the goal and twice the goal. */
  function AdjustedTime(actual: nat): (t: nat)
    ensures 2400 <= t <= 7200
    ensures t == BLOCK_TIME_WINDOW <==> BLOCK_TIME_WINDOW <= actual < BLOCK_TIME_WINDOW + 3
  {
    Clamp(Damp(actual, BLOCK_TIME_WINDOW, DIFFICULTY_DAMP_FACTOR), BLOCK_TIME_WINDOW, CLAMP_FACTOR)
  }

  /** While the goal is not missed fourfold, a third of the way from the goal to what was measured, and from there on twice the goal. */
  lemma AdjustedIs(actual: nat)
    ensures actual <= 14400 ==> var t := AdjustedTime(actual); 3 * t <= actual + 7200 < 3 * (t + 1)
    ensures actual >= 14400 ==> AdjustedTime(actual) == 7200
  {}

  lemma AdjustedRises(actual: nat, actual': nat)
    requires actual <= actual'
    ensures AdjustedTime(actual) <= AdjustedTime(actual')
  {
    hide AdjustedTime;
    AdjustedIs(actual);
    AdjustedIs(actual');
  }

  function DifficultySum(xs: seq<HeaderInfo>): (s: nat) {
    if xs == [] then 0 else DifficultySum(xs[..|xs| - 1]) + xs[|xs| - 1].difficulty
  }

  /** The timespans of all headers but the last, as far as their timestamps allow. */
  function TimeSum(xs: seq<HeaderInfo>, n: nat): (s: nat)
    requires n <= |xs|
  {
    if n == 0 then 0
    else TimeSum(xs, n - 1) + (xs[n - 1].timestamp - SaturatingSub(xs[n - 1].timestamp, xs[n - 1].prevTimespan))
  }

  /** Where every timestamp follows from the next one and its timespan, the timespans add up to the time in between. */
  lemma {:induction false} TimeBetween(xs: seq<HeaderInfo>, n: nat)
    requires 0 < n <= |xs|
    requires forall i :: 0 < i < n ==> xs[i - 1].timestamp == SaturatingSub(xs[i].timestamp, xs[i].prevTimespan)
    ensures TimeSum(xs, n) == xs[n - 1].timestamp - SaturatingSub(xs[0].timestamp, xs[0].prevTimespan)
  {
    if n > 1 { TimeBetween(xs, n - 1); }
  }

  /** A full window: the time measured goes from the header before the window to the last but one. */
  lemma WindowTime(cursor: seq<HeaderInfo>, data: seq<HeaderInfo>, window: nat)
    requires 0 < window < |cursor| && |data| == window + 1
    requires forall i :: 0 <= i <= window ==> data[window - i] == cursor[i].(timestamp := Timestamp(cursor, i))
    ensures TimeSum(data, window) ==
            Timestamp(cursor, 1) - SaturatingSub(Timestamp(cursor, window), cursor[window].prevTimespan)
  {
    hide SaturatingSub, TimeSum;
    forall i | 0 <= i <= window ensures data[i] == cursor[window - i].(timestamp := Timestamp(cursor, window - i)) {
      assert data[window - (window - i)] == cursor[window - i].(timestamp := Timestamp(cursor, window - i));
    }
    TimeBetween(data, window);
  }

  function Retarget(sum: nat, time: nat, least: nat): (d: nat)
    requires time > 0
  {
    var d := sum * BLOCK_TIME_SEC / time;
    if d < least then least else d
  }

  /** The difficulty moves at most by a half of the mean of the window, except to its floor. */
  lemma RetargetBounds(sum: nat, actual: nat, least: nat)
    ensures var d := Retarget(sum, AdjustedTime(actual), least);
            && d >= least && sum < 120 * (d + 1) && (d > least ==> 40 * d <= sum)
  {
    hide AdjustedTime, Mul;
    var t := AdjustedTime(actual);
    var d := sum * 60 / t;
    DivMod(sum * 60, t);
    MulOrder(2400, t, d);
    MulOrder(t, 7200, d + 1);
    MulStep(d, t);
    MulIs(d, 2400);
    MulIs(d + 1, 7200);
  }

  /** The next difficulty is the one at which the work of the window would have taken the goal. */
  ghost predicate Retargets(sum: nat, time: nat, least: nat, d: nat) {
    && d >= least && 60 * sum < Mul(d + 1, time)
    && (d > least ==> Mul(d, time) <= 60 * sum)
  }

  lemma RetargetIs(sum: nat, time: nat, least: nat)
    requires time > 0
    ensures Retargets(sum, time, least, Retarget(sum, time, least))
  {
    hide Mul;
    var q := sum * 60 / time;
    DivMod(sum * 60, time);
    MulStep(q, time);
    var d := Retarget(sum, time, least);
    if q < d { MulGrows(q + 1, d + 1, time); }
  }

  lemma MulGrows(a: nat, b: nat, c: nat)
    requires a <= b
    ensures Mul(a, c) <= Mul(b, c)
  {
    MulMonotone(a, b, c);
  }

  /** There is only one such difficulty. */
  lemma RetargetUnique(sum: nat, time: nat, least: nat, d: nat, d': nat)
    requires time > 0 && Retargets(sum, time, least, d) && Retargets(sum, time, least, d')
    ensures d == d'
  {
    hide Mul;
    if d < d' { MulGrows(d + 1, d', time); }
    if d' < d { MulGrows(d' + 1, d, time); }
  }

  /** More time or less work never raises the difficulty. */
  lemma RetargetFalls(sum: nat, sum': nat, actual: nat, actual': nat, least: nat)
    requires sum' <= sum && actual <= actual'
    ensures Retarget(sum', AdjustedTime(actual'), least) <= Retarget(sum, AdjustedTime(actual), least)
  {
    hide Mul, AdjustedTime, Retarget;
    var t, t' := AdjustedTime(actual), AdjustedTime(actual');
    AdjustedRises(actual, actual');
    RetargetIs(sum, t, least);
    RetargetIs(sum', t', least);
    var d, d' := Retarget(sum, t, least), Retarget(sum', t', least);
    if d < d' {
      MulGrows(d + 1, d', t);
      MulOrder(t, t', d');
    }
  }

  /** A slow window does not raise the difficulty above its mean, and a fast one does not lower it below. */
  lemma SlowAndFast(sum: nat, actual: nat, least: nat)
    ensures var d := Retarget(sum, AdjustedTime(actual), least);
            && (actual >= BLOCK_TIME_WINDOW ==> d == least || 60 * d <= sum)
            && (actual <= BLOCK_TIME_WINDOW + 2 ==> sum < 60 * (d + 1))
  {
    hide Mul, AdjustedTime, Retarget;
    var t := AdjustedTime(actual);
    AdjustedIs(actual);
    RetargetIs(sum, t, least);
    var d := Retarget(sum, t, least);
    MulIs(d, 3600);
    MulIs(d + 1, 3600);
    if t >= 3600 { MulOrder(3600, t, d); }
    if t <= 3600 { MulOrder(t, 3600, d + 1); }
  }

  /** The era 1 retarget of every algorithm, which differ in the floor only. */
  method NextDifficultyEra1(data: seq<HeaderInfo>, least: nat) returns (d: nat)
    requires |data| > 0
    ensures d == Retarget(DifficultySum(data[1..]), AdjustedTime(TimeSum(data, |data| - 1)), least)
    ensures Retargets(DifficultySum(data[1..]), AdjustedTime(TimeSum(data, |data| - 1)), least, d)
    ensures d >= least && DifficultySum(data[1..]) < 120 * (d + 1) && (d > least ==> 40 * d <= DifficultySum(data[1..]))
  {
    hide AdjustedTime, Retarget, Retargets;
    var tsDelta := 0;
    for i := 1 to |data|
      invariant tsDelta == TimeSum(data, i - 1)
    {
      tsDelta := tsDelta + (data[i - 1].timestamp - SaturatingSub(data[i - 1].timestamp, data[i - 1].prevTimespan));
    }
    var diffSum := SumAfterFirst(data);
    var adjTs := AdjustedTime(tsDelta);
    RetargetBounds(diffSum, tsDelta, least);
    RetargetIs(diffSum, adjTs, least);
    d := Retarget(diffSum, adjTs, least);
  }

  method SumAfterFirst(data: seq<HeaderInfo>) returns (sum: nat)
    requires |data| > 0
    ensures sum == DifficultySum(data[1..])
  {
    sum := 0;
    for i := 1 to |data|
      invariant sum == DifficultySum(data[1..i])
    {
      assert data[1..i + 1] == data[1..i] + [data[i]];
      sum := sum + data[i].difficulty;
    }
    assert data[1..|data|] == data[1..];
  }

  /** The retarget before era 1: by the timestamps at the ends of the window. */
  method NextCuckooDifficulty(data: seq<HeaderInfo>, least: nat) returns (d: nat)
    requires |data| == DIFFICULTY_ADJUST_WINDOW + 1 && Rising(data)
    ensures d == Retarget(DifficultySum(data[1..]), AdjustedTime(data[DIFFICULTY_ADJUST_WINDOW].timestamp - data[0].timestamp), least)
    ensures Retargets(DifficultySum(data[1..]), AdjustedTime(data[DIFFICULTY_ADJUST_WINDOW].timestamp - data[0].timestamp), least, d)
    ensures d >= least && DifficultySum(data[1..]) < 120 * (d + 1) && (d > least ==> 40 * d <= DifficultySum(data[1..]))
  {
    hide AdjustedTime, Retarget, Retargets;
    var tsDelta := data[DIFFICULTY_ADJUST_WINDOW].timestamp - data[0].timestamp;
    var diffSum := SumAfterFirst(data);
    RetargetBounds(diffSum, tsDelta, least);
    RetargetIs(diffSum, AdjustedTime(tsDelta), least);
    d := Retarget(diffSum, AdjustedTime(tsDelta), least);
  }

  // Steady blocks

  lemma {:induction false} SteadyTime(xs: seq<HeaderInfo>, n: nat)
    requires n <= |xs|
    requires forall i :: 0 <= i < n ==> xs[i].prevTimespan == BLOCK_TIME_SEC && xs[i].timestamp >= BLOCK_TIME_SEC
    ensures TimeSum(xs, n) == n * BLOCK_TIME_SEC
  {
    if n > 0 { SteadyTime(xs, n - 1); }
  }

  lemma {:induction false} SteadySum(xs: seq<HeaderInfo>, d: nat)
    requires forall i :: 0 <= i < |xs| ==> xs[i].difficulty == d
    ensures DifficultySum(xs) == |xs| * d
  {
    if xs != [] {
      SteadySum(xs[..|xs| - 1], d);
      assert |xs| * d == (|xs| - 1) * d + d;
    }
  }

  lemma {:induction false} SteadyTimestamps(cursor: seq<HeaderInfo>, i: nat)
    requires i < |cursor| && cursor[0].timestamp >= i * BLOCK_TIME_SEC
    requires forall k :: 0 <= k < |cursor| ==> cursor[k].prevTimespan == BLOCK_TIME_SEC
    ensures Timestamp(cursor, i) == cursor[0].timestamp - i * BLOCK_TIME_SEC
  {
    if i > 0 { SteadyTimestamps(cursor, i - 1); }
  }

  /** Blocks of constant difficulty that came every 60 seconds leave the difficulty as it is. */
  method SteadyDifficulty(cursor: seq<HeaderInfo>, d: nat, least: nat) returns (next: nat)
    requires |cursor| > DIFFICULTY_ADJUST_WINDOW && d >= least
    requires forall i :: 0 <= i < |cursor| ==> cursor[i].difficulty == d && cursor[i].prevTimespan == BLOCK_TIME_SEC
    requires cursor[0].timestamp >= (DIFFICULTY_ADJUST_WINDOW + 1) * BLOCK_TIME_SEC
    ensures next == d
  {
    hide AdjustedTime, TimeSum, DifficultySum, Timestamp;
    var data := DifficultyDataToVector(cursor, DIFFICULTY_ADJUST_WINDOW);
    forall k | 0 <= k <= DIFFICULTY_ADJUST_WINDOW
      ensures data[k].difficulty == d && data[k].prevTimespan == BLOCK_TIME_SEC && data[k].timestamp >= BLOCK_TIME_SEC
    {
      var i := DIFFICULTY_ADJUST_WINDOW - k;
      SteadyTimestamps(cursor, i);
      assert data[DIFFICULTY_ADJUST_WINDOW - i] == cursor[i].(timestamp := Timestamp(cursor, i));
    }
    SteadyTime(data, DIFFICULTY_ADJUST_WINDOW);
    SteadySum(data[1..], d);
    next := NextDifficultyEra1(data, least);
  }
}
