/** The fixed-rate recorder: a catch-up sampling loop against an arbitrary monotone clock, and
    the rows it collects. */
module Recorder {
  import opened Bytes

  /** Successive clock readings; a later reading is never earlier. */
  type Clock = nat -> real

  ghost predicate Monotone(clock: Clock) {
    forall i: nat, j: nat | i <= j :: clock(i) <= clock(j)
  }

  /** `n` periods. */
  function Span(n: int, period: real): real {
    n as real * period
  }

  // ---------------------------------------------------------------- the schedule

  /** Sample `k` is not taken before its nominal time. */
  ghost predicate NotEarly(samples: seq<real>, start: real, period: real) {
    forall k {:trigger samples[k]} | 0 <= k < |samples| :: samples[k] >= start + Span(k, period)
  }

  ghost predicate InOrder(samples: seq<real>) {
    forall j, k | 0 <= j <= k < |samples| :: samples[j] <= samples[k]
  }

  /** Catching up never gets more than two periods ahead of the nominal spacing. */
  ghost predicate Spaced(samples: seq<real>, period: real) {
    forall j, k | 0 <= j < k < |samples| :: samples[k] >= samples[j] + Span(k - j - 2, period)
  }

  /** What is promised of the sample times of a loop that started at `start`. */
  ghost predicate OnSchedule(samples: seq<real>, start: real, period: real) {
    NotEarly(samples, start, period) && InOrder(samples) && Spaced(samples, period)
  }

  /** The next due time, after the samples taken so far. */
  ghost predicate Due(samples: seq<real>, start: real, period: real, next: real) {
    && next >= start + Span(|samples|, period)
    && forall j | 0 <= j < |samples| :: next >= samples[j] + Span(|samples| - j - 2, period)
  }

  /** The rescheduling after a sample at time `now`: one period on, unless that is already
      more than a period late at reading `t1`; then one period from reading `t2`. */
  function Reschedule(next: real, period: real, t1: real, t2: real): real {
    if next + period < t1 - period then t2 + period else next + period
  }

  lemma StillNotEarly(samples: seq<real>, start: real, period: real, now: real)
    requires NotEarly(samples, start, period) && now >= start + Span(|samples|, period)
    ensures NotEarly(samples + [now], start, period)
  {
  }

  lemma StillInOrder(samples: seq<real>, now: real)
    requires InOrder(samples) && (|samples| > 0 ==> samples[|samples| - 1] <= now)
    ensures InOrder(samples + [now])
  {
  }

  lemma StillSpaced(samples: seq<real>, start: real, period: real, next: real, now: real)
    requires Spaced(samples, period) && Due(samples, start, period, next) && next <= now
    ensures Spaced(samples + [now], period)
  {
  }

  lemma Later(now: real, period: real, next: real, t1: real, t2: real)
    requires period > 0.0 && now <= t1 <= t2
    ensures Reschedule(next, period, t1, t2) >= next + period
    ensures Reschedule(next, period, t1, t2) >= now + Span(-1, period)
  {
  }

  lemma StillDue(samples: seq<real>, start: real, period: real, next: real, now: real, next': real)
    requires Due(samples, start, period, next)
    requires next' >= next + period && next' >= now + Span(-1, period)
    ensures Due(samples + [now], start, period, next')
  {
  }

  /** A sample taken when due keeps the schedule. */
  lemma SampleKeepsSchedule(samples: seq<real>, start: real, period: real, next: real, now: real,
                            t1: real, t2: real)
    requires period > 0.0 && OnSchedule(samples, start, period) && Due(samples, start, period, next)
    requires next <= now <= t1 <= t2
    requires |samples| > 0 ==> samples[|samples| - 1] <= now
    ensures OnSchedule(samples + [now], start, period)
    ensures Due(samples + [now], start, period, Reschedule(next, period, t1, t2))
  {
    StillNotEarly(samples, start, period, now);
    StillInOrder(samples, now);
    StillSpaced(samples, start, period, next, now);
    Later(now, period, next, t1, t2);
    StillDue(samples, start, period, next, now, Reschedule(next, period, t1, t2));
  }

  /** Samples `j` and `k` within a window of length `w` are at most w/period + 2 apart. */
  lemma WindowBound(samples: seq<real>, start: real, period: real, j: nat, k: nat, t: real, w: real)
    requires period > 0.0 && OnSchedule(samples, start, period)
    requires j <= k < |samples| && t <= samples[j] && samples[k] <= t + w
    ensures (k - j + 1) as real <= w / period + 3.0
  {
    if j < k {
      assert Span(k - j - 2, period) <= w;
      DivideBound(k - j - 2, period, w);
    } else {
      assert w >= 0.0;
      DivideBound(0, period, w);
    }
  }

  lemma DivideBound(n: int, period: real, w: real)
    requires period > 0.0 && Span(n, period) <= w
    ensures n as real <= w / period
  {
  }

  predicate Inside(x: real, t: real, w: real) {
    t <= x <= t + w
  }

  /** How many samples fall into the window. */
  function CountInside(samples: seq<real>, t: real, w: real): nat {
    if samples == [] then 0
    else
      CountInside(samples[..|samples| - 1], t, w)
      + if Inside(samples[|samples| - 1], t, w) then 1 else 0
  }

  /** The samples in the window lie between a first and a last one. */
  lemma {:induction false} FirstAndLast(samples: seq<real>, t: real, w: real) returns (j: nat, k: nat)
    requires CountInside(samples, t, w) > 0
    ensures j <= k < |samples| && Inside(samples[j], t, w) && Inside(samples[k], t, w)
    ensures CountInside(samples, t, w) <= k - j + 1
  {
    var n := |samples| - 1;
    var front := samples[..n];
    if CountInside(front, t, w) == 0 {
      j, k := n, n;
    } else {
      j, k := FirstAndLast(front, t, w);
      if Inside(samples[n], t, w) { k := n; }
    }
  }

  /** MAIN RESULT on rates: however far the loop falls behind and catches up, no window of
      length `w` holds more than w/period + 3 samples. */
  lemma RateBound(samples: seq<real>, start: real, period: real, t: real, w: real)
    requires period > 0.0 && w >= 0.0 && OnSchedule(samples, start, period)
    ensures CountInside(samples, t, w) as real <= w / period + 3.0
  {
    if CountInside(samples, t, w) > 0 {
      var j, k := FirstAndLast(samples, t, w);
      WindowBound(samples, start, period, j, k, t, w);
    } else {
      DivideBound(0, period, w);
    }
  }

  // ---------------------------------------------------------------- the loop

  /** The samples taken, the next due time, and how many clock readings have been made. */
  datatype Loop = Loop(samples: seq<real>, next: real, at: nat)

  /** One turn: a reading that is due is sampled, and the next due time set. */
  function LoopTurn(clock: Clock, period: real, s: Loop): Loop {
    var now := clock(s.at);
    if now < s.next then s.(at := s.at + 1)
    else
      Loop(s.samples + [now], Reschedule(s.next, period, clock(s.at + 1), clock(s.at + 2)),
           s.at + if s.next + period < clock(s.at + 1) - period then 3 else 2)
  }

  /** The loop after some turns, when it starts at reading `at`. */
  function LoopAfter(clock: Clock, period: real, at: nat, turns: nat): Loop
    decreases turns
  {
    if turns == 0 then Loop([], clock(at), at + 1)
    else LoopTurn(clock, period, LoopAfter(clock, period, at, turns - 1))
  }

  ghost predicate Looping(clock: Clock, start: real, period: real, s: Loop) {
    && OnSchedule(s.samples, start, period) && Due(s.samples, start, period, s.next)
    && s.at > 0 && (|s.samples| > 0 ==> s.samples[|s.samples| - 1] <= clock(s.at - 1))
  }

  lemma TurnKeepsSchedule(clock: Clock, start: real, period: real, s: Loop)
    requires Monotone(clock) && period > 0.0 && Looping(clock, start, period, s)
    ensures Looping(clock, start, period, LoopTurn(clock, period, s))
  {
    hide OnSchedule, Due;
    var i := s.at;
    assert clock(i - 1) <= clock(i) <= clock(i + 1) <= clock(i + 2);
    if s.next <= clock(i) {
      SampleKeepsSchedule(s.samples, start, period, s.next, clock(i), clock(i + 1), clock(i + 2));
    }
  }

  /** Whatever the clock does, the samples of the loop are on schedule. */
  lemma {:induction false} LoopOnSchedule(clock: Clock, period: real, at: nat, turns: nat)
    requires Monotone(clock) && period > 0.0
    ensures Looping(clock, clock(at), period, LoopAfter(clock, period, at, turns))
    decreases turns
  {
    if turns == 0 {
      assert Span(0, period) == 0.0;
    } else {
      LoopOnSchedule(clock, period, at, turns - 1);
      TurnKeepsSchedule(clock, clock(at), period, LoopAfter(clock, period, at, turns - 1));
    }
  }

  // ---------------------------------------------------------------- no sample is missed

  ghost predicate Step(clock: Clock, i: nat, g: real) {
    clock(i) <= clock(i + 1) <= clock(i) + g
  }

  /** Readings are at most `g` apart. */
  ghost predicate Dense(clock: Clock, g: real) {
    forall i: nat :: Step(clock, i, g)
  }

  /** Consecutive samples are at most `d` apart. */
  ghost predicate GapsWithin(samples: seq<real>, d: real) {
    forall j, k | 0 <= j && k == j + 1 < |samples| :: samples[k] <= samples[j] + d
  }

  lemma GapsAppend(samples: seq<real>, x: real, d: real)
    requires GapsWithin(samples, d) && (samples != [] ==> x <= samples[|samples| - 1] + d)
    ensures GapsWithin(samples + [x], d)
  {
  }

  /** Samples are close together, and neither the next due time nor the latest reading is far
      from the last one. */
  ghost predicate Attentive(clock: Clock, period: real, g: real, s: Loop) {
    && s.at > 0 && GapsWithin(s.samples, period + 3.0 * g)
    && (s.samples != [] ==>
          var limit := s.samples[|s.samples| - 1] + (period + 2.0 * g);
          s.next <= limit && clock(s.at - 1) <= limit)
  }

  lemma TurnStaysAttentive(clock: Clock, period: real, g: real, s: Loop)
    requires Dense(clock, g) && period > 0.0 && Attentive(clock, period, g, s)
    ensures Attentive(clock, period, g, LoopTurn(clock, period, s))
  {
    hide GapsWithin;
    var i := s.at;
    assert Step(clock, i - 1, g) && Step(clock, i, g) && Step(clock, i + 1, g);
    if s.next <= clock(i) {
      GapsAppend(s.samples, clock(i), period + 3.0 * g);
    }
  }

  /** If readings are at most `g` apart, consecutive samples are at most a period and three
      such steps apart, and the last one is never older than a period and two steps. */
  lemma {:induction false} NoSampleMissed(clock: Clock, period: real, at: nat, turns: nat, g: real)
    requires Dense(clock, g) && period > 0.0
    ensures Attentive(clock, period, g, LoopAfter(clock, period, at, turns))
    ensures turns > 0 ==> LoopAfter(clock, period, at, turns).samples != []
    decreases turns
  {
    if turns > 0 {
      hide Attentive, Dense;
      NoSampleMissed(clock, period, at, turns - 1, g);
      TurnStaysAttentive(clock, period, g, LoopAfter(clock, period, at, turns - 1));
      FirstTurn(clock, period, at, g);
    }
  }

  /** The first reading of the loop is due. */
  lemma FirstTurn(clock: Clock, period: real, at: nat, g: real)
    requires Dense(clock, g)
    ensures LoopAfter(clock, period, at, 1).samples == [clock(at + 1)]
  {
    assert Step(clock, at, g);
    assert LoopAfter(clock, period, at, 0) == Loop([], clock(at), at + 1);
  }

  // ---------------------------------------------------------------- punctuality

  /** Sample `k` lies within `g` after its due time, and so will the next one. */
  ghost predicate Punctual(clock: Clock, start: real, period: real, g: real, s: Loop) {
    && s.at > 0 && s.next == start + Span(|s.samples|, period) && clock(s.at - 1) <= s.next
    && forall k | 0 <= k < |s.samples| ::
         start + Span(k, period) <= s.samples[k] <= start + Span(k, period) + g
  }

  lemma TurnStaysPunctual(clock: Clock, start: real, period: real, g: real, s: Loop)
    requires Dense(clock, g) && 0.0 < period && 2.0 * g <= period && Punctual(clock, start, period, g, s)
    ensures Punctual(clock, start, period, g, LoopTurn(clock, period, s))
  {
    hide Dense;
    var i := s.at;
    DenseAt(clock, g, i - 1);
    DenseAt(clock, g, i);
    SpanNext(|s.samples|, period);
  }

  lemma DenseAt(clock: Clock, g: real, i: nat)
    requires Dense(clock, g)
    ensures Step(clock, i, g)
  {
  }

  lemma SpanNext(n: int, period: real)
    ensures Span(n + 1, period) == Span(n, period) + period
  {
  }

  /** If readings are at most half a period apart, there is no drift: however long the loop runs,
      sample `k` is taken within one such step after start + k periods. */
  lemma {:induction false} NoDrift(clock: Clock, period: real, at: nat, turns: nat, g: real)
    requires Dense(clock, g) && 0.0 < period && 2.0 * g <= period
    ensures Punctual(clock, clock(at), period, g, LoopAfter(clock, period, at, turns))
    decreases turns
  {
    if turns == 0 {
      assert Span(0, period) == 0.0;
    } else {
      hide Punctual, Dense;
      NoDrift(clock, period, at, turns - 1, g);
      TurnStaysPunctual(clock, clock(at), period, g, LoopAfter(clock, period, at, turns - 1));
    }
  }

  /** The turn after `turns` takes a sample, and is more than two periods late with it. */
  ghost predicate Stalls(clock: Clock, period: real, s: Loop) {
    s.next <= clock(s.at) && s.next + 2.0 * period < clock(s.at + 1)
  }

  /** Sample `n` was taken at `x`; later ones, and the next due time, are not before `t`. */
  ghost predicate WaitsFrom(s: Loop, n: nat, x: real, t: real) {
    && n < |s.samples| && s.samples[n] == x && s.next >= t
    && forall k | n < k < |s.samples| :: s.samples[k] >= t
  }

  lemma TurnWaits(clock: Clock, period: real, s: Loop, n: nat, x: real, t: real)
    requires Monotone(clock) && period > 0.0 && WaitsFrom(s, n, x, t)
    ensures WaitsFrom(LoopTurn(clock, period, s), n, x, t)
  {
    assert clock(s.at) <= clock(s.at + 1) <= clock(s.at + 2);
  }

  lemma StallTurn(clock: Clock, period: real, s: Loop)
    requires Monotone(clock) && period > 0.0 && Stalls(clock, period, s)
    ensures WaitsFrom(LoopTurn(clock, period, s), |s.samples|, clock(s.at), clock(s.at) + period)
  {
    assert clock(s.at) <= clock(s.at + 1) <= clock(s.at + 2);
  }

  /** After a stall nothing is caught up: however long the loop runs on, every further sample is at
      least a whole period after the late one. */
  lemma {:induction false} StallWaits(clock: Clock, period: real, at: nat, turns: nat, more: nat)
    requires Monotone(clock) && period > 0.0 && Stalls(clock, period, LoopAfter(clock, period, at, turns))
    ensures var s := LoopAfter(clock, period, at, turns);
            WaitsFrom(LoopAfter(clock, period, at, turns + 1 + more), |s.samples|, clock(s.at), clock(s.at) + period)
    decreases more
  {
    hide WaitsFrom, Stalls, LoopTurn, Monotone;
    var s := LoopAfter(clock, period, at, turns);
    LoopNext(clock, period, at, turns + more);
    if more == 0 {
      StallTurn(clock, period, s);
    } else {
      StallWaits(clock, period, at, turns, more - 1);
      TurnWaits(clock, period, LoopAfter(clock, period, at, turns + more), |s.samples|, clock(s.at),
                clock(s.at) + period);
    }
  }

  lemma LoopNext(clock: Clock, period: real, at: nat, turns: nat)
    ensures LoopAfter(clock, period, at, turns + 1) == LoopTurn(clock, period, LoopAfter(clock, period, at, turns))
  {
  }

  // ---------------------------------------------------------------- rows

  /** One spreadsheet row; `failed` marks a snapshot that raised. */
  datatype Row = Row(sampleIndex: nat, elapsed: real, vehicleId: nat, failed: bool)

  /** A vehicle's sheet: one row per sample, numbered from 1, with its time since the start. */
  ghost predicate Sheet(rows: seq<Row>, id: nat, times: seq<real>, start: real) {
    && |rows| == |times|
    && forall k | 0 <= k < |rows| ::
         rows[k].sampleIndex == k + 1 && rows[k].vehicleId == id && rows[k].elapsed == times[k] - start
  }

  lemma SheetAppend(rows: seq<Row>, id: nat, times: seq<real>, start: real, now: real, failed: bool)
    requires Sheet(rows, id, times, start)
    ensures Sheet(rows + [Row(|times| + 1, now - start, id, failed)], id, times + [now], start)
  {
  }

  // ---------------------------------------------------------------- the recorder

  class RealtimeDataRecorder {
    const vehicles: seq<nat>
    const sampleHz: real
    const enabled: bool
    var records: map<nat, seq<Row>>
    var sampleIndex: nat
    var startTime: real
    var started: bool
    ghost var times: seq<real>    // all sample times, the one taken by `Start` included

    /** Every vehicle has one row for every sample. */
    ghost predicate Valid()
      reads this
    {
      && (forall i, j | 0 <= i < j < |vehicles| :: vehicles[i] != vehicles[j])
      && sampleIndex == |times|
      && forall id | id in vehicles :: id in records && Sheet(records[id], id, times, startTime)
    }

    constructor (ids: seq<nat>, hz: real, on: bool)
      requires forall i, j | 0 <= i < j < |ids| :: ids[i] != ids[j]
      ensures Valid() && vehicles == ids && sampleHz == hz && enabled == on
      ensures times == [] && !started
    {
      vehicles, sampleHz, enabled := ids, hz, on;
      records := map id | id in ids :: [];
      sampleIndex, startTime, started, times := 0, 0.0, false, [];
    }

    /** The configured rate, but never less than one sample in a million seconds. */
    function Rate(): (hz: real)
      ensures sampleHz >= 0.000001 ==> hz == sampleHz
      ensures sampleHz < 0.000001 ==> hz == 0.000001
    {
      if sampleHz > 0.000001 then sampleHz else 0.000001
    }

    /** The time between samples: one over the rate. */
    function Period(): (p: real)
      ensures p > 0.0
      ensures sampleHz >= 0.000001 ==> p * sampleHz == 1.0
      ensures sampleHz < 0.000001 ==> p == 1000000.0
    {
      1.0 / Rate()
    }

    /** Dividing by the period is multiplying by the rate, and the other way round. */
    lemma PerPeriod(x: real)
      ensures Rate() > 0.0 && x / Period() == x * Rate() && x * Period() == x / Rate()
    {
      var hz, p := Rate(), Period();
      assert hz * p == 1.0;
      Inverse(x, hz, p);
      Inverse(x, p, hz);
    }

    /** The schedule in terms of the rate. */
    lemma InTermsOfRate(samples: seq<real>, start: real)
      requires OnSchedule(samples, start, Period())
      ensures forall k {:trigger samples[k]} | 0 <= k < |samples| :: samples[k] >= start + k as real / Rate()
      ensures forall t: real, w: real | w >= 0.0 :: CountInside(samples, t, w) as real <= w * Rate() + 3.0
    {
      hide OnSchedule, CountInside, Period, Rate;
      forall t: real, w: real | w >= 0.0 ensures CountInside(samples, t, w) as real <= w * Rate() + 3.0 {
        RateBound(samples, start, Period(), t, w);
        PerPeriod(w);
      }
      forall k {:trigger samples[k]} | 0 <= k < |samples| ensures samples[k] >= start + k as real / Rate() {
        NoneEarly(samples, start, Period(), k);
        PerPeriod(k as real);
      }
    }

    static lemma Inverse(x: real, a: real, b: real)
      requires a > 0.0 && b > 0.0 && a * b == 1.0
      ensures x / b == x * a
    {
      assert (x / b) * b == x && (x * a) * b == x * (a * b);
      assert (x / b - x * a) * b == 0.0;
    }

    static lemma NoneEarly(samples: seq<real>, start: real, period: real, k: nat)
      requires OnSchedule(samples, start, period) && k < |samples|
      ensures samples[k] >= start + k as real * period
    {
    }

    /** Appends one row per vehicle, whether or not its snapshot raises. */
    method SampleOnce(now: real)
      requires Valid()
      modifies this`records, this`sampleIndex, this`times
      ensures Valid() && times == old(times) + [now]
    {
      sampleIndex := sampleIndex + 1;
      ghost var before := records;
      for i := 0 to |vehicles|
        invariant times == old(times) && sampleIndex == |times| + 1
        invariant forall k | 0 <= k < |vehicles| :: vehicles[k] in records
        invariant forall k | 0 <= k < i ::
                    Sheet(records[vehicles[k]], vehicles[k], times + [now], startTime)
        invariant forall k | i <= k < |vehicles| :: records[vehicles[k]] == before[vehicles[k]]
      {
        var id := vehicles[i];
        var failed := *;
        SheetAppend(records[id], id, times, startTime, now, failed);
        records := records[id := records[id] + [Row(sampleIndex, now - startTime, id, failed)]];
      }
      times := times + [now];
    }

    /** The first sample, taken before the loop starts. `at` counts clock readings. */
    method Start(clock: Clock, at: nat) returns (at': nat)
      requires Valid() && (started || times == [])
      modifies this
      ensures Valid() && at' >= at
      ensures enabled && !old(started) ==>
                started && startTime == clock(at) && times == [clock(at)]
      ensures !(enabled && !old(started)) ==> times == old(times) && started == old(started)
    {
      at' := at;
      if !enabled || started { return; }
      startTime := clock(at);
      at' := at + 1;
      SampleOnce(startTime);
      started := true;
    }

    /** One turn of the loop: too early, or a sample and the next due time. The clock is read
        once, twice or three times. */
    method Turn(clock: Clock, period: real, next: real, i: nat)
      returns (next': real, i': nat, ghost taken: seq<real>)
      requires Valid()
      modifies this`records, this`sampleIndex, this`times
      ensures Valid() && times == old(times) + taken
      ensures forall samples: seq<real> ::
                LoopTurn(clock, period, Loop(samples, next, i)) == Loop(samples + taken, next', i')
    {
      var now := clock(i);
      if now < next {
        assert forall samples: seq<real> :: samples + [] == samples;
        return next, i + 1, [];
      }
      SampleOnce(now);
      taken := [now];
      next', i' := next + period, i + 2;
      if next' < clock(i + 1) - period {
        next', i' := clock(i + 2) + period, i + 3;
      }
    }

    /** The sampling thread. `turns` is how often the loop runs before it sees the stop event;
        sleeping only lets the clock advance between readings. Samples are taken exactly when a
        reading is due, never early, and no window holds more than its share. */
    method RunLoop(clock: Clock, at: nat, turns: nat) returns (ghost samples: seq<real>)
      requires Valid() && Monotone(clock)
      modifies this`records, this`sampleIndex, this`times
      ensures Valid() && times == old(times) + samples
      ensures samples == LoopAfter(clock, Period(), at, turns).samples
      ensures OnSchedule(samples, clock(at), Period())
      ensures forall k {:trigger samples[k]} | 0 <= k < |samples| :: samples[k] >= clock(at) + k as real / Rate()
      ensures forall t: real, w: real | w >= 0.0 :: CountInside(samples, t, w) as real <= w * Rate() + 3.0
    {
      hide Valid, OnSchedule, CountInside, LoopTurn, Rate;
      var period, next := Period(), clock(at);
      var i: nat := at + 1;
      samples := [];
      for turn := 0 to turns
        invariant Valid() && times == old(times) + samples
        invariant LoopAfter(clock, period, at, turn) == Loop(samples, next, i)
      {
        ghost var taken;
        next, i, taken := Turn(clock, period, next, i);
        Assoc(old(times), samples, taken);
        samples := samples + taken;
      }
      LoopOnSchedule(clock, period, at, turns);
      InTermsOfRate(samples, clock(at));
    }
  }
}
