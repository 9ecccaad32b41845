/** Flight rounds that survive any pattern of backend failures: recording is stopped, faults
    are cleared and every backend is shut down, whatever raised on the way. */
module FlightRounds {
  import opened Bytes

  datatype Option<T> = None | Some(value: T)

  // ---------------------------------------------------------------- one vehicle

  datatype Method =
    | Initialize | Shutdown | Arm | Disarm | Takeoff | Goto | Velocity | Hover | Land
    | RunMission | InjectFault | ClearFault

  /** Keyword arguments of a backend call; only the fault methods look at them here. */
  datatype Args = Args(mode: Option<int>, flag: int, params: seq<real>)

  const NO_ARGS: Args := Args(None, 0, [])

  /** The calls the runner makes around the timelines. */
  const STARTING: Call := Call(Initialize, NO_ARGS, false)
  const CLEARING: Call := Call(ClearFault, NO_ARGS, true)
  const STOPPING: Call := Call(Shutdown, NO_ARGS, true)

  /** A HIL control message to the aircraft. */
  datatype Hil = Hil(mode: int, flag: int, ctrls: seq<real>)

  /** A backend call; `tolerated` says that its errors are only logged. */
  datatype Call = Call(method_: Method, args: Args, tolerated: bool)

  /** One call on one vehicle: whether it raised, the fault mode it stored, the message it
      sent. */
  datatype Entry = Entry(call: Call, raised: bool, stored: Option<int>, sent: Option<Hil>)

  function Controls(params: seq<real>): (c: seq<real>)
    ensures |c| == 16
  {
    seq(16, i => if 0 <= i < |params| then params[i] else 0.0)
  }

  const ZEROS: seq<real> := Controls([])

  /** The most recently injected mode, `default` before any injection. */
  function LastMode(log: seq<Entry>, default: int): int {
    if log == [] then default
    else
      var last := log[|log| - 1];
      if last.stored.Some? then last.stored.value else LastMode(log[..|log| - 1], default)
  }

  /** Call `i` did what the real-vehicle backend does, given the calls before it. */
  ghost predicate Genuine(log: seq<Entry>, i: nat, default: int)
    requires i < |log|
  {
    var e := log[i];
    && (e.stored.Some? ==> e.call.method_ == InjectFault && e.stored == e.call.args.mode)
    && (e.call.method_ == InjectFault && e.sent.Some? ==>
          e.stored.Some? && e.sent.value == Hil(e.stored.value, e.call.args.flag, Controls(e.call.args.params)))
    && (e.call.method_ == ClearFault && e.sent.Some? ==>
          e.sent.value == Hil(if e.call.args.mode.Some? then e.call.args.mode.value
                              else LastMode(log[..i], default), 0, ZEROS))
    && (!e.raised && (e.call.method_ == InjectFault || e.call.method_ == ClearFault) ==> e.sent.Some?)
  }

  class Vehicle {
    const real_: bool       // declared as a real vehicle
    const hil: bool         // backed by the real-vehicle backend, not by a dry run
    const defaultMode: int
    var connected: bool
    var lastFaultMode: int
    var log: seq<Entry>

    constructor (isReal: bool, isHil: bool, mode: int)
      ensures Valid() && log == [] && !connected
      ensures real_ == isReal && hil == isHil && defaultMode == mode
    {
      real_, hil, defaultMode := isReal, isHil, mode;
      connected, lastFaultMode, log := false, mode, [];
    }

    ghost predicate Valid()
      reads this
    {
      hil ==> lastFaultMode == LastMode(log, defaultMode)
              && forall i: nat | i < |log| :: Genuine(log, i, defaultMode)
    }

    /** Sixteen control slots, filled from the front; surplus parameters are ignored. */
    method FillControls(params: seq<real>) returns (ctrls: seq<real>)
      ensures ctrls == Controls(params)
      ensures |ctrls| == 16 && forall k | 0 <= k < 16 :: ctrls[k] == if k < |params| then params[k] else 0.0
    {
      ctrls := ZEROS;
      var i := 0;
      while i < |params|
        invariant 0 <= i <= |params| && i <= 16 && |ctrls| == 16
        invariant forall k | 0 <= k < i :: ctrls[k] == params[k]
        invariant forall k | i <= k < 16 :: ctrls[k] == 0.0
      {
        if i >= |ctrls| { break; }
        ctrls := ctrls[i := params[i]];
        i := i + 1;
      }
    }

    /** Real-vehicle fault injection. It may raise before or after the mode is stored, and
        before or after the message is sent. */
    method SendInjection(c: Call) returns (e: Entry)
      requires c.method_ == InjectFault
      modifies this`lastFaultMode
      ensures e.call == c
      ensures !connected || c.args.mode.None? ==> e.raised && e.stored.None? && e.sent.None?
      ensures if e.stored.Some? then e.stored == c.args.mode && lastFaultMode == e.stored.value
              else lastFaultMode == old(lastFaultMode)
      ensures e.sent.Some? ==>
                e.stored.Some? && e.sent.value == Hil(e.stored.value, c.args.flag, Controls(c.args.params))
      ensures !e.raised ==> e.sent.Some?
    {
      var early, sendFails, markFails := *, *, *;
      e := Entry(c, true, None, None);
      if !connected || c.args.mode.None? || early { return; }
      lastFaultMode := c.args.mode.value;
      e := e.(stored := Some(lastFaultMode));
      var ctrls := FillControls(c.args.params);
      if sendFails { return; }
      e := e.(sent := Some(Hil(c.args.mode.value, c.args.flag, ctrls)), raised := markFails);
    }

    /** Real-vehicle fault clearing; without an explicit mode it uses the stored one. */
    method SendClearing(c: Call) returns (e: Entry)
      requires c.method_ == ClearFault
      ensures e.call == c && e.stored.None?
      ensures !connected ==> e.raised && e.sent.None?
      ensures e.sent.Some? ==>
                e.sent.value == Hil(if c.args.mode.Some? then c.args.mode.value else lastFaultMode, 0, ZEROS)
      ensures !e.raised ==> e.sent.Some?
      ensures e.sent.Some? ==> forall k | 0 <= k < |e.sent.value.ctrls| :: e.sent.value.ctrls[k] == 0.0
    {
      var sendFails, markFails := *, *;
      var faultMode := if c.args.mode.None? then lastFaultMode else c.args.mode.value;
      e := Entry(c, true, None, None);
      if !connected || sendFails { return; }
      e := e.(sent := Some(Hil(faultMode, 0, ZEROS)), raised := markFails);
    }

    /** Any backend method; it may raise. */
    method Invoke(c: Call) returns (raised: bool)
      requires Valid()
      modifies this
      ensures Valid()
      ensures |log| == |old(log)| + 1 && log[..|log| - 1] == old(log)
      ensures log[|log| - 1].call == c && log[|log| - 1].raised == raised
    {
      var e: Entry;
      if hil && c.method_ == InjectFault {
        e := SendInjection(c);
      } else if hil && c.method_ == ClearFault {
        e := SendClearing(c);
      } else {
        raised := *;
        e := Entry(c, raised, None, None);
        if hil && c.method_ == Initialize {
          var connects := *;
          connected := connected || !raised || connects;
        }
      }
      raised := e.raised;
      log := log + [e];
      Longer(old(log), e, defaultMode);
    }
  }

  /** The vehicles declared as real, in order. */
  function RealsAmong(vs: seq<Vehicle>): (r: seq<Vehicle>)
    ensures forall v | v in r :: v in vs && v.real_
    ensures forall v | v in vs && v.real_ :: v in r
  {
    if vs == [] then []
    else
      var n := |vs| - 1;
      assert vs == vs[..n] + [vs[n]];
      RealsAmong(vs[..n]) + if vs[n].real_ then [vs[n]] else []
  }

  /** Appending a call keeps what is known about the calls before it. */
  lemma Longer(log: seq<Entry>, e: Entry, default: int)
    ensures LastMode(log + [e], default)
            == if e.stored.Some? then e.stored.value else LastMode(log, default)
    ensures forall i: nat | i < |log| ::
              Genuine(log + [e], i, default) <==> Genuine(log, i, default)
    ensures (log + [e])[..|log|] == log
  {
    assert (log + [e])[..|log|] == log;
    forall i: nat | i < |log|
      ensures Genuine(log + [e], i, default) <==> Genuine(log, i, default)
    {
      assert (log + [e])[..i] == log[..i];
    }
  }

  // ---------------------------------------------------------------- logs

  ghost function Occurrences<T>(s: seq<T>, x: T): nat {
    multiset(s)[x]
  }

  /** `after` continues `before` with `n` times the call `c`. */
  ghost predicate Called(before: seq<Entry>, after: seq<Entry>, c: Call, n: nat) {
    && |after| == |before| + n && after[..|before|] == before
    && forall i | |before| <= i < |after| :: after[i].call == c
  }

  /** The calls of a log, without what came of them. */
  function Calls(log: seq<Entry>): seq<Call> {
    if log == [] then [] else Calls(log[..|log| - 1]) + [log[|log| - 1].call]
  }

  function Repeat(c: Call, n: nat): seq<Call> {
    if n == 0 then [] else Repeat(c, n - 1) + [c]
  }

  lemma {:induction false} RepeatIs(c: Call, n: nat)
    ensures |Repeat(c, n)| == n && forall x | x in Repeat(c, n) :: x == c
  {
    if n > 0 {
      RepeatIs(c, n - 1);
    }
  }

  /** `after` continues `before` with exactly the calls `cs`. */
  ghost predicate Extended(before: seq<Entry>, after: seq<Entry>, cs: seq<Call>) {
    before <= after && Calls(after) == Calls(before) + cs
  }

  lemma {:induction false} CalledExtends(before: seq<Entry>, after: seq<Entry>, c: Call, n: nat)
    requires Called(before, after, c, n)
    ensures Extended(before, after, Repeat(c, n))
    decreases n
  {
    if n == 0 {
      assert after == before;
    } else {
      var shorter := after[..|after| - 1];
      assert shorter[..|before|] == before;
      CalledExtends(before, shorter, c, n - 1);
      Assoc(Calls(before), Repeat(c, n - 1), [c]);
    }
  }

  lemma ExtendedTwice(a: seq<Entry>, b: seq<Entry>, c: seq<Entry>, first: seq<Call>, then_: seq<Call>)
    requires Extended(a, b, first) && Extended(b, c, then_)
    ensures Extended(a, c, first + then_)
  {
    hide Calls;
    Assoc(Calls(a), first, then_);
  }

  lemma {:induction false} CallsLength(log: seq<Entry>)
    ensures |Calls(log)| == |log|
  {
    if log != [] {
      CallsLength(log[..|log| - 1]);
    }
  }

  /** Call `j` clears: on the real backend it raised, or it sent flag 0 and zero controls for
      the mode injected most recently. */
  ghost predicate ClearsAt(log: seq<Entry>, j: nat, default: int, hil: bool) {
    && j < |log| && log[j].call.method_ == ClearFault
    && (hil && !log[j].raised ==> log[j].sent == Some(Hil(LastMode(log[..j], default), 0, ZEROS)))
  }

  /** No injection after the last such call, or none at all. */
  ghost predicate Settled(log: seq<Entry>, default: int, hil: bool) {
    || (forall i | 0 <= i < |log| :: log[i].call.method_ != InjectFault)
    || exists j: nat :: ClearsAt(log, j, default, hil)
                        && forall i | j < i < |log| :: log[i].call.method_ != InjectFault
  }

  // ---------------------------------------------------------------- every mode cleared

  /** Call `i` sent an injection. */
  predicate Injects(log: seq<Entry>, i: nat) {
    i < |log| && log[i].call.method_ == InjectFault && log[i].sent.Some?
  }

  /** Call `j` sent a clearing of mode `m`; in a genuine log that is flag 0 and zero controls. */
  predicate Clears(log: seq<Entry>, j: nat, m: int) {
    j < |log| && log[j].call.method_ == ClearFault && log[j].sent.Some? && log[j].sent.value.mode == m
  }

  /** Mode `m` was injected by call `i` and not cleared since. */
  ghost predicate StillOpen(log: seq<Entry>, i: nat, m: int) {
    Injects(log, i) && log[i].sent.value.mode == m && forall j: nat | i < j :: !Clears(log, j, m)
  }

  /** For every injection a later call clears its mode. */
  ghost predicate EveryModeCleared(log: seq<Entry>) {
    forall i: nat | Injects(log, i) :: !StillOpen(log, i, log[i].sent.value.mode)
  }

  /** A list of modes without mode `m`. */
  function Without(modes: seq<int>, m: int): seq<int> {
    if modes == [] then []
    else
      var front, last := modes[..|modes| - 1], modes[|modes| - 1];
      Without(front, m) + if last == m then [] else [last]
  }

  /** The modes injected and not cleared since, kept up to date call by call. */
  function Open(log: seq<Entry>): seq<int> {
    if log == [] then []
    else
      var e, before := log[|log| - 1], Open(log[..|log| - 1]);
      if e.sent.None? then before
      else if e.call.method_ == InjectFault then before + [e.sent.value.mode]
      else if e.call.method_ == ClearFault then Without(before, e.sent.value.mode)
      else before
  }

  ghost predicate Has(modes: seq<int>, m: int) {
    exists k: nat :: k < |modes| && modes[k] == m
  }

  lemma HasAppend(modes: seq<int>, n: int, m: int)
    ensures Has(modes + [n], m) <==> Has(modes, m) || n == m
  {
    var all := modes + [n];
    if k: nat :| k < |modes| && modes[k] == m {
      assert all[k] == m;
    }
    if n == m {
      assert all[|modes|] == m;
    }
  }

  lemma {:induction false} HasWithout(modes: seq<int>, n: int, m: int)
    ensures Has(Without(modes, n), m) <==> Has(modes, m) && m != n
  {
    if modes != [] {
      var front, last := modes[..|modes| - 1], modes[|modes| - 1];
      HasWithout(front, n, m);
      HasAppend(front, last, m);
      HasAppend(Without(front, n), last, m);
      assert modes == front + [last] && Without(front, n) + [] == Without(front, n);
    }
  }

  lemma {:induction false} OpenIs(log: seq<Entry>, m: int)
    ensures Has(Open(log), m) <==> exists i: nat :: StillOpen(log, i, m)
  {
    if log != [] {
      hide Has, StillOpen, Without;
      var front, n := log[..|log| - 1], |log| - 1;
      OpenIs(front, m);
      OpenNext(log, m);
      if log[n].sent.Some? {
        HasAppend(Open(front), log[n].sent.value.mode, m);
        HasWithout(Open(front), log[n].sent.value.mode, m);
      }
    } else {
      NoneOpen(m);
    }
  }

  lemma NoneOpen(m: int)
    ensures !Has(Open([]), m) && forall i: nat :: !StillOpen([], i, m)
  {
  }

  lemma OpenNext(log: seq<Entry>, m: int)
    requires log != []
    ensures var n := |log| - 1;
            (exists i: nat :: StillOpen(log, i, m))
            <==> (Injects(log, n) && log[n].sent.value.mode == m)
                 || ((exists i: nat :: StillOpen(log[..n], i, m)) && !Clears(log, n, m))
  {
    var front, n := log[..|log| - 1], |log| - 1;
    if i: nat :| StillOpen(log, i, m) {
      if i < n {
        OpenStep(log, i, m);
      }
    }
    if Injects(log, n) && log[n].sent.value.mode == m {
      assert StillOpen(log, n, m);
    }
    if i: nat :| StillOpen(front, i, m) {
      OpenStep(log, i, m);
    }
  }

  lemma OpenStep(log: seq<Entry>, i: nat, m: int)
    requires i < |log| - 1
    ensures StillOpen(log, i, m)
            <==> StillOpen(log[..|log| - 1], i, m) && !Clears(log, |log| - 1, m)
  {
    var front, n := log[..|log| - 1], |log| - 1;
    assert forall j: nat | j < n :: Clears(log, j, m) == Clears(front, j, m);
    if StillOpen(log, i, m) {
      assert !Clears(log, n, m);
    }
  }

  lemma OpenExactly(log: seq<Entry>)
    ensures EveryModeCleared(log) <==> Open(log) == []
  {
    hide Open;
    var open := Open(log);
    if open != [] {
      assert open[0] == open[0];
      assert Has(open, open[0]);
      OpenIs(log, open[0]);
      var i: nat :| StillOpen(log, i, open[0]);
      assert Injects(log, i) && log[i].sent.value.mode == open[0];
    }
    if i: nat :| Injects(log, i) && StillOpen(log, i, log[i].sent.value.mode) {
      OpenIs(log, log[i].sent.value.mode);
    }
  }

  /** All modes in the list are `m`. */
  ghost predicate OnlyMode(modes: seq<int>, m: int) {
    forall k | 0 <= k < |modes| :: modes[k] == m
  }

  lemma {:induction false} WithoutAll(modes: seq<int>, m: int)
    ensures Without(modes, m) == [] <==> OnlyMode(modes, m)
  {
    if modes != [] {
      var front, last := modes[..|modes| - 1], modes[|modes| - 1];
      WithoutAll(front, m);
      OnlyModeNext(modes, m);
    }
  }

  lemma OnlyModeNext(modes: seq<int>, m: int)
    requires modes != []
    ensures OnlyMode(modes, m) <==> OnlyMode(modes[..|modes| - 1], m) && modes[|modes| - 1] == m
  {
    var front := modes[..|modes| - 1];
    if OnlyMode(front, m) && modes[|modes| - 1] == m {
      assert forall k | 0 <= k < |front| :: modes[k] == front[k];
    }
  }

  lemma OpenAfterClearing(log: seq<Entry>, e: Entry)
    requires e.call == CLEARING && e.sent.Some?
    ensures Open(log + [e]) == Without(Open(log), e.sent.value.mode)
  {
    assert (log + [e])[..|log|] == log;
  }

  /** The clearing that ends a round names one mode, the one stored last. It leaves no injected
      mode uncleared if and only if no other mode was open before it. */
  lemma RoundClearsEverything(log: seq<Entry>, e: Entry, default: int)
    requires e.call == CLEARING && e.sent == Some(Hil(LastMode(log, default), 0, ZEROS))
    ensures EveryModeCleared(log + [e]) <==> OnlyMode(Open(log), LastMode(log, default))
  {
    hide Open, LastMode, EveryModeCleared, Without, OnlyMode;
    OpenExactly(log + [e]);
    OpenAfterClearing(log, e);
    WithoutAll(Open(log), LastMode(log, default));
  }

  function Injection(mode: int, sends: bool): Entry {
    var a := Args(Some(mode), 1, []);
    Entry(Call(InjectFault, a, false), !sends, Some(mode),
          if sends then Some(Hil(mode, 1, Controls([]))) else None)
  }

  /** Two modes in one round: the first stays. It also stays when the second is stored but its
      message is not sent. */
  lemma FirstModeStays(sends: bool, default: int)
    ensures var log := [Injection(1, true), Injection(2, sends)];
            var e := Entry(CLEARING, false, None, Some(Hil(LastMode(log, default), 0, ZEROS)));
            && (forall i: nat | i < 3 :: Genuine(log + [e], i, default))
            && !EveryModeCleared(log + [e]) && Open(log + [e]) == [1]
  {
    var a, b := Injection(1, true), Injection(2, sends);
    var log := [a, b];
    var e := Entry(CLEARING, false, None, Some(Hil(LastMode(log, default), 0, ZEROS)));
    hide Open, EveryModeCleared, Genuine, LastMode, Without;
    TwoOpen(sends, default);
    OpenAfterClearing(log, e);
    OnlyFirst(sends);
    OpenExactly(log + [e]);
    GenuineThree(a, b, e, sends, default);
  }

  lemma TwoOpen(sends: bool, default: int)
    ensures var log := [Injection(1, true), Injection(2, sends)];
            Open(log) == (if sends then [1, 2] else [1]) && LastMode(log, default) == 2
  {
    var a, b := Injection(1, true), Injection(2, sends);
    assert [a, b][..1] == [a] && [a][..0] == [];
    assert Open([]) == [] && Open([a]) == [1];
  }

  lemma OnlyFirst(sends: bool)
    ensures Without(if sends then [1, 2] else [1], 2) == [1]
  {
    assert [1, 2][..1] == [1] && [1][..0] == [];
    assert Without([], 2) == [] && Without([1], 2) == [1];
  }

  lemma GenuineThree(a: Entry, b: Entry, e: Entry, sends: bool, default: int)
    requires a == Injection(1, true) && b == Injection(2, sends)
    requires e == Entry(CLEARING, false, None, Some(Hil(2, 0, ZEROS)))
    ensures forall i: nat | i < 3 :: Genuine([a, b] + [e], i, default)
  {
    var log := [a, b] + [e];
    assert log[0] == a && log[1] == b && log[2] == e && log[..2] == [a, b] && [a, b][..1] == [a];
  }

  // ---------------------------------------------------------------- shutdowns

  function Shutdowns(log: seq<Entry>): nat {
    if log == [] then 0
    else Shutdowns(log[..|log| - 1]) + if log[|log| - 1].call.method_ == Shutdown then 1 else 0
  }

  lemma {:induction false} ShutdownsAfter(before: seq<Entry>, after: seq<Entry>, c: Call, n: nat)
    requires Called(before, after, c, n)
    ensures Shutdowns(after) == Shutdowns(before) + if c.method_ == Shutdown then n else 0
    decreases n
  {
    if n > 0 {
      var shorter := after[..|after| - 1];
      assert shorter[..|before|] == before;
      ShutdownsAfter(before, shorter, c, n - 1);
    } else {
      assert after == before;
    }
  }

  /** Calls other than injections keep a log settled. */
  lemma SettledStays(before: seq<Entry>, after: seq<Entry>, c: Call, n: nat, default: int, hil: bool)
    requires Settled(before, default, hil) && Called(before, after, c, n) && c.method_ != InjectFault
    ensures Settled(after, default, hil)
  {
    if j: nat :| ClearsAt(before, j, default, hil)
                 && forall i | j < i < |before| :: before[i].call.method_ != InjectFault {
      assert after[..j] == before[..j];
      assert after[j] == before[j];
      assert ClearsAt(after, j, default, hil);
    } else {
      assert forall i | 0 <= i < |before| :: after[i] == before[i];
    }
  }

  /** `after` continues `before`, without any shutdown. */
  ghost predicate Grown(before: seq<Entry>, after: seq<Entry>) {
    && |before| <= |after| && after[..|before|] == before
    && forall i | |before| <= i < |after| :: after[i].call.method_ != Shutdown
  }

  lemma CalledGrows(before: seq<Entry>, after: seq<Entry>, c: Call, n: nat)
    requires Called(before, after, c, n) && (n > 0 ==> c.method_ != Shutdown)
    ensures Grown(before, after)
  {
  }

  lemma GrownTwice(a: seq<Entry>, b: seq<Entry>, c: seq<Entry>)
    requires Grown(a, b) && Grown(b, c)
    ensures Grown(a, c)
  {
  }

  lemma {:induction false} GrownNoShutdowns(before: seq<Entry>, after: seq<Entry>)
    requires Grown(before, after)
    ensures Shutdowns(after) == Shutdowns(before)
    decreases |after|
  {
    if |before| == |after| {
      assert after == before;
    } else {
      var shorter := after[..|after| - 1];
      assert shorter[..|before|] == before;
      GrownNoShutdowns(before, shorter);
    }
  }

  /** The last of some clearing calls clears. */
  lemma LastCallClears(before: seq<Entry>, after: seq<Entry>, n: nat, default: int, hil: bool)
    requires Called(before, after, CLEARING, n) && n > 0
    requires hil ==> Genuine(after, |after| - 1, default)
    ensures ClearsAt(after, |after| - 1, default, hil)
  {
  }

  // ---------------------------------------------------------------- the runner

  datatype Targets = Unspecified | All | Named(names: seq<nat>)

  datatype Action = Wait | Do(method_: Method) | Unsupported

  predicate IsFaultAction(a: Action) {
    a == Do(InjectFault) || a == Do(ClearFault)
  }

  /** Actions that name a backend method. Initialising and shutting down are not among them. */
  predicate Callable(a: Action) {
    a.Do? && a.method_ != Initialize && a.method_ != Shutdown
  }

  /** One timeline step. `malformed` stands for any error while preparing it: a missing key, a
      number that does not parse, a trajectory that cannot be generated. */
  datatype Step = Step(action: Action, targets: Targets, args: Args, malformed: bool)

  type Journal = map<Vehicle, seq<Entry>>

  class CollectionRunner {
    const vehicles: seq<Vehicle>
    const recordingEnabled: bool
    var recorder: bool        // a recorder object is held
    var recording: bool       // its sampling thread is alive
    var recordersCreated: nat // how many there have been
    var recorderErrors: nat   // how often creating or starting a recorder raised
    var dataLogs: nat

    constructor (fleet: seq<Vehicle>, enabled: bool)
      ensures vehicles == fleet && recordingEnabled == enabled
      ensures !recorder && !recording && recordersCreated == 0 && recorderErrors == 0 && dataLogs == 0
    {
      vehicles, recordingEnabled := fleet, enabled;
      recorder, recording, recordersCreated, recorderErrors, dataLogs := false, false, 0, 0, 0;
    }

    ghost predicate Fleet()
      reads vehicles
    {
      forall v | v in vehicles :: v.Valid()
    }

    ghost function Logs(): Journal
      reads vehicles
    {
      map v | v in vehicles :: v.log
    }

    // -------------------------------------------------------------- journals

    /** From `before` to `now` each vehicle was called as often as it occurs among the targets. */
    ghost predicate AllCalled(before: Journal, now: Journal, targets: seq<Vehicle>, c: Call) {
      forall v | v in vehicles ::
        v in before && v in now && Called(before[v], now[v], c, Occurrences(targets, v))
    }

    /** Some call between the two raised. */
    ghost predicate AnyRaised(before: Journal, now: Journal) {
      exists v, i | v in vehicles && v in before && v in now && |before[v]| <= i < |now[v]| ::
        now[v][i].raised
    }

    /** Some call between the two raised an error that is not tolerated. */
    ghost predicate Escapes(before: Journal, now: Journal) {
      exists v, i | v in vehicles && v in before && v in now && |before[v]| <= i < |now[v]| ::
        now[v][i].raised && !now[v][i].call.tolerated
    }

    /** The journal has only been added to. */
    ghost predicate Later(before: Journal, now: Journal) {
      forall v | v in vehicles :: v in before && v in now && before[v] <= now[v]
    }

    lemma EscapesInTwo(before: Journal, mid: Journal, now: Journal)
      requires Later(before, mid) && Later(mid, now)
      ensures Later(before, now)
      ensures Escapes(before, now) <==> Escapes(before, mid) || Escapes(mid, now)
    {
      if Escapes(before, now) {
        var v, i :| v in vehicles && v in before && v in now && |before[v]| <= i < |now[v]|
          && now[v][i].raised && !now[v][i].call.tolerated;
        if i < |mid[v]| {
          assert mid[v][i] == now[v][i];
        }
      }
      if Escapes(before, mid) {
        var v, i :| v in vehicles && v in before && v in mid && |before[v]| <= i < |mid[v]|
          && mid[v][i].raised && !mid[v][i].call.tolerated;
        assert now[v][i] == mid[v][i];
      }
    }

    /** For one kind of call, errors escape or they do not. */
    lemma EscapesByCall(before: Journal, now: Journal, targets: seq<Vehicle>, c: Call)
      requires AllCalled(before, now, targets, c)
      ensures Later(before, now)
      ensures Escapes(before, now) <==> !c.tolerated && AnyRaised(before, now)
    {
    }

    /** One worker. */
    method CallNext(ghost before: Journal, targets: seq<Vehicle>, i: nat, c: Call)
      returns (failed: bool)
      requires i < |targets| && targets[i] in vehicles
      requires Fleet() && AllCalled(before, Logs(), targets[..i], c)
      modifies vehicles
      ensures Fleet() && AllCalled(before, Logs(), targets[..i + 1], c)
      ensures AnyRaised(before, Logs()) <==> old(AnyRaised(before, Logs())) || failed
    {
      var v := targets[i];
      assert targets[..i + 1] == targets[..i] + [v];
      ghost var now := Logs();
      failed := v.Invoke(c);
      RaisedBy(before, now, Logs(), v, failed);
    }

    /** One more call, on `v`: some call raised if one had before or this one did. */
    lemma RaisedBy(before: Journal, mid: Journal, now: Journal, v: Vehicle, failed: bool)
      requires v in vehicles && forall u | u in vehicles :: u in before && u in mid && u in now
      requires forall u | u in vehicles && u != v :: now[u] == mid[u]
      requires |now[v]| == |mid[v]| + 1 && now[v][..|mid[v]|] == mid[v] && |before[v]| <= |mid[v]|
      requires failed == now[v][|mid[v]|].raised
      ensures AnyRaised(before, now) <==> AnyRaised(before, mid) || failed
    {
      if AnyRaised(before, now) {
        var u, i :| u in vehicles && u in before && u in now && |before[u]| <= i < |now[u]| && now[u][i].raised;
        if u != v || i < |mid[v]| {
          assert mid[u][i] == now[u][i];
        }
      }
      if AnyRaised(before, mid) {
        var u, i :| u in vehicles && u in before && u in mid && |before[u]| <= i < |mid[u]| && mid[u][i].raised;
        assert now[u][i] == mid[u][i];
      }
      if failed {
        assert now[v][|mid[v]|].raised;
      }
    }

    lemma NoneCalled(c: Call)
      ensures AllCalled(Logs(), Logs(), [], c) && !AnyRaised(Logs(), Logs())
    {
    }

    /** Calls one backend method on every target. The calls run on separate threads, but each
        vehicle sees only its own, so their order across vehicles does not matter. */
    method ParallelCall(targets: seq<Vehicle>, c: Call) returns (raised: bool)
      requires Fleet() && forall k | 0 <= k < |targets| :: targets[k] in vehicles
      modifies vehicles
      ensures Fleet() && AllCalled(old(Logs()), Logs(), targets, c)
      ensures raised <==> !c.tolerated && AnyRaised(old(Logs()), Logs())
    {
      hide Called, Occurrences, AllCalled, AnyRaised, Vehicle.Valid;
      ghost var before := Logs();
      NoneCalled(c);
      assert targets[..0] == [];
      var errors := false;
      for i := 0 to |targets|
        invariant Fleet() && AllCalled(before, Logs(), targets[..i], c)
        invariant errors <==> AnyRaised(before, Logs())
      {
        var failed := CallNext(before, targets, i, c);
        errors := errors || failed;
      }
      assert targets[..|targets|] == targets;
      raised := errors && !c.tolerated;
    }

    // -------------------------------------------------------------- targets

    /** The vehicles declared as real, in order. */
    method RealTargets() returns (targets: seq<Vehicle>)
      ensures targets == RealsAmong(vehicles)
      ensures forall k | 0 <= k < |targets| :: targets[k] in vehicles
      ensures forall v | v in vehicles :: v in targets <==> v.real_
    {
      targets := [];
      for i := 0 to |vehicles|
        invariant targets == RealsAmong(vehicles[..i])
      {
        assert vehicles[..i + 1][..i] == vehicles[..i];
        if vehicles[i].real_ { targets := targets + [vehicles[i]]; }
      }
      assert vehicles[..|vehicles|] == vehicles;
    }

    predicate KnownNames(step: Step) {
      step.targets.Named? ==>
        forall k | 0 <= k < |step.targets.names| :: step.targets.names[k] < |vehicles|
    }

    /** The vehicles a step addresses: those it names, in order; else all of them, except that
        fault actions without explicit targets go to the real vehicles, if there are any. */
    function TargetsOf(step: Step): (targets: seq<Vehicle>)
      requires KnownNames(step)
      ensures forall k | 0 <= k < |targets| :: targets[k] in vehicles
    {
      match step.targets
      case Named(names) => seq(|names|, k requires 0 <= k < |names| && names[k] < |vehicles| => vehicles[names[k]])
      case All => vehicles
      case Unspecified =>
        if (step.action == Do(InjectFault) || step.action == Do(ClearFault)) && RealsAmong(vehicles) != []
        then RealsAmong(vehicles) else vehicles
    }

    /** An unknown name raises. */
    method SelectTargets(step: Step) returns (raised: bool, targets: seq<Vehicle>)
      ensures raised <==> !KnownNames(step)
      ensures !raised ==> targets == TargetsOf(step)
    {
      raised, targets := false, [];
      match step.targets {
        case Unspecified =>
          targets := vehicles;
          if IsFaultAction(step.action) {
            var reals := RealTargets();
            if reals != [] { targets := reals; }
          }
        case All => targets := vehicles;
        case Named(names) =>
          for i := 0 to |names|
            invariant |targets| == i
            invariant forall k | 0 <= k < i :: names[k] < |vehicles| && targets[k] == vehicles[names[k]]
          {
            if names[i] >= |vehicles| { return true, []; }
            targets := targets + [vehicles[names[i]]];
          }
      }
    }

    // -------------------------------------------------------------- recording

    /** Creating or starting the recorder may raise. A disabled recorder samples nothing. */
    method StartRecording() returns (raised: bool)
      requires !recording && !recorder
      modifies this`recorder, this`recording, this`recordersCreated, this`recorderErrors
      ensures recording ==> recorder
      ensures recorderErrors == old(recorderErrors) + if raised then 1 else 0
      ensures recordersCreated == old(recordersCreated) + if recorder then 1 else 0
      ensures !raised ==> recorder && recording == recordingEnabled
    {
      var createFails, startFails := *, *;
      if !createFails {
        recorder, recordersCreated := true, recordersCreated + 1;
        if !recordingEnabled { return false; }
        if !startFails {
          recording := true;
          return false;
        }
      }
      recorderErrors := recorderErrors + 1;
      return true;
    }

    method StopRecording()
      requires recording ==> recorder
      modifies this`recorder, this`recording, this`dataLogs
      ensures !recorder && !recording
      ensures dataLogs == old(dataLogs) + if old(recorder) && recordingEnabled then 1 else 0
    {
      if !recorder { return; }
      recording := false;
      if recordingEnabled { dataLogs := dataLogs + 1; }
      recorder := false;
    }

    // -------------------------------------------------------------- plans

    /** A step that raises before any call is made. */
    ghost predicate Refused(step: Step) {
      if step.action == Wait then step.malformed
      else
        !KnownNames(step) || step.malformed || step.action == Unsupported
        || step.action == Do(Initialize) || step.action == Do(Shutdown)
    }

    ghost predicate AnyRefused(steps: seq<Step>) {
      exists k | 0 <= k < |steps| :: Refused(steps[k])
    }

    /** The calls a step makes on one vehicle. */
    ghost function StepCalls(step: Step, v: Vehicle): seq<Call> {
      if step.action == Wait || Refused(step) then []
      else Repeat(Call(step.action.method_, step.args, false), Occurrences(TargetsOf(step), v))
    }

    ghost function TimelineCalls(steps: seq<Step>, v: Vehicle): seq<Call> {
      if steps == [] then []
      else TimelineCalls(steps[..|steps| - 1], v) + StepCalls(steps[|steps| - 1], v)
    }

    ghost function ClearCalls(v: Vehicle): seq<Call> {
      Repeat(Call(ClearFault, Args(None, 0, []), true), Occurrences(RealsAmong(vehicles), v))
    }

    /** The calls of whole rounds: each ends with the clearing. */
    ghost function RoundCalls(rounds: seq<seq<Step>>, v: Vehicle): seq<Call> {
      if rounds == [] then []
      else
        RoundCalls(rounds[..|rounds| - 1], v)
        + (TimelineCalls(rounds[|rounds| - 1], v) + ClearCalls(v))
    }

    ghost predicate StepFlown(before: Journal, now: Journal, step: Step) {
      forall v | v in vehicles ::
        v in before && v in now && Extended(before[v], now[v], StepCalls(step, v))
    }

    /** Between the two journals, every vehicle was called exactly as the steps say. */
    ghost predicate Flown(before: Journal, now: Journal, steps: seq<Step>) {
      forall v | v in vehicles ::
        v in before && v in now && Extended(before[v], now[v], TimelineCalls(steps, v))
    }

    ghost predicate FlownRounds(before: Journal, now: Journal, rounds: seq<seq<Step>>) {
      forall v | v in vehicles ::
        v in before && v in now && Extended(before[v], now[v], RoundCalls(rounds, v))
    }

    // -------------------------------------------------------------- steps

    /** Resolves a step and makes its backend calls. */
    method Dispatch(step: Step) returns (raised: bool)
      requires Fleet() && step.action != Wait
      modifies vehicles
      ensures Fleet() && Later(old(Logs()), Logs())
      ensures StepFlown(old(Logs()), Logs(), step)
      ensures NoShutdowns(old(Logs()), Logs())
      ensures raised <==> Refused(step) || Escapes(old(Logs()), Logs())
    {
      hide Escapes, AnyRaised, Extended, TargetsOf, Occurrences, Grown;
      var bad, targets := SelectTargets(step);
      if bad || step.malformed || !Callable(step.action) {
        NothingFlown();
        return true;
      }
      var c := Call(step.action.method_, step.args, false);
      raised := ParallelCall(targets, c);
      EscapesByCall(old(Logs()), Logs(), targets, c);
      CalledFlown(old(Logs()), Logs(), targets, c);
    }

    ghost predicate NoShutdowns(before: Journal, now: Journal) {
      forall v | v in vehicles :: v in before && v in now && Grown(before[v], now[v])
    }

    lemma NothingFlown()
      ensures Later(Logs(), Logs()) && NoShutdowns(Logs(), Logs()) && !Escapes(Logs(), Logs())
      ensures forall v | v in vehicles :: Extended(Logs()[v], Logs()[v], [])
    {
    }

    lemma CalledFlown(before: Journal, now: Journal, targets: seq<Vehicle>, c: Call)
      requires AllCalled(before, now, targets, c) && c.method_ != Shutdown
      ensures NoShutdowns(before, now)
      ensures forall v | v in vehicles :: Extended(before[v], now[v], Repeat(c, Occurrences(targets, v)))
    {
      forall v: Vehicle | v in vehicles
        ensures Extended(before[v], now[v], Repeat(c, Occurrences(targets, v))) && Grown(before[v], now[v])
      {
        CalledExtends(before[v], now[v], c, Occurrences(targets, v));
        CalledGrows(before[v], now[v], c, Occurrences(targets, v));
      }
    }

    /** One timeline step. Every vehicle gets exactly its calls; it raises exactly if the step is
        refused, a call raised, or the recorder could not be started. A recorder that was not
        there before is there because an arm command succeeded. */
    method ExecuteStep(step: Step) returns (raised: bool)
      requires Fleet() && (recording ==> recorder)
      modifies this`recorder, this`recording, this`recordersCreated, this`recorderErrors, vehicles
      ensures Fleet() && (recording ==> recorder)
      ensures Later(old(Logs()), Logs()) && NoShutdowns(old(Logs()), Logs())
      ensures StepFlown(old(Logs()), Logs(), step)
      ensures recorderErrors >= old(recorderErrors)
      ensures raised <==> Refused(step) || Escapes(old(Logs()), Logs()) || recorderErrors > old(recorderErrors)
      ensures step.action != Do(Arm) ==> recorder == old(recorder) && recording == old(recording)
      ensures step.action == Do(Arm) && !raised ==> recorder
      ensures old(recorder) ==> recorder && recording == old(recording)
      ensures recordersCreated == old(recordersCreated) + if recorder && !old(recorder) then 1 else 0
    {
      hide Escapes, Extended, TargetsOf, Occurrences, Grown, Vehicle.Valid, KnownNames;
      if step.action == Wait {
        NothingFlown();
        return step.malformed;
      }
      raised := Dispatch(step);
      if raised { return; }
      if step.action == Do(Arm) && !recorder {
        raised := StartRecording();
      }
    }

    /** Some step arms. */
    ghost predicate HasArm(steps: seq<Step>) {
      exists k | 0 <= k < |steps| :: steps[k].action == Do(Arm)
    }

    lemma HasArmNext(steps: seq<Step>, step: Step)
      ensures HasArm(steps + [step]) <==> HasArm(steps) || step.action == Do(Arm)
    {
      var all := steps + [step];
      if HasArm(steps) {
        var k :| 0 <= k < |steps| && steps[k].action == Do(Arm);
        assert all[k].action == Do(Arm);
      }
      if step.action == Do(Arm) {
        assert all[|steps|].action == Do(Arm);
      }
    }

    /** State of a round after some steps. */
    ghost predicate Underway(before: Journal, steps: seq<Step>, errors: nat, created: nat, raised: bool)
      reads this, vehicles
    {
      && recordersCreated == created + (if recorder then 1 else 0)
      && (recorder ==> HasArm(steps))
      && (!raised ==> (recorder <==> HasArm(steps)))
      && Fleet() && (recording ==> recorder)
      && Later(before, Logs()) && NoShutdowns(before, Logs()) && Flown(before, Logs(), steps)
      && recorderErrors >= errors
      && (raised <==> AnyRefused(steps) || Escapes(before, Logs()) || recorderErrors > errors)
    }

    /** One more step, after steps that did not raise. */
    method NextStep(ghost before: Journal, ghost steps: seq<Step>, step: Step, ghost errors: nat,
                    ghost created: nat) returns (raised: bool)
      requires Underway(before, steps, errors, created, false)
      modifies this`recorder, this`recording, this`recordersCreated, this`recorderErrors, vehicles
      ensures Underway(before, steps + [step], errors, created, raised) && Later(old(Logs()), Logs())
      ensures old(recorder) ==> recorder
    {
      hide Escapes, Flown, StepFlown, NoShutdowns, Later, Vehicle.Valid, Refused, AnyRefused, HasArm;
      HasArmNext(steps, step);
      ghost var mid := Logs();
      raised := ExecuteStep(step);
      EscapesInTwo(before, mid, Logs());
      OneMoreStep(before, mid, Logs(), steps, step);
    }

    lemma OneMoreStep(before: Journal, mid: Journal, now: Journal, steps: seq<Step>, step: Step)
      requires Flown(before, mid, steps) && NoShutdowns(before, mid)
      requires StepFlown(mid, now, step) && NoShutdowns(mid, now)
      ensures Flown(before, now, steps + [step]) && NoShutdowns(before, now)
      ensures AnyRefused(steps + [step]) <==> AnyRefused(steps) || Refused(step)
    {
      hide Extended, Grown, StepCalls, Refused;
      assert (steps + [step])[..|steps|] == steps;
      forall v: Vehicle | v in vehicles
        ensures Extended(before[v], now[v], TimelineCalls(steps + [step], v)) && Grown(before[v], now[v])
      {
        ExtendedTwice(before[v], mid[v], now[v], TimelineCalls(steps, v), StepCalls(step, v));
        GrownTwice(before[v], mid[v], now[v]);
      }
      RefusedNext(steps, step);
    }

    lemma RefusedNext(steps: seq<Step>, step: Step)
      ensures AnyRefused(steps + [step]) <==> AnyRefused(steps) || Refused(step)
    {
      hide Refused;
      var all := steps + [step];
      if AnyRefused(steps) {
        var k :| 0 <= k < |steps| && Refused(steps[k]);
        assert Refused(all[k]);
      }
      if Refused(step) {
        assert Refused(all[|steps|]);
      }
    }

    /** The steps in order, up to the first that raises: `ran` of them. */
    method FlySteps(timeline: seq<Step>) returns (raised: bool, ghost ran: nat)
      requires Fleet() && !recording && !recorder
      modifies this`recorder, this`recording, this`recordersCreated, this`recorderErrors, vehicles
      ensures ran <= |timeline| && (!raised ==> ran == |timeline|)
      ensures Underway(old(Logs()), timeline[..ran], old(recorderErrors), old(recordersCreated), raised)
      ensures raised && ran > 0 && HasArm(timeline[..ran - 1]) ==> recorder
      ensures raised ==> ran > 0 && OnlyLastRaised(old(Logs()), timeline[..ran], Logs())
    {
      hide Underway, Flown, Later, Escapes, AnyRefused, OnlyLastRaised, Vehicle.Valid, HasArm;
      ghost var before, errors, created := Logs(), recorderErrors, recordersCreated;
      raised, ran := false, 0;
      NotYet();
      assert timeline[..0] == [];
      var k := 0;
      while k < |timeline| && !raised
        invariant 0 <= k == ran <= |timeline|
        invariant Underway(before, timeline[..k], errors, created, raised)
        invariant raised && k > 0 && HasArm(timeline[..k - 1]) ==> recorder
        invariant raised ==> k > 0 && OnlyLastRaised(before, timeline[..k], Logs())
      {
        assert timeline[..k] + [timeline[k]] == timeline[..k + 1];
        ghost var mid := Logs();
        CleanSoFar(before, timeline[..k], errors, created);
        raised := NextStep(before, timeline[..k], timeline[k], errors, created);
        k, ran := k + 1, ran + 1;
        if raised {
          RaisedLast(before, mid, Logs(), timeline[..k - 1], timeline[k - 1]);
        }
      }
    }

    lemma NotYet()
      requires Fleet() && !recording && !recorder
      ensures Underway(Logs(), [], recorderErrors, recordersCreated, false)
    {
    }

    /** No step but the last was refused, and none of their calls raised. */
    ghost predicate OnlyLastRaised(before: Journal, steps: seq<Step>, now: Journal) {
      steps != [] && !AnyRefused(steps[..|steps| - 1]) && NoEscapeDuring(before, now, steps[..|steps| - 1])
    }

    ghost predicate NoEscapeDuring(before: Journal, now: Journal, steps: seq<Step>) {
      forall v, i | v in vehicles && v in before && v in now
                    && |before[v]| <= i < |before[v]| + |TimelineCalls(steps, v)| && i < |now[v]| ::
        now[v][i].raised ==> now[v][i].call.tolerated
    }

    lemma CleanSoFar(before: Journal, steps: seq<Step>, errors: nat, created: nat)
      requires Underway(before, steps, errors, created, false)
      ensures recorder <==> HasArm(steps)
      ensures Flown(before, Logs(), steps) && !AnyRefused(steps) && !Escapes(before, Logs())
      ensures Fleet()
    {
    }

    lemma RaisedLast(before: Journal, mid: Journal, now: Journal, steps: seq<Step>, step: Step)
      requires Flown(before, mid, steps) && !AnyRefused(steps) && !Escapes(before, mid) && Later(mid, now)
      ensures OnlyLastRaised(before, steps + [step], now)
    {
      hide AnyRefused, TimelineCalls;
      assert (steps + [step])[..|steps|] == steps;
      forall v: Vehicle, i: int | v in vehicles && v in before && v in now
                    && |before[v]| <= i < |before[v]| + |TimelineCalls(steps, v)| && i < |now[v]|
        ensures now[v][i].raised ==> now[v][i].call.tolerated
      {
        CallsLength(before[v]);
        CallsLength(mid[v]);
        assert now[v][i] == mid[v][i];
      }
    }

    // -------------------------------------------------------------- rounds

    /** Every real vehicle's most recent call clears its last injected fault. */
    ghost predicate RealsCleared()
      reads vehicles
    {
      forall v | v in vehicles && v.real_ ::
        |v.log| > 0 && ClearsAt(v.log, |v.log| - 1, v.defaultMode, v.hil)
    }

    method ClearRealFaults()
      requires Fleet()
      modifies vehicles
      ensures Fleet() && AllCalled(old(Logs()), Logs(), RealsAmong(vehicles), CLEARING)
    {
      hide Called;
      var targets := RealTargets();
      if targets == [] {
        NoneCalled(CLEARING);
        return;
      }
      var raised := ParallelCall(targets, CLEARING);
    }

    /** Calling `clear_fault` on the real vehicles clears each of them. */
    lemma CallsClear(before: Journal)
      requires Fleet() && AllCalled(before, Logs(), RealsAmong(vehicles), CLEARING)
      ensures RealsCleared()
    {
      var reals, now := RealsAmong(vehicles), Logs();
      forall v: Vehicle | v in vehicles && v.real_
        ensures |v.log| > 0 && ClearsAt(v.log, |v.log| - 1, v.defaultMode, v.hil)
      {
        assert v in reals && Occurrences(reals, v) > 0 && now[v] == v.log;
        LastCallClears(before[v], v.log, Occurrences(reals, v), v.defaultMode, v.hil);
      }
    }

    /** The clearing at the end of a round: nothing escapes from it. */
    method Finish(ghost before: Journal, ghost steps: seq<Step>)
      requires Fleet() && Later(before, Logs()) && NoShutdowns(before, Logs()) && Flown(before, Logs(), steps)
      modifies vehicles
      ensures Fleet() && RealsCleared() && Later(before, Logs()) && NoShutdowns(before, Logs())
      ensures FlownRounds(before, Logs(), [steps])
      ensures Escapes(before, Logs()) <==> old(Escapes(before, Logs()))
      ensures Later(old(Logs()), Logs()) && !Escapes(old(Logs()), Logs())
    {
      hide Escapes, Called, Flown, FlownRounds, NoShutdowns, Later, RealsCleared, AnyRaised, Vehicle.Valid;
      ghost var mid := Logs();
      ClearRealFaults();
      EscapesByCall(mid, Logs(), RealsAmong(vehicles), CLEARING);
      EscapesInTwo(before, mid, Logs());
      CallsClear(mid);
      RoundFlown(before, mid, Logs(), steps);
    }

    lemma RoundFlown(before: Journal, mid: Journal, now: Journal, steps: seq<Step>)
      requires Flown(before, mid, steps) && NoShutdowns(before, mid)
      requires AllCalled(mid, now, RealsAmong(vehicles), CLEARING)
      ensures FlownRounds(before, now, [steps]) && NoShutdowns(before, now)
    {
      hide Extended, Grown, Called, TimelineCalls, Repeat;
      var none: seq<seq<Step>> := [];
      assert [steps][..0] == none;
      CalledFlown(mid, now, RealsAmong(vehicles), CLEARING);
      forall v: Vehicle | v in vehicles
        ensures Extended(before[v], now[v], RoundCalls([steps], v)) && Grown(before[v], now[v])
      {
        ExtendedTwice(before[v], mid[v], now[v], TimelineCalls(steps, v), ClearCalls(v));
        GrownTwice(before[v], mid[v], now[v]);
        assert RoundCalls(none, v) == [];
        assert RoundCalls([steps], v) == TimelineCalls(steps, v) + ClearCalls(v);
      }
    }

    /** One round: the steps in order up to the first that raises, `ran` of them, then the
        clearing. It raises exactly if a step was refused, a call of a step raised, or the recorder
        could not be started. If recording is enabled it adds exactly one workbook if a recorder was
        created, which is the case after every arm step that did not raise and never without one.
        However it ends, no recorder is left, and every real vehicle's last call is a clearing of the
        mode injected most recently. */
    method RunOneTimeline(timeline: seq<Step>) returns (raised: bool, ghost ran: nat)
      requires Fleet() && !recording
      modifies this`recorder, this`recording, this`recordersCreated, this`recorderErrors, this`dataLogs, vehicles
      ensures Fleet() && !recorder && !recording
      ensures RealsCleared() && Later(old(Logs()), Logs()) && NoShutdowns(old(Logs()), Logs())
      ensures ran <= |timeline| && (!raised ==> ran == |timeline|)
      ensures recordersCreated == old(recordersCreated) || recordersCreated == old(recordersCreated) + 1
      ensures dataLogs == old(dataLogs)
                          + if recordingEnabled then recordersCreated - old(recordersCreated) else 0
      ensures recordersCreated > old(recordersCreated) ==> HasArm(timeline[..ran])
      ensures !raised ==> (recordersCreated > old(recordersCreated) <==> HasArm(timeline))
      ensures ran > 0 && HasArm(timeline[..ran - 1]) ==> recordersCreated > old(recordersCreated)
      ensures FlownRounds(old(Logs()), Logs(), [timeline[..ran]])
      ensures recorderErrors >= old(recorderErrors)
      ensures raised <==> AnyRefused(timeline[..ran]) || Escapes(old(Logs()), Logs())
                          || recorderErrors > old(recorderErrors)
      ensures raised ==> ran > 0 && OnlyLastRaised(old(Logs()), timeline[..ran], Logs())
    {
      hide Escapes, Later, Flown, FlownRounds, NoShutdowns, RealsCleared, AnyRefused, OnlyLastRaised, Fleet, HasArm;
      ghost var before := Logs();
      recorder := false;
      raised, ran := FlySteps(timeline);
      ghost var mid := Logs();
      assert ran == |timeline| ==> timeline[..ran] == timeline;
      if ran > 0 {
        assert timeline[..ran - 1] + [timeline[ran - 1]] == timeline[..ran];
        HasArmNext(timeline[..ran - 1], timeline[ran - 1]);
      }
      StopRecording();
      Finish(before, timeline[..ran]);
      if raised {
        StillOnlyLast(before, mid, Logs(), timeline[..ran]);
      }
    }

    lemma StillOnlyLast(before: Journal, mid: Journal, now: Journal, steps: seq<Step>)
      requires OnlyLastRaised(before, steps, mid) && Flown(before, mid, steps)
      requires Later(before, now) && !Escapes(mid, now) && Later(mid, now)
      ensures OnlyLastRaised(before, steps, now)
    {
      hide AnyRefused, TimelineCalls;
      forall v: Vehicle, i: int | v in vehicles && v in before && v in now
                    && |before[v]| <= i < |before[v]| + |TimelineCalls(steps[..|steps| - 1], v)| && i < |now[v]|
        ensures now[v][i].raised ==> now[v][i].call.tolerated
      {
        if i < |mid[v]| {
          assert now[v][i] == mid[v][i];
        }
      }
    }

    /** Before the final shutdown: none yet, and real vehicles are settled. */
    ghost predicate Flying()
      reads vehicles
    {
      forall v | v in vehicles ::
        Shutdowns(v.log) == 0 && (v.real_ ==> Settled(v.log, v.defaultMode, v.hil))
    }

    /** At the end: the last call is the only shutdown, and real vehicles are settled. */
    ghost predicate Landed()
      reads vehicles
    {
      forall v | v in vehicles ::
        && Shutdowns(v.log) == 1 && |v.log| > 0 && v.log[|v.log| - 1].call.method_ == Shutdown
        && (v.real_ ==> Settled(v.log, v.defaultMode, v.hil))
    }

    /** Vehicles are still flying after a round. */
    lemma RoundKeepsFlying(before: Journal)
      requires NoShutdowns(before, Logs()) && RealsCleared()
      requires forall v | v in vehicles :: v in before && Shutdowns(before[v]) == 0
      ensures Flying()
    {
      var now := Logs();
      forall v | v in vehicles
        ensures Shutdowns(v.log) == 0 && (v.real_ ==> Settled(v.log, v.defaultMode, v.hil))
      {
        assert now[v] == v.log;
        GrownNoShutdowns(before[v], v.log);
      }
    }

    /** The initial calls, then `flown`: complete timelines except perhaps the last, of which the
        steps up to the first that raised. */
    ghost predicate Progress(timelines: seq<seq<Step>>, flown: seq<seq<Step>>) {
      && |flown| <= |timelines|
      && (forall k | 0 <= k < |flown| :: flown[k] <= timelines[k])
      && (forall k | 0 <= k < |flown| - 1 :: flown[k] == timelines[k])
    }

    ghost predicate AnyRoundRefused(flown: seq<seq<Step>>) {
      exists k | 0 <= k < |flown| :: AnyRefused(flown[k])
    }

    /** How many rounds arm. */
    ghost function ArmedRounds(rounds: seq<seq<Step>>): nat {
      if rounds == [] then 0
      else ArmedRounds(rounds[..|rounds| - 1]) + if HasArm(rounds[|rounds| - 1]) then 1 else 0
    }

    lemma ArmedNext(rounds: seq<seq<Step>>, steps: seq<Step>)
      ensures ArmedRounds(rounds + [steps]) == ArmedRounds(rounds) + if HasArm(steps) then 1 else 0
    {
      assert (rounds + [steps])[..|rounds|] == rounds;
    }

    /** State of a collection after some rounds since `before`. */
    ghost predicate Collecting(before: Journal, flown: seq<seq<Step>>, errors: nat, created: nat, logs: nat,
                               raised: bool)
      reads this, vehicles
    {
      && created <= recordersCreated <= created + ArmedRounds(flown)
      && dataLogs == logs + (if recordingEnabled then recordersCreated - created else 0)
      && (!raised ==> recordersCreated == created + ArmedRounds(flown))
      && (flown != [] ==> created + ArmedRounds(flown[..|flown| - 1]) <= recordersCreated)
      && Fleet() && !recording && Flying()
      && Later(before, Logs()) && FlownRounds(before, Logs(), flown)
      && recorderErrors >= errors
      && (raised <==> AnyRoundRefused(flown) || Escapes(before, Logs()) || recorderErrors > errors)
    }

    method RunRound(ghost before: Journal, ghost flown: seq<seq<Step>>, timeline: seq<Step>, ghost errors: nat,
                    ghost created: nat, ghost logs: nat) returns (raised: bool, ghost ran: nat)
      requires Collecting(before, flown, errors, created, logs, false)
      modifies this`recorder, this`recording, this`recordersCreated, this`recorderErrors, this`dataLogs, vehicles
      ensures ran <= |timeline| && (!raised ==> ran == |timeline|)
      ensures Collecting(before, flown + [timeline[..ran]], errors, created, logs, raised)
      ensures !recorder
    {
      hide Escapes, Later, FlownRounds, NoShutdowns, RealsCleared, AnyRefused, OnlyLastRaised, Vehicle.Valid,
        Settled, Shutdowns, AnyRoundRefused, HasArm, ArmedRounds;
      ghost var mid := Logs();
      NoneShut();
      raised, ran := RunOneTimeline(timeline);
      ArmedNext(flown, timeline[..ran]);
      assert (flown + [timeline[..ran]])[..|flown|] == flown;
      assert ran == |timeline| ==> timeline[..ran] == timeline;
      RoundKeepsFlying(mid);
      EscapesInTwo(before, mid, Logs());
      OneMoreRound(before, mid, Logs(), flown, timeline[..ran]);
    }

    lemma NoneShut()
      requires Flying()
      ensures forall v | v in vehicles :: v in Logs() && Shutdowns(Logs()[v]) == 0
    {
    }

    lemma OneMoreRound(before: Journal, mid: Journal, now: Journal, flown: seq<seq<Step>>, steps: seq<Step>)
      requires FlownRounds(before, mid, flown) && FlownRounds(mid, now, [steps])
      ensures FlownRounds(before, now, flown + [steps])
      ensures AnyRoundRefused(flown + [steps]) <==> AnyRoundRefused(flown) || AnyRefused(steps)
    {
      hide Extended, TimelineCalls, ClearCalls, AnyRefused;
      var all, none: seq<seq<Step>> := flown + [steps], [];
      assert all[..|flown|] == flown && [steps][..0] == none;
      forall v: Vehicle | v in vehicles ensures Extended(before[v], now[v], RoundCalls(all, v)) {
        assert RoundCalls(none, v) == [];
        assert RoundCalls([steps], v) == TimelineCalls(steps, v) + ClearCalls(v);
        ExtendedTwice(before[v], mid[v], now[v], RoundCalls(flown, v), RoundCalls([steps], v));
      }
      if AnyRoundRefused(flown) {
        var k :| 0 <= k < |flown| && AnyRefused(flown[k]);
        assert AnyRefused(all[k]);
      }
      if AnyRefused(steps) {
        assert AnyRefused(all[|flown|]);
      }
    }

    method InitializeVehicles() returns (raised: bool)
      requires Fleet() && !recording && forall v | v in vehicles :: v.log == []
      modifies vehicles
      ensures Fleet() && Flying()
      ensures AllCalled(old(Logs()), Logs(), vehicles, STARTING) && Later(old(Logs()), Logs())
      ensures raised <==> Escapes(old(Logs()), Logs())
    {
      ghost var before := Logs();
      raised := ParallelCall(vehicles, STARTING);
      EscapesByCall(before, Logs(), vehicles, STARTING);
      ghost var now := Logs();
      forall v | v in vehicles
        ensures Shutdowns(v.log) == 0 && Settled(v.log, v.defaultMode, v.hil)
      {
        assert now[v] == v.log && before[v] == [];
        ShutdownsAfter(before[v], v.log, STARTING, Occurrences(vehicles, v));
      }
    }

    ghost predicate Distinct() {
      forall i, j | 0 <= i < j < |vehicles| :: vehicles[i] != vehicles[j]
    }

    method ShutdownVehicles()
      requires Fleet() && Flying() && Distinct()
      modifies vehicles
      ensures Fleet() && Landed()
      ensures AllCalled(old(Logs()), Logs(), vehicles, STOPPING)
    {
      ghost var before := Logs();
      var raised := ParallelCall(vehicles, STOPPING);
      ghost var now := Logs();
      forall v | v in vehicles
        ensures Shutdowns(v.log) == 1 && |v.log| > 0 && v.log[|v.log| - 1].call.method_ == Shutdown
        ensures v.real_ ==> Settled(v.log, v.defaultMode, v.hil)
      {
        assert now[v] == v.log;
        OnceEach(vehicles, v);
        ShutdownsAfter(before[v], v.log, STOPPING, 1);
        if v.real_ {
          SettledStays(before[v], v.log, STOPPING, 1, v.defaultMode, v.hil);
        }
      }
    }

    /** All calls of a collection on one vehicle. */
    ghost function CollectionCalls(flown: seq<seq<Step>>, v: Vehicle): seq<Call> {
      ([Call(Initialize, Args(None, 0, []), false)] + RoundCalls(flown, v)) + [Call(Shutdown, Args(None, 0, []), true)]
    }

    lemma {:induction false} StepsAreStrict(steps: seq<Step>, v: Vehicle)
      ensures forall c | c in TimelineCalls(steps, v) :: !c.tolerated && c.method_ != Shutdown
      decreases |steps|
    {
      if steps != [] {
        var step := steps[|steps| - 1];
        StepsAreStrict(steps[..|steps| - 1], v);
        if step.action != Wait && !Refused(step) {
          RepeatIs(Call(step.action.method_, step.args, false), Occurrences(TargetsOf(step), v));
        }
      }
    }

    lemma {:induction false} RoundsAreStrict(rounds: seq<seq<Step>>, v: Vehicle)
      ensures forall c | c in RoundCalls(rounds, v) ::
                c.method_ != Shutdown && (c.tolerated ==> c == Call(ClearFault, Args(None, 0, []), true))
      decreases |rounds|
    {
      if rounds != [] {
        RoundsAreStrict(rounds[..|rounds| - 1], v);
        StepsAreStrict(rounds[|rounds| - 1], v);
        RepeatIs(Call(ClearFault, Args(None, 0, []), true), Occurrences(RealsAmong(vehicles), v));
      }
    }

    /** Of all the calls of a collection only the clearing after a round and the one shutdown are
        allowed to fail unnoticed. */
    lemma OnlyCleanupTolerated(flown: seq<seq<Step>>, v: Vehicle)
      ensures forall c | c in CollectionCalls(flown, v) && c.tolerated ::
                c == Call(ClearFault, Args(None, 0, []), true) || c == Call(Shutdown, Args(None, 0, []), true)
      ensures forall k | 0 <= k < |CollectionCalls(flown, v)| - 1 :: CollectionCalls(flown, v)[k].method_ != Shutdown
    {
      hide RoundCalls;
      RoundsAreStrict(flown, v);
      var calls := CollectionCalls(flown, v);
      assert forall k | 0 < k < |calls| - 1 :: calls[k] == RoundCalls(flown, v)[k - 1];
    }

    /** A whole collection. Unless it fails before any vehicle is touched, the calls of every
        vehicle are its initialising, those of the timelines `flown`, each followed by the clearing,
        and one shutdown; the timelines are flown in order, all of them if nothing raises. An error
        escapes exactly if some step was refused, a call whose errors are not tolerated raised, or
        a recorder could not be started. With recording enabled there is one workbook for every round
        in which a recorder was created: of the complete rounds those that arm, of the last one at
        most one. Real vehicles have had their last injected fault cleared; no recorder is left
        running. */
    method Run(timelines: seq<seq<Step>>, toolchainStarts: bool)
      returns (raised: bool, ghost flown: seq<seq<Step>>)
      requires Fleet() && Distinct() && !recording
      requires forall v | v in vehicles :: v.log == []
      modifies this`recorder, this`recording, this`recordersCreated, this`recorderErrors, this`dataLogs, vehicles
      ensures Fleet() && !recording
      ensures toolchainStarts && vehicles != [] ==> Landed() && Progress(timelines, flown)
      ensures toolchainStarts && vehicles != [] ==>
                forall v | v in vehicles :: Calls(v.log) == CollectionCalls(flown, v)
      ensures toolchainStarts && vehicles != [] ==>
                (raised <==> AnyRoundRefused(flown) || Escapes(old(Logs()), Logs())
                             || recorderErrors > old(recorderErrors))
      ensures toolchainStarts && vehicles != [] && !raised ==> flown == timelines
      ensures dataLogs == old(dataLogs)
                          + if recordingEnabled then recordersCreated - old(recordersCreated) else 0
      ensures old(recordersCreated) <= recordersCreated <= old(recordersCreated) + ArmedRounds(flown)
      ensures flown != [] ==> old(recordersCreated) + ArmedRounds(flown[..|flown| - 1]) <= recordersCreated
      ensures toolchainStarts && vehicles != [] && !raised ==>
                recordersCreated == old(recordersCreated) + ArmedRounds(timelines)
      ensures !toolchainStarts || vehicles == [] ==>
                raised && forall v | v in vehicles :: v.log == []
    {
      hide Escapes, Later, Flown, FlownRounds, AllCalled, Vehicle.Valid, Settled, Shutdowns, AnyRoundRefused,
        Collecting, Flying, Landed, Calls, CollectionCalls, ArmedRounds, HasArm;
      flown := [];
      NoRounds();
      if vehicles == [] || !toolchainStarts { return true, []; }
      ghost var none := Logs();
      raised := InitializeVehicles();
      ghost var ready, errors, created, logs := Logs(), recorderErrors, recordersCreated, dataLogs;
      StartCollecting();
      ghost var late := raised;
      var k := 0;
      while k < |timelines| && !raised
        invariant 0 <= k <= |timelines| && !recording
        invariant Collecting(ready, flown, errors, created, logs, raised && !late)
        invariant late ==> raised && k == 0
        invariant |flown| == k && Progress(timelines, flown) && (!raised ==> flown == timelines[..k])
      {
        ghost var ran, mid := 0, flown;
        raised, ran := RunRound(ready, flown, timelines[k], errors, created, logs);
        flown := flown + [timelines[k][..ran]];
        k := k + 1;
        ProgressOn(timelines, mid, ran, raised);
        StillQuiet(ready, flown, errors, created, logs, raised);
      }
      StillQuiet(ready, flown, errors, created, logs, raised && !late);
      ghost var last := Logs();
      ShutdownVehicles();
      WholeCollection(none, ready, last, Logs(), flown);
      assert timelines[..|timelines|] == timelines;
    }

    lemma NoRounds()
      ensures ArmedRounds([]) == 0
    {
    }

    lemma StartCollecting()
      requires Fleet() && Flying() && !recording
      ensures Collecting(Logs(), [], recorderErrors, recordersCreated, dataLogs, false)
    {
      var now := Logs();
      var none: seq<seq<Step>> := [];
      forall v | v in vehicles ensures Extended(now[v], now[v], RoundCalls(none, v)) {
      }
    }

    lemma StillQuiet(before: Journal, flown: seq<seq<Step>>, errors: nat, created: nat, logs: nat, raised: bool)
      requires Collecting(before, flown, errors, created, logs, raised)
      ensures created <= recordersCreated <= created + ArmedRounds(flown)
      ensures dataLogs == logs + if recordingEnabled then recordersCreated - created else 0
      ensures !raised ==> recordersCreated == created + ArmedRounds(flown)
      ensures flown != [] ==> created + ArmedRounds(flown[..|flown| - 1]) <= recordersCreated
      ensures Fleet() && Flying() && !recording && Later(before, Logs()) && FlownRounds(before, Logs(), flown)
      ensures recorderErrors >= errors
      ensures raised <==> AnyRoundRefused(flown) || Escapes(before, Logs()) || recorderErrors > errors
    {
    }

    lemma ProgressOn(timelines: seq<seq<Step>>, flown: seq<seq<Step>>, ran: nat, raised: bool)
      requires |flown| < |timelines| && flown == timelines[..|flown|] && ran <= |timelines[|flown|]|
      requires !raised ==> ran == |timelines[|flown|]|
      ensures var next := flown + [timelines[|flown|][..ran]];
              Progress(timelines, next) && (!raised ==> next == timelines[..|flown| + 1])
    {
      var timeline := timelines[|flown|];
      assert ran == |timeline| ==> timeline[..ran] == timeline;
    }

    /** Initialising, rounds and shutdown, put together. */
    lemma WholeCollection(none: Journal, ready: Journal, last: Journal, now: Journal, flown: seq<seq<Step>>)
      requires Distinct() && forall v | v in vehicles :: v in none && none[v] == []
      requires AllCalled(none, ready, vehicles, STARTING) && Later(ready, last)
      requires FlownRounds(ready, last, flown) && AllCalled(last, now, vehicles, STOPPING)
      ensures forall v | v in vehicles :: v in now && Calls(now[v]) == CollectionCalls(flown, v)
      ensures Escapes(none, now) <==> Escapes(none, ready) || Escapes(ready, last)
    {
      hide Escapes, RoundCalls;
      EscapesByCall(none, ready, vehicles, STARTING);
      EscapesByCall(last, now, vehicles, STOPPING);
      EscapesInTwo(none, ready, last);
      EscapesInTwo(none, last, now);
      forall v: Vehicle | v in vehicles ensures Calls(now[v]) == CollectionCalls(flown, v) {
        OnceEach(vehicles, v);
        CallOnce(none[v], ready[v], STARTING);
        CallOnce(last[v], now[v], STOPPING);
        assert Calls(none[v]) + [STARTING] == [STARTING];
      }
    }
  }

  lemma CallOnce(before: seq<Entry>, after: seq<Entry>, c: Call)
    requires Called(before, after, c, 1)
    ensures Calls(after) == Calls(before) + [c]
  {
    assert after[..|after| - 1] == before;
  }

  lemma {:induction false} OnceEach<T>(s: seq<T>, x: T)
    requires x in s && forall i, j | 0 <= i < j < |s| :: s[i] != s[j]
    ensures Occurrences(s, x) == 1
    decreases |s|
  {
    var n := |s| - 1;
    var front, last := s[..n], s[n];
    assert s == front + [last];
    if x in front {
      OnceEach(front, x);
    } else {
      assert x !in multiset(front);
    }
  }
}
