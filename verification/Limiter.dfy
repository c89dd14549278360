/** The per-call CPU clock and the watchdog that polls it. */
module Limiter {
  // Instants and durations are whole nanoseconds on one non-decreasing clock. The clock's
  // methods run under one mutex, so each is one atomic step; the watchdog's reading of the
  // clock and its marking of the limiter are two separate steps.

  type Instant = int

  datatype Event = Start | Pause | Resume | Stop

  /** The fields the mutex guards, and how often `done` has been closed. */
  datatype Clock = Clock(budget: nat, running: bool, runStart: Instant, elapsed: int, stopped: bool, closes: nat)

  function NewClock(budget: nat): Clock {
    Clock(budget, false, 0, 0, false, 0)
  }

  function Banked(c: Clock, now: Instant): int {
    if c.running then c.elapsed + (now - c.runStart) else c.elapsed
  }

  /** One call, made at `now`. */
  function Apply(c: Clock, e: Event, now: Instant): Clock {
    if c.budget == 0 then c else
      match e
      case Start => c.(running := true, runStart := now)
      case Pause => c.(elapsed := Banked(c, now), running := false)
      case Resume => if c.stopped || c.running then c else c.(running := true, runStart := now)
      case Stop =>
        if c.stopped then c
        else c.(stopped := true, elapsed := Banked(c, now), running := false, closes := c.closes + 1)
  }

  function Used(c: Clock, now: Instant): int {
    if c.budget == 0 then 0 else Banked(c, now)
  }

  // ---------------------------------------------------------------- what the clock should mean

  datatype Stamp = Stamp(e: Event, at: Instant)

  /** A call trace: Start first and once, times never decreasing. */
  ghost predicate WellTimed(trace: seq<Stamp>) {
    trace != [] && trace[0].e == Start &&
    (forall i :: 0 < i < |trace| ==> trace[i].e != Start) &&
    forall i, j :: 0 <= i < j < |trace| ==> trace[i].at <= trace[j].at
  }

  /** Not stopped, and the last call was not Pause. */
  ghost predicate Live(trace: seq<Stamp>) {
    trace != [] && (forall i :: 0 <= i < |trace| ==> trace[i].e != Stop) && trace[|trace| - 1].e != Pause
  }

  /** Whether the clock should be counting during the nanosecond after `x`:
      decided by the calls made up to and including `x`. */
  ghost predicate CountingAt(trace: seq<Stamp>, x: Instant)
    decreases |trace|
  {
    trace != [] &&
    if trace[|trace| - 1].at <= x then Live(trace) else CountingAt(trace[..|trace| - 1], x)
  }

  /** The number of nanoseconds before `now` during which the clock should be counting. */
  ghost function ActiveTime(trace: seq<Stamp>, now: Instant): (t: nat)
    requires trace != []
    decreases now - trace[0].at
  {
    if now <= trace[0].at then 0
    else ActiveTime(trace, now - 1) + if CountingAt(trace, now - 1) then 1 else 0
  }

  /** A later call does not change what was counted before it. */
  lemma {:induction false} PastIsFixed(trace: seq<Stamp>, s: Stamp, now: Instant)
    requires WellTimed(trace) && now <= s.at
    ensures ActiveTime(trace + [s], now) == ActiveTime(trace, now)
    decreases now - trace[0].at
  {
    if now > trace[0].at {
      PastIsFixed(trace, s, now - 1);
      assert (trace + [s])[..|trace|] == trace;
    }
  }

  /** Between the last call and `now` the clock counts everything or nothing. */
  lemma {:induction false} SinceLastCall(trace: seq<Stamp>, now: Instant)
    requires WellTimed(trace) && trace[|trace| - 1].at <= now
    ensures var last := trace[|trace| - 1].at;
            ActiveTime(trace, now) == ActiveTime(trace, last) + if Live(trace) then now - last else 0
    decreases now - trace[0].at
  {
    if trace[|trace| - 1].at < now {
      SinceLastCall(trace, now - 1);
    }
  }

  lemma {:induction false} ActiveTimeMonotone(trace: seq<Stamp>, a: Instant, b: Instant)
    requires WellTimed(trace) && a <= b
    ensures ActiveTime(trace, a) <= ActiveTime(trace, b) <= ActiveTime(trace, a) + (b - a)
    decreases b - a
  {
    if a < b {
      ActiveTimeMonotone(trace, a, b - 1);
    }
  }

  ghost function Replay(budget: nat, trace: seq<Stamp>): Clock
    decreases |trace|
  {
    if trace == [] then NewClock(budget)
    else Apply(Replay(budget, trace[..|trace| - 1]), trace[|trace| - 1].e, trace[|trace| - 1].at)
  }

  /** The clock's fields agree with the calls made so far. */
  ghost predicate Tracks(c: Clock, trace: seq<Stamp>) {
    WellTimed(trace) && c.budget > 0 &&
    (c.running <==> Live(trace)) &&
    (c.stopped <==> exists i :: 0 <= i < |trace| && trace[i].e == Stop) &&
    c.closes == (if c.stopped then 1 else 0) &&
    Banked(c, trace[|trace| - 1].at) == ActiveTime(trace, trace[|trace| - 1].at)
  }

  lemma ApplyTracks(c: Clock, trace: seq<Stamp>, s: Stamp)
    requires Tracks(c, trace) && s.e != Start && trace[|trace| - 1].at <= s.at
    ensures Tracks(Apply(c, s.e, s.at), trace + [s])
  {
    var longer, c' := trace + [s], Apply(c, s.e, s.at);
    PastIsFixed(trace, s, s.at);
    SinceLastCall(trace, s.at);
    assert forall i :: 0 <= i < |trace| ==> longer[i] == trace[i];
    assert longer[|trace|] == s;
    if exists i :: 0 <= i < |trace| && trace[i].e == Stop {
      var i :| 0 <= i < |trace| && trace[i].e == Stop;
      assert longer[i].e == Stop;
    }
  }

  lemma {:induction false} ReplayTracks(budget: nat, trace: seq<Stamp>)
    requires WellTimed(trace) && budget > 0
    ensures Tracks(Replay(budget, trace), trace)
    decreases |trace|
  {
    var n := |trace| - 1;
    if n > 0 {
      ReplayTracks(budget, trace[..n]);
      ApplyTracks(Replay(budget, trace[..n]), trace[..n], trace[n]);
      assert trace[..n] + [trace[n]] == trace;
    } else {
      assert trace[..n] == [];
    }
  }

  /** For every trace, the reading is exactly the time the clock should have counted. */
  lemma UsedIsActiveTime(budget: nat, trace: seq<Stamp>, now: Instant)
    requires WellTimed(trace) && budget > 0 && trace[|trace| - 1].at <= now
    ensures Used(Replay(budget, trace), now) == ActiveTime(trace, now)
    ensures Replay(budget, trace).closes <= 1
  {
    ReplayTracks(budget, trace);
    SinceLastCall(trace, now);
  }

  /** Without a budget the clock is inert: it counts nothing and closes nothing. */
  lemma {:induction false} NoBudgetIsInert(trace: seq<Stamp>, now: Instant)
    ensures Replay(0, trace) == NewClock(0) && Used(Replay(0, trace), now) == 0 && Replay(0, trace).closes == 0
    decreases |trace|
  {
    if trace != [] { NoBudgetIsInert(trace[..|trace| - 1], now); }
  }

  /** After the first Stop nothing moves the reading any more. */
  lemma {:induction false} FrozenAfterStop(budget: nat, trace: seq<Stamp>, more: seq<Stamp>, now: Instant)
    requires WellTimed(trace + more) && budget > 0 && trace != [] && trace[|trace| - 1].e == Stop
    requires (trace + more)[|trace + more| - 1].at <= now
    ensures Used(Replay(budget, trace + more), now) == ActiveTime(trace, trace[|trace| - 1].at)
    decreases |more|
  {
    var whole := trace + more;
    UsedIsActiveTime(budget, whole, now);
    assert whole[|trace| - 1].e == Stop;
    SinceLastCall(whole, now);
    if more == [] {
      assert whole == trace;
    } else {
      var most := more[..|more| - 1];
      var s := more[|more| - 1];
      assert whole == trace + most + [s];
      var shorter := trace + most;
      assert forall i :: 0 <= i < |shorter| ==> shorter[i] == whole[i];
      FrozenAfterStop(budget, trace, most, s.at);
      UsedIsActiveTime(budget, shorter, s.at);
      PastIsFixed(shorter, s, s.at);
    }
  }

  // ---------------------------------------------------------------- the limiter object

  class CpuLimiter {
    const budget: nat
    var running: bool
    var runStart: Instant
    var elapsed: int
    var stopped: bool
    var tripped: bool
    ghost var closes: nat

    ghost function Value(): Clock
      reads this
    {
      Clock(budget, running, runStart, elapsed, stopped, closes)
    }

    constructor (budget: nat)
      ensures Value() == NewClock(budget) && !tripped
    {
      this.budget, running, runStart, elapsed, stopped, tripped, closes := budget, false, 0, 0, false, false, 0;
    }

    method Start(now: Instant)
      modifies this
      ensures Value() == Apply(old(Value()), Event.Start, now) && tripped == old(tripped)
    {
      if budget == 0 {
        return;
      }
      running := true;
      runStart := now;
    }

    method Stop(now: Instant) returns (used: int)
      modifies this
      ensures Value() == Apply(old(Value()), Event.Stop, now) && tripped == old(tripped)
      ensures used == if budget == 0 then 0 else elapsed
    {
      if budget == 0 {
        return 0;
      }
      if stopped {
        return elapsed;
      }
      stopped := true;
      if running {
        elapsed := elapsed + (now - runStart);
        running := false;
      }
      closes := closes + 1;
      return elapsed;
    }

    method Pause(now: Instant)
      modifies this
      ensures Value() == Apply(old(Value()), Event.Pause, now) && tripped == old(tripped)
    {
      if budget == 0 {
        return;
      }
      if running {
        elapsed := elapsed + (now - runStart);
        running := false;
      }
    }

    method Resume(now: Instant)
      modifies this
      ensures Value() == Apply(old(Value()), Event.Resume, now) && tripped == old(tripped)
    {
      if budget == 0 {
        return;
      }
      if !stopped && !running {
        running := true;
        runStart := now;
      }
    }

    method ReadUsed(now: Instant) returns (used: int)
      ensures used == Used(Value(), now)
    {
      if budget == 0 {
        return 0;
      }
      used := elapsed;
      if running {
        used := used + (now - runStart);
      }
    }

    method Tripped() returns (t: bool)
      ensures t <==> budget != 0 && tripped
    {
      if budget == 0 {
        return false;
      }
      return tripped;
    }

    /** The watchdog's reading of the clock at one tick. */
    method OverBudget(now: Instant) returns (over: bool)
      ensures over <==> Used(Value(), now) >= budget
    {
      var used := ReadUsed(now);
      return used >= budget;
    }

    method MarkTripped()
      modifies this
      ensures Value() == old(Value()) && tripped
    {
      tripped := true;
    }
  }

  // ---------------------------------------------------------------- the watchdog beside it

  datatype Watchdog = Polling | Marking | Gone

  /** `trace`, `checkedAt` and `checkedUse` are history: the calls so far, and the
      instant and reading of the last check that did not trip (or of Start). */
  datatype System = System(clock: Clock, now: Instant, dog: Watchdog, tripped: bool,
                           trace: seq<Stamp>, checkedAt: Instant, checkedUse: int)

  datatype Action =
    | Call(e: Event, at: Instant)
    | Check(at: Instant)
    | Mark(at: Instant)
    | Leave(at: Instant)

  function Armed(budget: nat, at: Instant): System {
    System(Apply(NewClock(budget), Start, at), at, Polling, false, [Stamp(Start, at)], at, 0)
  }

  predicate Enabled(s: System, a: Action) {
    s.now <= a.at &&
    match a
    case Call(e, _) => e != Start
    case Check(_) => s.dog.Polling?
    case Mark(_) => s.dog.Marking?
    case Leave(_) => s.dog.Polling? && s.clock.closes > 0
  }

  /** One atomic step. A tick and a closed `done` may both be ready; either may win. */
  function Step(s: System, a: Action): System
    requires Enabled(s, a)
  {
    match a
    case Call(e, at) => s.(clock := Apply(s.clock, e, at), now := at, trace := s.trace + [Stamp(e, at)])
    case Check(at) =>
      if Used(s.clock, at) >= s.clock.budget then s.(now := at, dog := Marking)
      else s.(now := at, checkedAt := at, checkedUse := Used(s.clock, at))
    case Mark(at) => s.(now := at, tripped := true, dog := Gone)
    case Leave(at) => s.(now := at, dog := Gone)
  }

  ghost predicate Inv(s: System) {
    Tracks(s.clock, s.trace) && s.trace[|s.trace| - 1].at <= s.now &&
    s.checkedUse < s.clock.budget &&
    ActiveTime(s.trace, s.now) - s.checkedUse <= s.now - s.checkedAt &&
    (s.dog.Marking? || s.tripped ==> ActiveTime(s.trace, s.now) >= s.clock.budget)
  }

  lemma ReadingIsActiveTime(s: System, at: Instant)
    requires Inv(s) && s.now <= at
    ensures Used(s.clock, at) == ActiveTime(s.trace, at)
    ensures ActiveTime(s.trace, s.now) <= ActiveTime(s.trace, at) <= ActiveTime(s.trace, s.now) + (at - s.now)
  {
    SinceLastCall(s.trace, at);
    ActiveTimeMonotone(s.trace, s.now, at);
  }

  lemma StepKeepsInv(s: System, a: Action)
    requires Inv(s) && Enabled(s, a)
    ensures Inv(Step(s, a))
  {
    ReadingIsActiveTime(s, a.at);
    if a.Call? {
      ApplyTracks(s.clock, s.trace, Stamp(a.e, a.at));
      PastIsFixed(s.trace, Stamp(a.e, a.at), a.at);
    }
  }

  ghost predicate Runs(s: System, acts: seq<Action>)
    decreases |acts|
  {
    acts == [] || (Enabled(s, acts[0]) && Runs(Step(s, acts[0]), acts[1..]))
  }

  ghost function Run(s: System, acts: seq<Action>): System
    requires Runs(s, acts)
    decreases |acts|
  {
    if acts == [] then s else Run(Step(s, acts[0]), acts[1..])
  }

  lemma ArmedInv(budget: nat, at: Instant)
    requires budget > 0
    ensures Inv(Armed(budget, at))
  {
    ReplayTracks(budget, [Stamp(Start, at)]);
    assert [Stamp(Start, at)][..0] == [];
  }

  lemma {:induction false} RunKeepsInv(s: System, acts: seq<Action>)
    requires Inv(s) && Runs(s, acts)
    ensures Inv(Run(s, acts)) && s.now <= Run(s, acts).now
    ensures s.tripped ==> Run(s, acts).tripped
    ensures Run(s, acts).clock.budget == s.clock.budget
    decreases |acts|
  {
    if acts != [] {
      StepKeepsInv(s, acts[0]);
      RunKeepsInv(Step(s, acts[0]), acts[1..]);
    }
  }

  /** Tripped means over budget: at once, at every later instant, and whatever is called afterwards. */
  lemma TrippedMeansOverBudget(budget: nat, start: Instant, acts: seq<Action>, more: seq<Action>, now: Instant)
    requires budget > 0 && Runs(Armed(budget, start), acts) && Runs(Run(Armed(budget, start), acts), more)
    requires Run(Armed(budget, start), acts).tripped
    requires Run(Run(Armed(budget, start), acts), more).now <= now
    ensures Used(Run(Run(Armed(budget, start), acts), more).clock, now) >= budget
  {
    ArmedInv(budget, start);
    RunKeepsInv(Armed(budget, start), acts);
    RunKeepsInv(Run(Armed(budget, start), acts), more);
    ReadingIsActiveTime(Run(Run(Armed(budget, start), acts), more), now);
  }

  /** The overshoot: the check that trips reads less than the budget plus the time since
      the previous check (or since Start). */
  lemma OvershootBound(budget: nat, start: Instant, acts: seq<Action>, at: Instant)
    requires budget > 0 && Runs(Armed(budget, start), acts) && Enabled(Run(Armed(budget, start), acts), Check(at))
    ensures var s := Run(Armed(budget, start), acts);
            s.trace != [] && Used(s.clock, at) < budget + (at - s.checkedAt) &&
            (Step(s, Check(at)).dog.Marking? <==> ActiveTime(s.trace, at) >= budget)
  {
    ArmedInv(budget, start);
    RunKeepsInv(Armed(budget, start), acts);
    ReadingIsActiveTime(Run(Armed(budget, start), acts), at);
  }

  // ---------------------------------------------------------------- the object under its callers and its watchdog

  lemma RunTail(s: System, acts: seq<Action>, i: nat)
    requires i < |acts| && Runs(s, acts[i..])
    ensures Enabled(s, acts[i]) && Runs(Step(s, acts[i]), acts[i + 1..])
    ensures Run(s, acts[i..]) == Run(Step(s, acts[i]), acts[i + 1..])
  {
    assert acts[i..][0] == acts[i] && acts[i..][1..] == acts[i + 1..];
  }

  lemma RunEnds(s: System, acts: seq<Action>)
    ensures Runs(s, acts[|acts|..]) && Run(s, acts[|acts|..]) == s
  {
  }

  /** Drives a limiter through any interleaving of its callers and its watchdog: it ends with
      the clock and the trip flag of the system the theorems speak about, so a tripped limiter
      reads at least its budget. */
  method DriveLimiter(budget: nat, start: Instant, acts: seq<Action>, now: Instant) returns (l: CpuLimiter, tripped: bool, used: int)
    requires budget > 0 && Runs(Armed(budget, start), acts) && Run(Armed(budget, start), acts).now <= now
    ensures var end := Run(Armed(budget, start), acts);
            l.Value() == end.clock && tripped == end.tripped && used == Used(end.clock, now)
    ensures tripped ==> used >= budget
  {
    hide Run, Runs, Apply, Enabled;
    ghost var armed := Armed(budget, start);
    ghost var s := armed;
    l := new CpuLimiter(budget);
    l.Start(start);
    assert acts[0..] == acts;
    var over := false;
    var i := 0;
    while i < |acts|
      invariant 0 <= i <= |acts| && fresh(l) && l.budget == budget == s.clock.budget
      invariant Runs(s, acts[i..]) && Run(s, acts[i..]) == Run(armed, acts)
      invariant l.Value() == s.clock && l.tripped == s.tripped
    {
      RunTail(s, acts, i);
      StepKeepsBudget(s, acts[i]);
      match acts[i] {
        case Call(Pause, at) => l.Pause(at);
        case Call(Resume, at) => l.Resume(at);
        case Call(Stop, at) => var _ := l.Stop(at);
        case Call(Start, at) => l.Start(at);
        case Check(at) => over := l.OverBudget(at);
        case Mark(at) => l.MarkTripped();
        case Leave(at) =>
      }
      s := Step(s, acts[i]);
      i := i + 1;
    }
    RunEnds(s, acts);
    tripped := l.Tripped();
    used := l.ReadUsed(now);
    if tripped {
      TrippedNow(budget, start, acts, now);
    }
  }

  lemma StepKeepsBudget(s: System, a: Action)
    requires Enabled(s, a)
    ensures Step(s, a).clock.budget == s.clock.budget
  {
  }

  lemma TrippedNow(budget: nat, start: Instant, acts: seq<Action>, now: Instant)
    requires budget > 0 && Runs(Armed(budget, start), acts)
    requires var end := Run(Armed(budget, start), acts); end.tripped && end.now <= now
    ensures Used(Run(Armed(budget, start), acts).clock, now) >= budget
  {
    hide Used, Armed;
    var end := Run(Armed(budget, start), acts);
    assert Runs(end, []) && Run(end, []) == end;
    TrippedMeansOverBudget(budget, start, acts, [], now);
  }
}
