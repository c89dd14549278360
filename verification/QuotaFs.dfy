/** The byte-capped filesystem wrapper: one shared counter, and operations in four atomic steps. */
module QuotaFs {
  // An operation measures, reserves, runs against the backing filesystem and then gives back
  // what it did not use. Any number of threads may interleave between those steps.
  //
  // Integers are mathematical. An operation holds its file from its first step to its last; two
  // operations in flight never concern the same file.

  import opened MapSums
  import opened Text

  type File = string
  type Thread = nat

  /** Where a write lands: a given offset, or the end for a handle that cannot seek. */
  datatype Position = Offset(off: int) | AtEnd

  datatype Op =
    | WriteOp(file: File, at: Position, len: nat)
    | TruncateOp(file: File, size: int)
    | OpenOp(file: File, trunc: bool)
    | UnlinkOp(file: File)

  /** What the backing filesystem did: bytes a write moved, success of the rest,
      and whether a successful open created the file. */
  datatype Outcome = Outcome(moved: nat, ok: bool, creates: bool)

  /** How far one thread has got with its operation. */
  datatype Progress =
    | Idle
    | Measured(op: Op, seen: nat)
    | Reserved(op: Op, seen: nat, amount: nat)
    | Ran(op: Op, refund: nat)

  /** `drift` is a history variable: bytes charged over all runs so far that no file has. */
  datatype State = State(max: int, used: int, sizes: map<File, nat>, threads: map<Thread, Progress>, drift: int)

  // ---------------------------------------------------------------- arithmetic of one operation

  function Growth(size: nat, newEnd: int): (g: nat)
    ensures size + g == if newEnd > size then newEnd else size
  {
    if newEnd > size then newEnd - size else 0
  }

  function SizeOf(sizes: map<File, nat>, f: File): nat {
    if f in sizes then sizes[f] else 0
  }

  function Start(at: Position, size: nat): int {
    if at.Offset? then at.off else size
  }

  /** The worst case, reserved before the backing filesystem is touched. */
  function Predicted(op: Op, seen: nat): nat {
    match op
    case WriteOp(_, at, len) => Growth(seen, Start(at, seen) + len)
    case TruncateOp(_, size) => Growth(seen, size)
    case OpenOp(_, _) => 0
    case UnlinkOp(_) => 0
  }

  /** What is given back once the backing filesystem has answered. */
  function Refund(op: Op, seen: nat, out: Outcome): int {
    match op
    case WriteOp(_, at, _) => Predicted(op, seen) - Growth(seen, Start(at, seen) + out.moved)
    case TruncateOp(_, size) =>
      if size > seen then (if out.ok then 0 else size - seen)
      else if out.ok then seen - size else 0
    case OpenOp(_, trunc) => if out.ok && trunc then seen else 0
    case UnlinkOp(_) => if out.ok then seen else 0
  }

  /** The backing filesystem's contract. */
  predicate Possible(sizes: map<File, nat>, op: Op, out: Outcome) {
    match op
    case WriteOp(f, at, len) =>
      f in sizes && out.moved <= len && (at.Offset? && at.off < 0 ==> out.moved == 0)
    case TruncateOp(f, size) => f in sizes && (out.ok ==> size >= 0)
    case OpenOp(f, _) => true
    case UnlinkOp(f) => true
  }

  /** File sizes after the backing filesystem ran `op`. */
  function SizesAfter(sizes: map<File, nat>, op: Op, out: Outcome): map<File, nat>
    requires Possible(sizes, op, out)
  {
    match op
    case WriteOp(f, at, _) =>
      if out.moved == 0 then sizes
      else sizes[f := sizes[f] + Growth(sizes[f], Start(at, sizes[f]) + out.moved)]
    case TruncateOp(f, size) => if out.ok then sizes[f := size] else sizes
    case OpenOp(f, trunc) =>
      if !out.ok then sizes
      else if f in sizes then (if trunc then sizes[f := 0] else sizes)
      else if out.creates then sizes[f := 0] else sizes
    case UnlinkOp(f) => if out.ok then sizes - {f} else sizes
  }

  /** Bytes the operation leaves charged beyond the bytes it added to the file. */
  function Excess(sizes: map<File, nat>, op: Op, seen: nat, out: Outcome): int
    requires Possible(sizes, op, out)
  {
    Predicted(op, seen) - Refund(op, seen, out)
    - (SizeOf(SizesAfter(sizes, op, out), op.file) - SizeOf(sizes, op.file))
  }

  /** A write that moves nothing although it starts past the end of its file. */
  predicate EmptyWritePastEnd(op: Op, size: nat, out: Outcome) {
    op.WriteOp? && out.moved == 0 && Start(op.at, size) > size
  }

  /** Refunds stay within what the operation is answerable for, and nothing is ever under-charged. */
  lemma ChargesCoverGrowth(sizes: map<File, nat>, op: Op, seen: nat, out: Outcome)
    requires Possible(sizes, op, out) && seen <= SizeOf(sizes, op.file)
    ensures Refund(op, seen, out) >= 0
    ensures Excess(sizes, op, seen, out) >= 0
    ensures seen == SizeOf(sizes, op.file) ==>
              (Excess(sizes, op, seen, out) == 0 <==> !EmptyWritePastEnd(op, seen, out))
  {
  }

  // ---------------------------------------------------------------- the shared counter

  /** Whether `n` more bytes are admitted. */
  predicate Admits(used: int, max: int, n: int) {
    n <= 0 || used + n <= max
  }

  function Charged(used: int, n: int): int {
    if n <= 0 then used else used + n
  }

  function Released(used: int, n: int): int {
    if n <= 0 then used else if used - n < 0 then 0 else used - n
  }

  // ---------------------------------------------------------------- interleaved steps

  datatype Action =
    | Measure(t: Thread, op: Op, statOk: bool)
    | Reserve(t: Thread)
    | Backing(t: Thread, out: Outcome)
    | Reconcile(t: Thread)

  function At(s: State, t: Thread): Progress {
    if t in s.threads then s.threads[t] else Idle
  }

  predicate Holds(p: Progress, f: File) {
    !p.Idle? && p.op.file == f
  }

  predicate Enabled(s: State, a: Action) {
    match a
    case Measure(t, op, _) =>
      At(s, t).Idle? && (op.WriteOp? || op.TruncateOp? ==> op.file in s.sizes) &&
      forall u :: u in s.threads ==> !Holds(s.threads[u], op.file)
    case Reserve(t) => At(s, t).Measured?
    case Backing(t, out) => At(s, t).Reserved? && Possible(s.sizes, At(s, t).op, out)
    case Reconcile(t) => At(s, t).Ran?
  }

  /** One atomic step. */
  function Step(s: State, a: Action): State
    requires Enabled(s, a)
  {
    match a
    case Measure(t, op, statOk) =>
      s.(threads := s.threads[t := Measured(op, if statOk then SizeOf(s.sizes, op.file) else 0)])
    case Reserve(t) =>
      var Measured(op, seen) := At(s, t);
      var n := Predicted(op, seen);
      if Admits(s.used, s.max, n)
      then s.(used := Charged(s.used, n), threads := s.threads[t := Reserved(op, seen, n)])
      else s.(threads := s.threads[t := Idle])
    case Backing(t, out) =>
      var Reserved(op, seen, n) := At(s, t);
      var refund := Refund(op, seen, out);
      s.(sizes := SizesAfter(s.sizes, op, out),
         threads := s.threads[t := Ran(op, if refund < 0 then 0 else refund)],
         drift := s.drift + Excess(s.sizes, op, seen, out))
    case Reconcile(t) =>
      s.(used := Released(s.used, At(s, t).refund), threads := s.threads[t := Idle])
  }

  /** Bytes of `used` this thread has yet to reconcile. */
  function Owes(p: Progress): nat {
    match p
    case Idle => 0
    case Measured(_, _) => 0
    case Reserved(_, _, n) => n
    case Ran(_, refund) => refund
  }

  ghost function Debts(threads: map<Thread, Progress>): map<Thread, nat> {
    map t | t in threads :: Owes(threads[t])
  }

  ghost function Unreconciled(threads: map<Thread, Progress>): nat {
    Sum(Debts(threads))
  }

  /** Everything `used` stands for: real bytes, unreconciled bytes, and drift. */
  ghost predicate Accounted(s: State) {
    s.used == Sum(s.sizes) + Unreconciled(s.threads) + s.drift && s.drift >= 0
  }

  ghost predicate Exclusive(s: State) {
    forall t, u :: t in s.threads && u in s.threads && t != u && !s.threads[t].Idle? ==>
                     !Holds(s.threads[u], s.threads[t].op.file)
  }

  /** What a thread remembers about its file is still right. */
  ghost predicate Current(sizes: map<File, nat>, p: Progress) {
    (p.Measured? || p.Reserved? ==>
       p.seen <= SizeOf(sizes, p.op.file) && (p.op.WriteOp? || p.op.TruncateOp? ==> p.op.file in sizes)) &&
    (p.Reserved? ==> p.amount == Predicted(p.op, p.seen))
  }

  ghost predicate Inv(s: State, seed: int) {
    Accounted(s) && Exclusive(s) &&
    (s.used <= s.max || s.used <= seed) &&
    forall t :: t in s.threads ==> Current(s.sizes, s.threads[t])
  }

  lemma UnreconciledUpdate(threads: map<Thread, Progress>, t: Thread, p: Progress)
    ensures Unreconciled(threads[t := p]) ==
            Unreconciled(threads) + Owes(p) - (if t in threads then Owes(threads[t]) else 0)
  {
    SumUpdate(Debts(threads), t, Owes(p));
    assert Debts(threads[t := p]) == Debts(threads)[t := Owes(p)];
  }

  lemma {:induction false} IdleOwesNothing(threads: map<Thread, Progress>)
    requires forall t :: t in threads ==> threads[t].Idle?
    ensures Unreconciled(threads) == 0
    decreases |threads|
  {
    if threads != map[] {
      var t :| t in threads;
      IdleOwesNothing(threads - {t});
      UnreconciledUpdate(threads - {t}, t, Idle);
      assert threads == (threads - {t})[t := Idle];
    }
  }

  /** The backing step changes the total by its own file's change only. */
  lemma SizesSum(sizes: map<File, nat>, op: Op, out: Outcome)
    requires Possible(sizes, op, out)
    ensures Sum(SizesAfter(sizes, op, out)) ==
            Sum(sizes) + SizeOf(SizesAfter(sizes, op, out), op.file) - SizeOf(sizes, op.file)
    ensures forall f :: f != op.file ==> (f in SizesAfter(sizes, op, out) <==> f in sizes) &&
                                         SizeOf(SizesAfter(sizes, op, out), f) == SizeOf(sizes, f)
  {
    var f, after := op.file, SizesAfter(sizes, op, out);
    if f in after {
      assert after == sizes[f := after[f]];
      SumUpdate(sizes, f, after[f]);
    } else if f in sizes {
      assert after == sizes - {f};
      SumRemove(sizes, f);
    } else {
      assert after == sizes;
    }
  }

  /** The refund a thread still owes is part of `used`, so the clamp at zero never fires. */
  lemma ReconcileCovered(s: State, t: Thread, seed: int)
    requires Inv(s, seed) && At(s, t).Ran?
    ensures Step(s, Reconcile(t)).used == s.used - At(s, t).refund >= 0
  {
    SumUpdate(Debts(s.threads), t, 0);
  }

  lemma BackingKeepsInv(s: State, t: Thread, out: Outcome, seed: int)
    requires Inv(s, seed) && Enabled(s, Backing(t, out))
    ensures Inv(Step(s, Backing(t, out)), seed)
  {
    var s', p := Step(s, Backing(t, out)), At(s, t);
    UnreconciledUpdate(s.threads, t, At(s', t));
    SizesSum(s.sizes, p.op, out);
    ChargesCoverGrowth(s.sizes, p.op, p.seen, out);
    forall u | u in s'.threads
      ensures Current(s'.sizes, s'.threads[u])
    {
      if u != t && !s.threads[u].Idle? {
        assert !Holds(s.threads[t], s.threads[u].op.file);
      }
    }
  }

  /** Every step, by any thread, keeps the books. */
  lemma StepKeepsInv(s: State, a: Action, seed: int)
    requires Inv(s, seed) && Enabled(s, a)
    ensures Inv(Step(s, a), seed)
  {
    if a.Backing? {
      BackingKeepsInv(s, a.t, a.out, seed);
    } else {
      var s' := Step(s, a);
      UnreconciledUpdate(s.threads, a.t, At(s', a.t));
      assert s'.threads == s.threads[a.t := At(s', a.t)];
      if a.Reconcile? {
        ReconcileCovered(s, a.t, seed);
      }
    }
  }

  // ---------------------------------------------------------------- whole runs

  ghost predicate Runs(s: State, acts: seq<Action>)
    decreases |acts|
  {
    acts == [] || (Enabled(s, acts[0]) && Runs(Step(s, acts[0]), acts[1..]))
  }

  ghost function Run(s: State, acts: seq<Action>): State
    requires Runs(s, acts)
    decreases |acts|
  {
    if acts == [] then s else Run(Step(s, acts[0]), acts[1..])
  }

  /** A freshly wrapped filesystem: the counter seeded by walking the files. */
  ghost predicate Fresh(s: State) {
    (forall t :: t in s.threads ==> s.threads[t].Idle?) && s.drift == 0 && s.used == Sum(s.sizes)
  }

  lemma {:induction false} RunKeepsInv(s: State, acts: seq<Action>, seed: int)
    requires Inv(s, seed) && Runs(s, acts)
    ensures Inv(Run(s, acts), seed)
    ensures Run(s, acts).max == s.max
    decreases |acts|
  {
    if acts != [] {
      StepKeepsInv(s, acts[0], seed);
      RunKeepsInv(Step(s, acts[0]), acts[1..], seed);
    }
  }

  /** The cap, in every interleaving: real bytes plus unreconciled reservations never
      exceed `used`, and `used` never exceeds the cap (or the seed, when the wrapped
      directory was already larger than the cap). */
  lemma CapHoldsThroughout(s: State, acts: seq<Action>)
    requires Fresh(s) && Runs(s, acts)
    ensures Sum(Run(s, acts).sizes) + Unreconciled(Run(s, acts).threads) <= Run(s, acts).used
    ensures Run(s, acts).used <= s.max || Run(s, acts).used <= s.used
    ensures s.used <= s.max ==> Sum(Run(s, acts).sizes) <= s.max
  {
    IdleOwesNothing(s.threads);
    RunKeepsInv(s, acts, s.used);
  }

  /** In every interleaving no release reaches the clamp at zero. */
  lemma ClampNeverFires(s: State, acts: seq<Action>, t: Thread)
    requires Fresh(s) && Runs(s, acts) && Enabled(Run(s, acts), Reconcile(t))
    ensures var r := Run(s, acts); r.used >= At(r, t).refund && Step(r, Reconcile(t)).used == r.used - At(r, t).refund
  {
    IdleOwesNothing(s.threads);
    RunKeepsInv(s, acts, s.used);
    ReconcileCovered(Run(s, acts), t, s.used);
  }

  /** No step of the run is a zero-byte write past the end of its file. */
  ghost predicate NoEmptyWritePastEnd(s: State, acts: seq<Action>)
    requires Runs(s, acts)
    decreases |acts|
  {
    acts == [] ||
    ((acts[0].Backing? ==> var op := At(s, acts[0].t).op; !EmptyWritePastEnd(op, SizeOf(s.sizes, op.file), acts[0].out)) &&
     NoEmptyWritePastEnd(Step(s, acts[0]), acts[1..]))
  }

  /** Every measurement of the run succeeds. */
  predicate StatsSucceed(acts: seq<Action>) {
    forall i :: 0 <= i < |acts| && acts[i].Measure? ==> acts[i].statOk
  }

  ghost predicate Exact(s: State) {
    forall t :: t in s.threads && (s.threads[t].Measured? || s.threads[t].Reserved?) ==>
                  s.threads[t].seen == SizeOf(s.sizes, s.threads[t].op.file)
  }

  lemma StepKeepsExact(s: State, a: Action, seed: int)
    requires Inv(s, seed) && Exact(s) && Enabled(s, a) && (a.Measure? ==> a.statOk)
    ensures Exact(Step(s, a))
  {
    if a.Backing? {
      SizesSum(s.sizes, At(s, a.t).op, a.out);
      forall t | t in s.threads && t != a.t && !s.threads[t].Idle?
        ensures SizeOf(Step(s, a).sizes, s.threads[t].op.file) == SizeOf(s.sizes, s.threads[t].op.file)
      {
        assert !Holds(s.threads[a.t], s.threads[t].op.file);
      }
    }
  }

  /** What an operation leaves charged that its file does not have: `seen` is the measured size,
      0 when the measurement failed, and `size` the real one. */
  function Overcharge(op: Op, seen: nat, size: nat, out: Outcome): int {
    match op
    case WriteOp(_, at, _) =>
      if at.AtEnd? then 0
      else if out.moved == 0 then Growth(seen, at.off)
      else if at.off + out.moved <= seen then 0
      else (if at.off + out.moved < size then at.off + out.moved else size) - seen
    case TruncateOp(_, _) => if out.ok then size - seen else 0
    case OpenOp(_, trunc) => if out.ok && trunc then size - seen else 0
    case UnlinkOp(_) => if out.ok then size - seen else 0
  }

  lemma ExcessIsOvercharge(sizes: map<File, nat>, op: Op, seen: nat, out: Outcome)
    requires Possible(sizes, op, out) && seen <= SizeOf(sizes, op.file)
    ensures Excess(sizes, op, seen, out) == Overcharge(op, seen, SizeOf(sizes, op.file), out) >= 0
  {
  }

  /** The overcharges of all backing steps of a run. */
  ghost function RunOvercharge(s: State, acts: seq<Action>): int
    requires Runs(s, acts)
    decreases |acts|
  {
    if acts == [] then 0 else
      (if acts[0].Backing? then
         var p := At(s, acts[0].t);
         Overcharge(p.op, p.seen, SizeOf(s.sizes, p.op.file), acts[0].out)
       else 0) + RunOvercharge(Step(s, acts[0]), acts[1..])
  }

  lemma {:induction false} DriftIsOvercharge(s: State, acts: seq<Action>, seed: int)
    requires Inv(s, seed) && Runs(s, acts)
    ensures Run(s, acts).drift == s.drift + RunOvercharge(s, acts) && RunOvercharge(s, acts) >= 0
    decreases |acts|
  {
    hide Inv, Overcharge, Excess;
    if acts != [] {
      var a := acts[0];
      StepKeepsInv(s, a, seed);
      DriftIsOvercharge(Step(s, a), acts[1..], seed);
      if a.Backing? {
        MeasuredBelow(s, a.t, seed);
        ExcessIsOvercharge(s.sizes, At(s, a.t).op, At(s, a.t).seen, a.out);
      }
    }
  }

  lemma MeasuredBelow(s: State, t: Thread, seed: int)
    requires Inv(s, seed) && At(s, t).Reserved?
    ensures At(s, t).seen <= SizeOf(s.sizes, At(s, t).op.file)
  {
  }

  /** Whatever measurements fail: once every operation has been reconciled, the counter is what
      walking the files again would find plus the overcharges of the run. */
  lemma CounterIsFilesPlusOvercharge(s: State, acts: seq<Action>)
    requires Fresh(s) && Runs(s, acts)
    requires forall t :: t in Run(s, acts).threads ==> Run(s, acts).threads[t].Idle?
    ensures Run(s, acts).used == Sum(Run(s, acts).sizes) + RunOvercharge(s, acts) >= Sum(Run(s, acts).sizes)
  {
    IdleOwesNothing(s.threads);
    RunKeepsInv(s, acts, s.used);
    DriftIsOvercharge(s, acts, s.used);
    IdleOwesNothing(Run(s, acts).threads);
  }

  lemma {:induction false} DriftOfRun(s: State, acts: seq<Action>, seed: int)
    requires Inv(s, seed) && Exact(s) && Runs(s, acts) && StatsSucceed(acts)
    ensures Run(s, acts).drift >= s.drift
    ensures Run(s, acts).drift == s.drift <==> NoEmptyWritePastEnd(s, acts)
    decreases |acts|
  {
    if acts != [] {
      var a := acts[0];
      StepKeepsInv(s, a, seed);
      StepKeepsExact(s, a, seed);
      DriftOfRun(Step(s, a), acts[1..], seed);
      if a.Backing? {
        ChargesCoverGrowth(s.sizes, At(s, a.t).op, At(s, a.t).seen, a.out);
      }
    }
  }

  /** Once every operation has been reconciled, the counter is exactly what walking
      the files again would find if and only if no write that moved nothing started
      past the end of its file; otherwise it is larger. */
  lemma CounterExactIffNoEmptyWritePastEnd(s: State, acts: seq<Action>)
    requires Fresh(s) && Runs(s, acts) && StatsSucceed(acts)
    requires forall t :: t in Run(s, acts).threads ==> Run(s, acts).threads[t].Idle?
    ensures Run(s, acts).used >= Sum(Run(s, acts).sizes)
    ensures Run(s, acts).used == Sum(Run(s, acts).sizes) <==> NoEmptyWritePastEnd(s, acts)
  {
    IdleOwesNothing(s.threads);
    RunKeepsInv(s, acts, s.used);
    DriftOfRun(s, acts, s.used);
    IdleOwesNothing(Run(s, acts).threads);
  }

  /** The drift is real: an empty write 7 bytes past the end charges 7 bytes no file has. */
  lemma EmptyWriteDrifts(f: File)
    ensures var s := State(10, 0, map[f := 0], map[], 0);
            var acts := [Measure(0, WriteOp(f, Offset(7), 0), true), Reserve(0), Backing(0, Outcome(0, true, false)), Reconcile(0)];
            Fresh(s) && Runs(s, acts) && Run(s, acts).used == 7 && Run(s, acts).sizes == s.sizes
  {
    var s := State(10, 0, map[f := 0], map[], 0);
    SumRemove(s.sizes, f);
    assert s.sizes - {f} == map[];
    var op := WriteOp(f, Offset(7), 0);
    var a0, a1, a2, a3 := Measure(0, op, true), Reserve(0), Backing(0, Outcome(0, true, false)), Reconcile(0);
    var s1 := Step(s, a0);
    var s2 := Step(s1, a1);
    var s3 := Step(s2, a2);
    assert [a0, a1, a2, a3][1..] == [a1, a2, a3] && [a1, a2, a3][1..] == [a2, a3] && [a2, a3][1..] == [a3];
    assert Runs(s3, [a3]) && Runs(s2, [a2, a3]) && Runs(s1, [a1, a2, a3]);
    assert Run(s3, [a3]) == Step(s3, a3);
    assert Run(s2, [a2, a3]) == Run(s3, [a3]);
    assert Run(s1, [a1, a2, a3]) == Run(s2, [a2, a3]);
  }

  // ---------------------------------------------------------------- the wrapper itself

  datatype Result = QuotaExceeded | Done(moved: nat, ok: bool)

  /** One thread's operation run to its end with nobody in between. */
  function Solo(s: State, op: Op, statOk: bool, out: Outcome): (r: (State, Result))
    requires Enabled(s, Measure(0, op, statOk)) && Possible(s.sizes, op, out)
  {
    var reserved := Step(Step(s, Measure(0, op, statOk)), Reserve(0));
    if At(reserved, 0).Idle? then (reserved, QuotaExceeded)
    else (Step(Step(reserved, Backing(0, out)), Reconcile(0)), Done(out.moved, out.ok))
  }

  /** A call alone is one of the interleavings the theorems above speak about, and
      a refused call leaves the counter and every file as they were. */
  lemma SoloIsRun(s: State, op: Op, statOk: bool, out: Outcome, seed: int)
    requires Enabled(s, Measure(0, op, statOk)) && Possible(s.sizes, op, out) && Inv(s, seed)
    ensures var (after, r) := Solo(s, op, statOk, out);
            Inv(after, seed) &&
            (r.QuotaExceeded? ==> after.used == s.used && after.sizes == s.sizes) &&
            (r.QuotaExceeded? <==> var seen := if statOk then SizeOf(s.sizes, op.file) else 0;
                                   Predicted(op, seen) > 0 && s.used + Predicted(op, seen) > s.max)
  {
    var s1 := Step(s, Measure(0, op, statOk));
    StepKeepsInv(s, Measure(0, op, statOk), seed);
    var s2 := Step(s1, Reserve(0));
    StepKeepsInv(s1, Reserve(0), seed);
    if !At(s2, 0).Idle? {
      StepKeepsInv(s2, Backing(0, out), seed);
      StepKeepsInv(Step(s2, Backing(0, out)), Reconcile(0), seed);
    }
  }

  /** The net effect of a call on the counter, the files and the drift. */
  function Effect(s: State, op: Op, statOk: bool, out: Outcome): (State, Result)
    requires Possible(s.sizes, op, out)
  {
    var seen := if statOk then SizeOf(s.sizes, op.file) else 0;
    var n := Predicted(op, seen);
    if !Admits(s.used, s.max, n) then (s, QuotaExceeded)
    else (s.(used := Released(Charged(s.used, n), Refund(op, seen, out)),
             sizes := SizesAfter(s.sizes, op, out),
             drift := s.drift + Excess(s.sizes, op, seen, out)),
          Done(out.moved, out.ok))
  }

  /** Measuring, reserving, running and reconciling in turn add up to `Effect`. */
  lemma EffectIsSolo(s: State, op: Op, statOk: bool, out: Outcome)
    requires s.threads == map[0 := Idle] && Possible(s.sizes, op, out)
    ensures Enabled(s, Measure(0, op, statOk)) && Effect(s, op, statOk, out) == Solo(s, op, statOk, out)
  {
    hide SizesAfter, Excess, Growth, Predicted, Refund, SizeOf;
    var reserved := Step(Step(s, Measure(0, op, statOk)), Reserve(0));
    if At(reserved, 0).Idle? {
      assert reserved.threads == s.threads;
    } else {
      assert Step(Step(reserved, Backing(0, out)), Reconcile(0)).threads == s.threads;
    }
  }

  class Counter {
    var used: int
    const max: int

    constructor (used: int, max: int)
      ensures this.used == used && this.max == max
    {
      this.used, this.max := used, max;
    }

    method TryReserve(n: int) returns (ok: bool)
      modifies this
      ensures ok == Admits(old(used), max, n)
      ensures used == if ok then Charged(old(used), n) else old(used)
    {
      if n <= 0 {
        return true;
      }
      if used + n > max {
        return false;
      }
      used := used + n;
      return true;
    }

    method Release(n: int)
      modifies this
      ensures used == Released(old(used), n)
    {
      if n <= 0 {
        return;
      }
      used := used - n;
      if used < 0 {
        used := 0;
      }
    }
  }

  /** The wrapped filesystem; `out` parameters say how it behaves. */
  class Disk {
    var sizes: map<File, nat>

    constructor (sizes: map<File, nat>)
      ensures this.sizes == sizes
    {
      this.sizes := sizes;
    }

    method Stat(f: File, ok: bool) returns (size: nat)
      ensures size == if ok then SizeOf(sizes, f) else 0
    {
      size := if ok && f in sizes then sizes[f] else 0;
    }

    method Apply(op: Op, out: Outcome)
      requires Possible(sizes, op, out)
      modifies this
      ensures sizes == SizesAfter(old(sizes), op, out)
    {
      sizes := SizesAfter(sizes, op, out);
    }

    /** None is a walk cut short: some directory cannot be listed, or some file's information
        not be had. */
    method WalkSize(listable: bool, failing: set<File>) returns (r: Option<nat>)
      ensures r.None? <==> !listable || exists f :: f in sizes && f in failing
      ensures r.Some? ==> r.value == Sum(sizes)
    {
      if !listable {
        return None;
      }
      var total := 0;
      var rest := sizes;
      while rest != map[]
        invariant rest.Keys <= sizes.Keys && forall f :: f in rest ==> rest[f] == sizes[f]
        invariant forall f :: f in sizes && f in failing ==> f in rest
        invariant total + Sum(rest) == Sum(sizes)
        decreases |rest|
      {
        var f :| f in rest;
        if f in failing {
          return None;
        }
        SumRemove(rest, f);
        total := total + rest[f];
        rest := rest - {f};
      }
      return Some(total);
    }
  }

  class QuotaFs {
    const c: Counter
    const disk: Disk
    ghost var drift: int

    ghost function View(): State
      reads this, c, disk
    {
      State(c.max, c.used, disk.sizes, map[0 := Idle], drift)
    }

    constructor (disk: Disk, used: int, max: int)
      ensures this.disk == disk && c.max == max && c.used == used && drift == 0 && fresh(c)
      ensures disk.sizes == old(disk.sizes)
    {
      this.disk := disk;
      c := new Counter(used, max);
      drift := 0;
    }

    /** Wraps a directory whose walk succeeds, and no other. */
    static method New(disk: Disk, max: int, listable: bool, failing: set<File>) returns (q: QuotaFs?)
      ensures q == null <==> !listable || exists f :: f in disk.sizes && f in failing
      ensures disk.sizes == old(disk.sizes)
      ensures q != null ==> fresh(q) && fresh(q.c) && q.disk == disk && q.c.max == max && Fresh(q.View())
    {
      var used := disk.WalkSize(listable, failing);
      if used.None? {
        return null;
      }
      q := new QuotaFs(disk, used.value, max);
    }

    method WriteAt(f: File, off: int, len: nat, statOk: bool, out: Outcome) returns (r: Result)
      requires Possible(disk.sizes, WriteOp(f, Offset(off), len), out)
      modifies this, c, disk
      ensures (View(), r) == Effect(old(View()), WriteOp(f, Offset(off), len), statOk, out)
    {
      hide SizesAfter, Excess, Possible, Growth, SizeOf;
      var size := disk.Stat(f, statOk);
      var predicted: int := Growth(size, off + len);
      var ok := c.TryReserve(predicted);
      if !ok {
        return QuotaExceeded;
      }
      drift := drift + Excess(disk.sizes, WriteOp(f, Offset(off), len), size, out);
      disk.Apply(WriteOp(f, Offset(off), len), out);
      var actual: int := Growth(size, off + out.moved);
      c.Release(predicted - actual);
      return Done(out.moved, out.ok);
    }

    /** `cursor` is the handle's position, or AtEnd when it cannot seek. */
    method Write(f: File, cursor: Position, len: nat, statOk: bool, out: Outcome) returns (r: Result)
      requires Possible(disk.sizes, WriteOp(f, cursor, len), out)
      modifies this, c, disk
      ensures (View(), r) == Effect(old(View()), WriteOp(f, cursor, len), statOk, out)
    {
      hide SizesAfter, Excess, Possible, Growth, SizeOf;
      var size := disk.Stat(f, statOk);
      var pos: int := size;
      if cursor.Offset? {
        pos := cursor.off;
      }
      var predicted: int := Growth(size, pos + len);
      var ok := c.TryReserve(predicted);
      if !ok {
        return QuotaExceeded;
      }
      drift := drift + Excess(disk.sizes, WriteOp(f, cursor, len), size, out);
      disk.Apply(WriteOp(f, cursor, len), out);
      var actual: int := Growth(size, pos + out.moved);
      c.Release(predicted - actual);
      return Done(out.moved, out.ok);
    }

    method Truncate(f: File, size: int, statOk: bool, out: Outcome) returns (r: Result)
      requires Possible(disk.sizes, TruncateOp(f, size), out)
      modifies this, c, disk
      ensures (View(), r) == Effect(old(View()), TruncateOp(f, size), statOk, out)
    {
      var was := disk.Stat(f, statOk);
      if size > was {
        var ok := c.TryReserve(size - was);
        if !ok {
          return QuotaExceeded;
        }
        drift := drift + Excess(disk.sizes, TruncateOp(f, size), was, out);
        disk.Apply(TruncateOp(f, size), out);
        if !out.ok {
          c.Release(size - was);
        }
        return Done(out.moved, out.ok);
      }
      drift := drift + Excess(disk.sizes, TruncateOp(f, size), was, out);
      disk.Apply(TruncateOp(f, size), out);
      if out.ok {
        c.Release(was - size);
      }
      return Done(out.moved, out.ok);
    }

    method OpenAt(f: File, trunc: bool, statOk: bool, out: Outcome) returns (r: Result)
      modifies this, c, disk
      ensures (View(), r) == Effect(old(View()), OpenOp(f, trunc), statOk, out)
    {
      var freed := 0;
      if trunc {
        freed := disk.Stat(f, statOk);
      }
      drift := drift + Excess(disk.sizes, OpenOp(f, trunc), if trunc then freed else if statOk then SizeOf(disk.sizes, f) else 0, out);
      disk.Apply(OpenOp(f, trunc), out);
      if out.ok {
        c.Release(freed);
      }
      return Done(out.moved, out.ok);
    }

    method UnlinkAt(f: File, statOk: bool, out: Outcome) returns (r: Result)
      modifies this, c, disk
      ensures (View(), r) == Effect(old(View()), UnlinkOp(f), statOk, out)
    {
      var freed := disk.Stat(f, statOk);
      drift := drift + Excess(disk.sizes, UnlinkOp(f), freed, out);
      disk.Apply(UnlinkOp(f), out);
      if out.ok {
        c.Release(freed);
      }
      return Done(out.moved, out.ok);
    }
  }
}
