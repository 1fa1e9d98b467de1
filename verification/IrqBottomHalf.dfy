/**
 The interrupt top half / bottom half protocol of `09-irq-bottom-half/irqbh.c`.

 Every atomic access of the handler, of the work function and of the unload path is one step;
 a run is any interleaving of steps.  The kernel enters as the guards of the steps:
   - the pending bit is cleared before the work function is called, and the work item never runs
     concurrently with itself;
   - `free_irq` first stops new handlers, then waits for the handlers and the irq thread;
   - `cancel_work_sync` takes the item off the queue, then waits for the running function;
   - in threaded mode every wake-up leads to one run of the thread function (the claim of the
     comment at irqbh.c:17-19, which this code does not decide).
 Any number of handlers may be in flight at once, which is more than one interrupt line allows.
 */
module IrqBottomHalf {

  /** The two orders in which an unload path can stop its two sources of activity. */
  datatype Teardown = FreeThenCancel | CancelThenFree

  /** The two orders of the two statements of the handler. */
  datatype Handler = CountThenSchedule | ScheduleThenCount

  /** The choices the code makes; the orders it does not choose are there to show what the choice is worth. */
  datatype Config = Config(handler: Handler, teardown: Teardown, threaded: bool)

  /** irqbh.c with `mode` 0 or not. */
  function Source(threaded: bool): Config { Config(CountThenSchedule, FreeThenCancel, threaded) }

  /** Where the bottom half stands: called, `bh_done` counted, `irq_hits` read and asleep. */
  datatype Worker = Idle | Called | Counted | Asleep

  datatype Stop = Live | Stopping | Stopped

  datatype State = State(
    cfg: Config,
    entered: nat,       // handlers before their first statement
    midway: nat,        // handlers between atomic_inc and schedule_work / IRQ_WAKE_THREAD
    hits: nat,          // irq_hits
    done: nat,          // bh_done
    pending: bool,      // the work item's pending bit
    wakes: nat,         // thread wake-ups not yet served
    worker: Worker,
    snapshot: nat,      // `hit` of the last run of wq_fn
    merged: nat,        // schedule_work calls that found the item pending
    cancelled: nat,     // queued runs dropped by cancel_work_sync
    irq: Stop,
    work: Stop,
    gpioHeld: bool)

  function Init(cfg: Config): State {
    State(cfg, 0, 0, 0, 0, false, 0, Idle, 0, 0, 0, Live, Live, true)
  }

  datatype Step =
    | IrqEnter | IrqCount | IrqHandOff
    | WorkCall | WorkCount | WorkObserve | WorkFinish
    | FreeBegin | FreeEnd | CancelBegin | CancelEnd | ReleaseGpio

  predicate Enabled(s: State, step: Step) {
    match step
    case IrqEnter => s.irq.Live?
    case IrqCount => if s.cfg.handler.CountThenSchedule? then s.entered > 0 else s.midway > 0
    case IrqHandOff => if s.cfg.handler.CountThenSchedule? then s.midway > 0 else s.entered > 0
    case WorkCall => s.worker.Idle? && (if s.cfg.threaded then s.wakes > 0 else s.pending)
    case WorkCount => s.worker.Called?
    case WorkObserve => s.worker.Counted? && !s.cfg.threaded
    case WorkFinish => s.worker.Asleep?
    case FreeBegin => s.irq.Live? && (s.cfg.teardown.FreeThenCancel? || s.work.Stopped?)
    case FreeEnd =>
      && s.irq.Stopping? && s.entered == 0 && s.midway == 0
      && (s.cfg.threaded ==> s.wakes == 0 && s.worker.Idle?)
    case CancelBegin => s.work.Live? && (s.cfg.teardown.CancelThenFree? || s.irq.Stopped?)
    case CancelEnd => s.work.Stopping? && (s.cfg.threaded || s.worker.Idle?)
    case ReleaseGpio => s.gpioHeld && s.irq.Stopped? && s.work.Stopped?
  }

  /** A handler moves past its first or its second statement. */
  function Advance(s: State, first: bool): State
    requires if first then s.entered > 0 else s.midway > 0
  {
    if first then s.(entered := s.entered - 1, midway := s.midway + 1) else s.(midway := s.midway - 1)
  }

  /** The atomic effect of one step. */
  function Apply(s: State, step: Step): State
    requires Enabled(s, step)
  {
    match step
    case IrqEnter => s.(entered := s.entered + 1)
    case IrqCount => Advance(s, s.cfg.handler.CountThenSchedule?).(hits := s.hits + 1)
    case IrqHandOff =>
      var t := Advance(s, s.cfg.handler.ScheduleThenCount?);
      if s.cfg.threaded then t.(wakes := s.wakes + 1)
      else if s.pending then t.(merged := s.merged + 1)
      else t.(pending := true)
    case WorkCall =>
      if s.cfg.threaded then s.(wakes := s.wakes - 1, worker := Called)
      else s.(pending := false, worker := Called)
    case WorkCount => s.(done := s.done + 1, worker := if s.cfg.threaded then Asleep else Counted)
    case WorkObserve => s.(snapshot := s.hits, worker := Asleep)
    case WorkFinish => s.(worker := Idle)
    case FreeBegin => s.(irq := Stopping)
    case FreeEnd => s.(irq := Stopped)
    case CancelBegin => s.(work := Stopping, pending := false, cancelled := s.cancelled + Bit(s.pending))
    case CancelEnd => s.(work := Stopped)
    case ReleaseGpio => s.(gpioHeld := false)
  }

  function Bit(b: bool): nat { if b then 1 else 0 }

  // ----- Runs -----

  predicate IsRun(s: State, steps: seq<Step>)
    decreases |steps|
  {
    steps == [] || (Enabled(s, steps[0]) && IsRun(Apply(s, steps[0]), steps[1..]))
  }

  function After(s: State, steps: seq<Step>): State
    requires IsRun(s, steps)
    decreases |steps|
  {
    if steps == [] then s else After(Apply(s, steps[0]), steps[1..])
  }

  /** `s` is reached by some interleaving that starts when the interrupt has been requested. */
  ghost predicate Reachable(cfg: Config, s: State) {
    exists steps :: Reaches(Init(cfg), steps, s)
  }

  ghost predicate Reaches(s: State, steps: seq<Step>, t: State) {
    IsRun(s, steps) && After(s, steps) == t
  }

  // ----- The invariant -----

  /** Every counted interrupt is accounted for by exactly one fate. */
  predicate Conserved(s: State) {
    s.hits == s.done + s.merged + s.cancelled
              + Bit(s.pending) + s.wakes + s.midway + Bit(s.worker.Called?)
  }

  /** If the last observation is stale, something is on its way that will observe again. */
  predicate ObservationDue(s: State) {
    && s.snapshot <= s.hits
    && (s.snapshot < s.hits ==>
          s.midway > 0 || s.pending || s.worker.Called? || s.worker.Counted? || s.cancelled > 0)
  }

  predicate ModeFacts(s: State) {
    if s.cfg.threaded then !s.pending && s.merged == 0 && s.cancelled == 0 && !s.worker.Counted?
    else s.wakes == 0 && ObservationDue(s)
  }

  predicate TeardownFacts(s: State) {
    && (s.irq.Stopped? ==>
          s.entered == 0 && s.midway == 0 && (s.cfg.threaded ==> s.wakes == 0 && s.worker.Idle?))
    && (s.cfg.teardown.FreeThenCancel? && !s.work.Live? ==> s.irq.Stopped? && !s.pending)
    && (s.cfg.teardown.FreeThenCancel? && s.work.Stopped? ==> s.worker.Idle?)
    && (!s.gpioHeld ==> s.irq.Stopped? && s.work.Stopped?)
    && (s.work.Live? ==> s.cancelled == 0)
    && s.cancelled <= 1
  }

  /** The part of the invariant that speaks of unloading alone holds for either handler. */
  predicate Inv(s: State) {
    TeardownFacts(s) && (s.cfg.handler.CountThenSchedule? ==> Conserved(s) && ModeFacts(s))
  }

  lemma StepKeepsTeardown(s: State, step: Step)
    requires TeardownFacts(s) && Enabled(s, step)
    ensures TeardownFacts(Apply(s, step))
  {
  }

  lemma StepKeepsConserved(s: State, step: Step)
    requires Conserved(s) && ModeFacts(s) && Enabled(s, step) && s.cfg.handler.CountThenSchedule?
    ensures Conserved(Apply(s, step))
  {
  }

  lemma StepKeepsMode(s: State, step: Step)
    requires ModeFacts(s) && Enabled(s, step) && s.cfg.handler.CountThenSchedule?
    ensures ModeFacts(Apply(s, step))
  {
  }

  lemma {:induction false} StepKeepsInv(s: State, step: Step)
    requires Inv(s) && Enabled(s, step)
    ensures Inv(Apply(s, step))
  {
    StepKeepsTeardown(s, step);
    if s.cfg.handler.CountThenSchedule? {
      StepKeepsConserved(s, step);
      StepKeepsMode(s, step);
    }
  }

  lemma {:induction false} RunKeepsInv(s: State, steps: seq<Step>)
    requires Inv(s) && IsRun(s, steps)
    ensures Inv(After(s, steps))
    ensures After(s, steps).cfg == s.cfg
    decreases |steps|
  {
    if steps == [] {
    } else {
      StepKeepsInv(s, steps[0]);
      RunKeepsInv(Apply(s, steps[0]), steps[1..]);
    }
  }

  /** An inductive invariant of all interleavings, in every configuration. */
  lemma {:induction false} ReachableInv(cfg: Config, s: State)
    requires Reachable(cfg, s)
    ensures Inv(s) && s.cfg == cfg
  {
    var steps :| Reaches(Init(cfg), steps, s);
    InitInv(cfg);
    RunKeepsInv(Init(cfg), steps);
  }

  lemma InitInv(cfg: Config)
    ensures Inv(Init(cfg))
  {
  }

  // ----- Observation -----

  /** No handler is past its count, nothing is queued and no run has yet to read `irq_hits`. */
  predicate Settled(s: State) {
    s.midway == 0 && !s.pending && s.wakes == 0 && !s.worker.Called? && !s.worker.Counted?
  }

  /**
   In every interleaving: interrupts are conserved, and whenever nothing is pending or in flight and no queued
   run was cancelled, the last run of the work function has seen every interrupt.
   */
  lemma {:induction false} NoInterruptUnobserved(s: State)
    requires Reachable(Source(false), s)
    ensures s.hits == s.done + s.merged + s.cancelled + Bit(s.pending) + s.midway + Bit(s.worker.Called?)
    ensures Settled(s) && s.cancelled == 0 ==> s.snapshot == s.hits == s.done + s.merged
  {
    ReachableInv(Source(false), s);
  }

  /** In threaded mode nothing merges: once settled, every interrupt has had a run of its own. */
  lemma {:induction false} ThreadedNeverMerges(s: State)
    requires Reachable(Source(true), s)
    ensures s.merged == 0 && s.cancelled == 0 && (Settled(s) ==> s.done == s.hits)
  {
    ReachableInv(Source(true), s);
  }

  /** Every settled state has seen all interrupts, unless the unload path dropped a queued run. */
  ghost predicate ObservesAll(cfg: Config) {
    forall s | Reachable(cfg, s) && Settled(s) && s.cancelled == 0 :: s.snapshot == s.hits
  }

  /** It is the order of the two statements of the handler that makes this true, whatever the unload order. */
  lemma {:induction false} CountingFirstIsWhatObservesAll(handler: Handler, teardown: Teardown)
    ensures ObservesAll(Config(handler, teardown, false)) <==> handler == CountThenSchedule
  {
    var cfg := Config(handler, teardown, false);
    if handler == CountThenSchedule {
      forall s | Reachable(cfg, s) && Settled(s) && s.cancelled == 0 ensures s.snapshot == s.hits {
        ReachableInv(cfg, s);
      }
    } else {
      var s := SchedulingFirstLosesAnInterrupt(teardown);
      assert s.snapshot != s.hits;
    }
  }

  /** Scheduled before it is counted, an interrupt can be missed by the very run it asked for. */
  lemma {:induction false} SchedulingFirstLosesAnInterrupt(teardown: Teardown) returns (s: State)
    ensures Reachable(Config(ScheduleThenCount, teardown, false), s)
    ensures Settled(s) && s.cancelled == 0 && s.hits == 1 && s.snapshot == 0
  {
    s := Init(Config(ScheduleThenCount, teardown, false));
    InitReachable(s.cfg);
    s := Extend(s, IrqEnter);
    s := Extend(s, IrqHandOff);
    s := Extend(s, WorkCall);
    s := Extend(s, WorkCount);
    s := Extend(s, WorkObserve);
    s := Extend(s, IrqCount);
  }

  /** Work left to do if no further interrupt arrives. */
  function Remaining(s: State): nat {
    6 * s.entered + 5 * s.midway + 4 * Bit(s.pending) + 4 * s.wakes
    + match s.worker case Idle => 0 case Called => 3 case Counted => 2 case Asleep => 1
  }

  predicate IsBottomHalfStep(step: Step) {
    step in {IrqCount, IrqHandOff, WorkCall, WorkCount, WorkObserve, WorkFinish}
  }

  lemma StepShrinksWork(s: State, step: Step)
    requires Enabled(s, step) && IsBottomHalfStep(step) && s.cfg.handler.CountThenSchedule?
    ensures var t := Apply(s, step);
            Remaining(t) < Remaining(s) && t.hits + t.entered == s.hits + s.entered && t.cancelled == s.cancelled
  {
  }

  lemma {:induction false} WorkIsBounded(s: State, steps: seq<Step>)
    requires IsRun(s, steps) && s.cfg.handler.CountThenSchedule? && forall k | k in steps :: IsBottomHalfStep(k)
    ensures var t := After(s, steps);
            && |steps| + Remaining(t) <= Remaining(s)
            && t.hits + t.entered == s.hits + s.entered && t.cancelled == s.cancelled
    decreases |steps|
  {
    if steps == [] {
    } else {
      StepShrinksWork(s, steps[0]);
      WorkIsBounded(Apply(s, steps[0]), steps[1..]);
    }
  }

  lemma {:induction false} StuckMeansSettled(s: State)
    requires forall k | IsBottomHalfStep(k) :: !Enabled(s, k)
    requires Inv(s) && s.cfg.handler.CountThenSchedule?
    ensures Settled(s) && s.entered == 0
  {
    forall k | k in [IrqCount, IrqHandOff, WorkCall, WorkCount, WorkObserve, WorkFinish] ensures !Enabled(s, k) {
      assert IsBottomHalfStep(k);
    }
    assert !Enabled(s, IrqCount) && !Enabled(s, IrqHandOff) && !Enabled(s, WorkCount)
        && !Enabled(s, WorkObserve) && !Enabled(s, WorkFinish) && !Enabled(s, WorkCall);
  }

  /**
   Once interrupts stop arriving, every schedule of the remaining steps is finite, and one that can go
   no further has observed every interrupt (workqueue) or run once for each (threaded), unless the
   unload path dropped the queued run.
   */
  lemma {:induction false} EveryScheduleSettles(threaded: bool, s: State, steps: seq<Step>)
    requires Reachable(Source(threaded), s) && IsRun(s, steps)
    requires forall k | k in steps :: IsBottomHalfStep(k)
    ensures |steps| <= Remaining(s)
    ensures var t := After(s, steps);
            (forall k | IsBottomHalfStep(k) :: !Enabled(t, k)) ==>
              && t.hits == s.hits + s.entered
              && (s.cancelled == 0 ==> if threaded then t.done == t.hits else t.snapshot == t.hits)
  {
    ReachableInv(Source(threaded), s);
    RunKeepsInv(s, steps);
    WorkIsBounded(s, steps);
    var t := After(s, steps);
    if forall k | IsBottomHalfStep(k) :: !Enabled(t, k) {
      StuckMeansSettled(t);
    }
  }

  // ----- Unloading -----

  /** Nothing of the driver is active and nothing can become active. */
  predicate Dead(s: State) {
    && s.entered == 0 && s.midway == 0 && !s.pending && s.wakes == 0 && s.worker.Idle?
    && forall k :: !Enabled(s, k)
  }

  /** `bh_exit` frees the interrupt before it cancels the work: the pin is released only when all is dead. */
  lemma {:induction false} UnloadLeavesNothingRunning(threaded: bool, s: State)
    requires Reachable(Source(threaded), s) && !s.gpioHeld
    ensures Dead(s)
  {
    ReachableInv(Source(threaded), s);
  }

  ghost predicate ReleasesOnlyDead(cfg: Config) {
    forall s | Reachable(cfg, s) && !s.gpioHeld :: Dead(s)
  }

  /**
   The order of the two calls is what makes unloading safe: of the two orders, exactly the one `bh_exit` uses
   releases the pin only in dead states.
   */
  lemma {:induction false} FreeFirstIsTheOnlySafeOrder(teardown: Teardown)
    ensures ReleasesOnlyDead(Config(CountThenSchedule, teardown, false)) <==> teardown == FreeThenCancel
  {
    if teardown == FreeThenCancel {
      forall s | Reachable(Source(false), s) && !s.gpioHeld ensures Dead(s) {
        UnloadLeavesNothingRunning(false, s);
      }
    } else {
      var s := CancelFirstReleasesUnderPendingWork(Config(CountThenSchedule, teardown, false));
      assert !Dead(s);
    }
  }

  /** In the opposite order a handler can slip in between the two calls and queue the work again. */
  lemma {:induction false} CancelFirstReleasesUnderPendingWork(cfg: Config) returns (s: State)
    requires cfg.handler.CountThenSchedule? && cfg.teardown.CancelThenFree? && !cfg.threaded
    ensures Reachable(cfg, s)
    ensures !s.gpioHeld && s.pending && Enabled(s, WorkCall)
  {
    var t := CancelThenInterrupt(cfg);
    s := FreeAndRelease(t);
  }

  lemma {:induction false} CancelThenInterrupt(cfg: Config) returns (t: State)
    requires cfg.handler.CountThenSchedule? && cfg.teardown.CancelThenFree? && !cfg.threaded
    ensures t == Init(cfg).(hits := 1, pending := true, work := Stopped) && Reachable(cfg, t)
  {
    t := CancelWhileLive(cfg);
    t := InterruptArrives(t);
  }

  lemma {:induction false} CancelWhileLive(cfg: Config) returns (t: State)
    requires cfg.teardown.CancelThenFree?
    ensures t == Init(cfg).(work := Stopped) && Reachable(cfg, t)
  {
    InitReachable(cfg);
    t := Extend(Init(cfg), CancelBegin);
    t := Extend(t, CancelEnd);
  }

  lemma {:induction false} FreeAndRelease(t: State) returns (s: State)
    requires Reachable(t.cfg, t) && !t.cfg.threaded && t.cfg.teardown.CancelThenFree? && t.gpioHeld
    requires t.irq.Live? && t.work.Stopped? && t.entered == t.midway == 0
    ensures s == t.(irq := Stopped, gpioHeld := false) && Reachable(s.cfg, s)
  {
    s := Extend(t, FreeBegin);
    s := Extend(s, FreeEnd);
    s := Extend(s, ReleaseGpio);
  }

  /** A handler that runs through: it leaves the item pending and nothing else changed but the counts. */
  lemma {:induction false} InterruptArrives(s: State) returns (t: State)
    requires Reachable(s.cfg, s) && s.irq.Live? && s.cfg.handler.CountThenSchedule? && !s.cfg.threaded && !s.pending
    ensures t == s.(hits := s.hits + 1, pending := true) && Reachable(t.cfg, t)
  {
    t := Extend(s, IrqEnter);
    t := Extend(t, IrqCount);
    t := Extend(t, IrqHandOff);
  }

  // ----- When unloading drops a queued run -----

  /** A run is queued, or a handler in flight is going to queue one. */
  predicate RunDue(s: State) { s.pending || s.entered + s.midway > 0 }

  /** Unloading has begun, in workqueue mode, and every fact the interleavings keep holds. */
  predicate Unloading(s: State) { s.cfg == Source(false) && Inv(s) && !s.irq.Live? }

  lemma {:induction false} NothingDueNothingDropped(s: State, steps: seq<Step>)
    requires Unloading(s) && !RunDue(s) && IsRun(s, steps)
    ensures After(s, steps).cancelled == s.cancelled && !RunDue(After(s, steps))
    decreases |steps|
  {
    if steps == [] {
    } else {
      StepKeepsInv(s, steps[0]);
      NothingDueNothingDropped(Apply(s, steps[0]), steps[1..]);
    }
  }

  /** How far the unload path has still to go. */
  function Stage(s: State): nat {
    (match s.irq case Live => 2 case Stopping => 1 case Stopped => 0)
    + (match s.work case Live => 2 case Stopping => 1 case Stopped => 0) + Bit(s.gpioHeld)
  }

  /** The next step of a schedule that unloads, with (`spare`) or without letting queued work run first. */
  function NextStep(s: State, spare: bool): Step {
    if s.irq.Stopping? then
      if s.entered > 0 then IrqCount
      else if s.midway > 0 then IrqHandOff
      else if spare && (s.pending || !s.worker.Idle?) then WorkerStep(s.worker)
      else FreeEnd
    else if s.work.Live? then CancelBegin
    else if s.work.Stopping? then (if s.worker.Idle? then CancelEnd else WorkerStep(s.worker))
    else ReleaseGpio
  }

  function WorkerStep(w: Worker): Step {
    match w case Idle => WorkCall case Called => WorkCount case Counted => WorkObserve case Asleep => WorkFinish
  }

  /** What such a schedule keeps: nothing dropped, or one run dropped or due to be. */
  predicate OnCourse(s: State, spare: bool) {
    if spare then s.cancelled == 0 && (s.irq.Stopped? ==> !s.pending)
    else s.cancelled == 1 || (s.work.Live? && RunDue(s))
  }

  lemma NextStepAdvances(s: State, spare: bool)
    requires Unloading(s) && s.gpioHeld && OnCourse(s, spare)
    ensures var k := NextStep(s, spare);
      && Enabled(s, k)
      && var t := Apply(s, k);
         && t.cfg == s.cfg && !t.irq.Live? && OnCourse(t, spare)
         && (Stage(t) < Stage(s) || (Stage(t) == Stage(s) && Remaining(t) < Remaining(s)))
  {
  }

  lemma {:induction false} Schedule(s: State, spare: bool) returns (steps: seq<Step>, t: State)
    requires Unloading(s) && OnCourse(s, spare)
    ensures Reaches(s, steps, t) && !t.gpioHeld && t.cancelled == if spare then 0 else 1
    decreases Stage(s), Remaining(s)
  {
    if !s.gpioHeld {
      steps, t := [], s;
    } else {
      var k := NextStep(s, spare);
      NextStepAdvances(s, spare);
      StepKeepsInv(s, k);
      var rest;
      rest, t := Schedule(Apply(s, k), spare);
      steps := [k] + rest;
      assert steps[1..] == rest;
    }
  }

  ghost predicate SomeUnloadDrops(s: State, n: nat) {
    exists steps, t :: Reaches(s, steps, t) && !t.gpioHeld && t.cancelled == n
  }

  /**
   Whether `bh_exit` drops a queued run is up to the schedule: once the interrupt is being freed, some schedule drops
   one if and only if one is pending or a handler is in flight, and some schedule always lets it run first.
   */
  lemma {:induction false} UnloadCanDropExactlyWhatIsDue(s: State)
    requires Reachable(Source(false), s) && s.irq.Stopping?
    ensures SomeUnloadDrops(s, 1) <==> RunDue(s)
    ensures SomeUnloadDrops(s, 0)
  {
    ReachableInv(Source(false), s);
    var steps, t := Schedule(s, true);
    if RunDue(s) {
      steps, t := Schedule(s, false);
    } else {
      forall steps, t | Reaches(s, steps, t) ensures t.cancelled == 0 {
        NothingDueNothingDropped(s, steps);
      }
    }
  }

  lemma InitReachable(cfg: Config)
    ensures Reachable(cfg, Init(cfg))
  {
    assert Reaches(Init(cfg), [], Init(cfg));
  }

  lemma {:induction false} Extend(s: State, step: Step) returns (t: State)
    requires Reachable(s.cfg, s) && Enabled(s, step)
    ensures t == Apply(s, step) && t.cfg == s.cfg && Reachable(t.cfg, t)
  {
    t := Apply(s, step);
    var steps :| Reaches(Init(s.cfg), steps, s);
    RunsExtend(Init(s.cfg), steps, step);
    assert Reaches(Init(s.cfg), steps + [step], t);
  }

  lemma {:induction false} RunsExtend(s: State, steps: seq<Step>, step: Step)
    requires IsRun(s, steps) && Enabled(After(s, steps), step)
    ensures IsRun(s, steps + [step]) && After(s, steps + [step]) == Apply(After(s, steps), step)
    decreases |steps|
  {
    if steps == [] {
      var t := Apply(s, step);
      assert ([step])[1..] == [];
      assert IsRun(t, []) && After(t, []) == t;
    } else {
      assert (steps + [step])[1..] == steps[1..] + [step];
      RunsExtend(Apply(s, steps[0]), steps[1..], step);
    }
  }
}
