/**
 The driver object of `09-irq-bottom-half/irqbh.c`: its counters and work item, updated in place by the
 atomic steps of `IrqBottomHalf`, and the self-triggering toggle loop of `bh_init` on a virtual clock.
 */
module IrqDriver {
  import opened IrqBottomHalf

  // ----- The arithmetic of merging -----

  function CeilDiv(t: nat, b: nat): nat
    requires b > 0
  {
    (t + b - 1) / b
  }

  /**
   Runs of the work function for `n` interrupts spaced `gap` apart when one run lasts `body`: one each
   when the gap is longer than a run; otherwise one at once and one per started body until the last
   interrupt has been picked up.
   */
  function ExpectedRuns(n: nat, gap: nat, body: nat): nat
    requires body > 0
  {
    if n == 0 then 0
    else if gap > body then n
    else 1 + CeilDiv((n - 1) * gap, body)
  }

  lemma CeilDivAtMost(t: nat, b: nat, q: nat)
    requires b > 0
    ensures CeilDiv(t, b) <= q <==> t <= q * b
  {
    var c := CeilDiv(t, b);
    assert c * b <= t + b - 1 < c * b + b;
    if c <= q { Monotone(c, q, b); } else { Monotone(q + 1, c, b); }
  }

  lemma CeilDivIs(t: nat, b: nat, q: nat)
    requires b > 0 && t <= q * b && (q == 0 || (q - 1) * b < t)
    ensures CeilDiv(t, b) == q
  {
    CeilDivAtMost(t, b, q);
    if q > 0 { CeilDivAtMost(t, b, q - 1); }
  }

  lemma Monotone(a: nat, c: nat, b: nat)
    requires a <= c
    ensures a * b <= c * b
  {
  }

  lemma OneMore(k: nat, b: nat)
    ensures (k + 1) * b == k * b + b
  {
  }

  /** Exactly when some runs merge: when the last interrupt arrives while the run before last is still due. */
  lemma {:induction false} MergesExactlyWhenTooFast(n: nat, gap: nat, body: nat)
    requires gap > 0 && body > 0
    ensures ExpectedRuns(n, gap, body) <= n
    ensures ExpectedRuns(n, gap, body) < n <==> n >= 2 && (n - 1) * gap <= (n - 2) * body
  {
    if n > 0 && gap <= body {
      var t := (n - 1) * gap;
      CeilDivAtMost(t, body, n - 1);
      assert t <= (n - 1) * body;
      if n > 1 { CeilDivAtMost(t, body, n - 2); }
    } else if n > 1 {
      OneMore(n - 2, gap);
      assert (n - 2) * gap >= (n - 2) * body;
    }
  }

  // ----- The driver -----

  lemma StoppedIsDead(s: State)
    requires s.entered == 0 && s.midway == 0 && !s.pending && s.wakes == 0 && s.worker.Idle?
    requires s.irq.Stopped? && s.work.Stopped? && !s.gpioHeld
    ensures Dead(s)
  {
  }

  lemma {:induction false} MeanwhileKeeps(s: State, steps: seq<Step>)
    requires IsRun(s, steps) && s.cfg.handler.CountThenSchedule? && forall k | k in steps :: IsBottomHalfStep(k)
    ensures var t := After(s, steps);
      t.irq == s.irq && t.work == s.work && t.hits + t.entered == s.hits + s.entered
    decreases |steps|
  {
    if steps == [] {
    } else {
      assert steps[0] in steps;
      MeanwhileKeeps(Apply(s, steps[0]), steps[1..]);
    }
  }

  lemma StoppedFacts(s: State)
    requires Inv(s) && s.cfg.handler.CountThenSchedule? && s.irq.Stopped? && !s.pending && s.worker.Idle?
    ensures s.entered == s.midway == 0 && (s.cfg.threaded ==> s.wakes == 0 && s.merged == s.cancelled == 0)
    ensures s.wakes == 0 && s.hits == s.done + s.merged + s.cancelled
    ensures !s.cfg.threaded && s.cancelled == 0 ==> s.snapshot == s.hits
  {
  }

  class Driver {
    const threaded: bool
    var entered: nat
    var midway: nat
    var irqHits: nat
    var bhDone: nat
    var pending: bool
    var wakes: nat
    var worker: Worker
    var hit: nat
    var irq: Stop
    var work: Stop
    var gpioHeld: bool
    var level: bool        // the self-driven pin
    ghost var merged: nat
    ghost var cancelled: nat

    ghost function View(): State
      reads this
    {
      State(Source(threaded), entered, midway, irqHits, bhDone, pending, wakes, worker, hit, merged, cancelled,
            irq, work, gpioHeld)
    }

    /** `bh_init` up to and including the interrupt request; the pin starts low. */
    constructor (threaded: bool)
      ensures View() == Init(Source(threaded)) && !level
    {
      this.threaded := threaded;
      entered, midway, irqHits, bhDone, wakes, hit, merged, cancelled := 0, 0, 0, 0, 0, 0, 0, 0;
      pending, worker, irq, work, gpioHeld, level := false, Idle, Live, Live, true, false;
    }

    // The atomic steps of the handler and of the bottom half, in either mode.

    method EnterHandler()
      requires Enabled(View(), IrqEnter)
      modifies this`entered
      ensures View() == Apply(old(View()), IrqEnter)
    {
      entered := entered + 1;
    }

    /** atomic_inc(&irq_hits) */
    method CountInterrupt()
      requires Enabled(View(), IrqCount)
      modifies this`entered, this`midway, this`irqHits
      ensures View() == Apply(old(View()), IrqCount)
    {
      entered, midway := entered - 1, midway + 1;
      irqHits := irqHits + 1;
    }

    /** The rest of the handler: schedule_work, or the wake-up of the irq thread. */
    method HandOff()
      requires Enabled(View(), IrqHandOff)
      modifies this`midway, this`pending, this`wakes, this`merged
      ensures View() == Apply(old(View()), IrqHandOff)
    {
      midway := midway - 1;
      if threaded {
        wakes := wakes + 1;
      } else if pending {
        merged := merged + 1;
      } else {
        pending := true;
      }
    }

    /** The kernel takes the item off the queue, or the thread its wake-up, and calls the function. */
    method CallWork()
      requires Enabled(View(), WorkCall)
      modifies this`pending, this`wakes, this`worker
      ensures View() == Apply(old(View()), WorkCall)
    {
      if threaded {
        wakes := wakes - 1;
      } else {
        pending := false;
      }
      worker := Called;
    }

    /** atomic_inc_return(&bh_done); thread_fn goes on to its sleep, wq_fn to its look at the counter. */
    method CountRun() returns (seqNo: nat)
      requires Enabled(View(), WorkCount)
      modifies this`bhDone, this`worker
      ensures View() == Apply(old(View()), WorkCount) && seqNo == bhDone
    {
      bhDone := bhDone + 1;
      seqNo := bhDone;
      worker := if threaded then Asleep else Counted;
    }

    /** atomic_read(&irq_hits) */
    method ObserveHits()
      requires Enabled(View(), WorkObserve)
      modifies this`hit, this`worker
      ensures View() == Apply(old(View()), WorkObserve)
    {
      hit := irqHits;
      worker := Asleep;
    }

    /** An edge whose handler is not interleaved with anything. */
    method HardHandler()
      requires Enabled(View(), IrqEnter)
      modifies this`entered, this`midway, this`irqHits, this`pending, this`wakes, this`merged
      ensures View() == Apply(Apply(Apply(old(View()), IrqEnter), IrqCount), IrqHandOff)
    {
      EnterHandler();
      CountInterrupt();
      HandOff();
    }

    /** `wq_fn` or `thread_fn` as far as its sleep, not interleaved with anything. */
    method StartRun()
      requires Enabled(View(), WorkCall)
      modifies this`pending, this`wakes, this`worker, this`bhDone, this`hit
      ensures var counted := Apply(Apply(old(View()), WorkCall), WorkCount);
        View() == if threaded then counted else Apply(counted, WorkObserve)
    {
      CallWork();
      var seqNo := CountRun();
      if !threaded {
        ObserveHits();
      }
    }

    method FinishWork()
      requires Enabled(View(), WorkFinish)
      modifies this`worker
      ensures View() == Apply(old(View()), WorkFinish)
    {
      worker := Idle;
    }

    /** One step of the handlers, of the bottom half or of the unload path. */
    method Act(step: Step)
      requires Enabled(View(), step)
      modifies this
      ensures View() == Apply(old(View()), step) && level == old(level)
    {
      match step
      case IrqEnter => EnterHandler();
      case IrqCount => CountInterrupt();
      case IrqHandOff => HandOff();
      case WorkCall => CallWork();
      case WorkCount => var seqNo := CountRun();
      case WorkObserve => ObserveHits();
      case WorkFinish => FinishWork();
      case FreeBegin => irq := Stopping;
      case FreeEnd => irq := Stopped;
      case CancelBegin => DropQueued();
      case CancelEnd => work := Stopped;
      case ReleaseGpio => gpioHeld := false;
    }

    /** The same after `steps` from `start`. */
    method Do(step: Step, ghost start: State, ghost steps: seq<Step>) returns (ghost steps': seq<Step>)
      requires Inv(View()) && Enabled(View(), step) && Reaches(start, steps, View())
      modifies this
      ensures View() == Apply(old(View()), step) && Inv(View()) && level == old(level)
      ensures steps' == steps + [step] && Reaches(start, steps', View())
    {
      RunsExtend(start, steps, step);
      StepKeepsInv(View(), step);
      steps' := steps + [step];
      Act(step);
    }

    /** cancel_work_sync, first half: a queued run is taken off the queue. */
    method DropQueued()
      requires Enabled(View(), CancelBegin)
      modifies this`work, this`pending, this`cancelled
      ensures View() == Apply(old(View()), CancelBegin)
    {
      work := Stopping;
      if pending {
        pending, cancelled := false, cancelled + 1;
      }
    }

    /** The steps of `schedule`, one after the other. */
    method Perform(schedule: seq<Step>, ghost start: State, ghost steps: seq<Step>) returns (ghost steps': seq<Step>)
      requires Inv(View()) && IsRun(View(), schedule) && Reaches(start, steps, View())
      modifies this
      ensures View() == After(old(View()), schedule) && Inv(View()) && Reaches(start, steps', View())
      decreases |schedule|
    {
      steps' := steps;
      if schedule != [] {
        steps' := Do(schedule[0], start, steps');
        steps' := Perform(schedule[1..], start, steps');
      }
    }

    /** The handlers in flight go through both their statements, and the irq thread through every wake-up. */
    method Drain(ghost start: State, ghost steps: seq<Step>) returns (ghost steps': seq<Step>)
      requires Inv(View()) && Reaches(start, steps, View())
      modifies this
      ensures Inv(View()) && Reaches(start, steps', View()) && irq == old(irq) && work == old(work)
      ensures entered == midway == 0 && (threaded ==> wakes == 0 && worker.Idle?)
      ensures irqHits == old(irqHits) + old(entered)
      ensures !threaded && old(entered) + old(midway) == 0 ==> View() == old(View())
    {
      steps' := steps;
      while entered > 0 || midway > 0 || (threaded && (worker != Idle || wakes > 0))
        invariant Inv(View()) && Reaches(start, steps', View()) && irq == old(irq) && work == old(work)
        invariant irqHits + entered == old(irqHits) + old(entered)
        invariant !threaded && old(entered) + old(midway) == 0 ==> View() == old(View())
        decreases Remaining(View())
      {
        var next := if entered > 0 then IrqCount else if midway > 0 then IrqHandOff else WorkerStep(worker);
        StepShrinksWork(View(), next);
        steps' := Do(next, start, steps');
      }
    }

    /**
     `free_irq`: no new handler, then the wait for the handlers in flight and for the irq thread.  `meanwhile` is what
     handlers and bottom half do in any order of their own before the wait has seen all of them through.
     */
    method FreeIrq(meanwhile: seq<Step>) returns (ghost steps: seq<Step>)
      requires Inv(View()) && Enabled(View(), FreeBegin)
      requires IsRun(Apply(View(), FreeBegin), meanwhile) && forall k | k in meanwhile :: IsBottomHalfStep(k)
      modifies this
      ensures Reaches(old(View()), steps, View()) && Inv(View())
      ensures irq.Stopped? && work == old(work) && irqHits == old(irqHits) + old(entered)
      ensures !threaded && !RunDue(old(View())) ==> !pending
    {
      ghost var start := View();
      steps := Do(FreeBegin, start, []);
      MeanwhileKeeps(View(), meanwhile);
      if !threaded && !RunDue(View()) { NothingDueNothingDropped(View(), meanwhile); }
      steps := Perform(meanwhile, start, steps);
      steps := Drain(start, steps);
      steps := Do(FreeEnd, start, steps);
    }

    /** A running function reaches its end. */
    method FinishRun(ghost start: State, ghost steps: seq<Step>) returns (ghost steps': seq<Step>)
      requires Inv(View()) && Reaches(start, steps, View())
      modifies this
      ensures Reaches(start, steps', View()) && Inv(View()) && level == old(level)
      ensures var done := old(View()).(worker := Idle, done := old(bhDone) + Bit(old(worker).Called?));
        var looks := !threaded && (old(worker).Called? || old(worker).Counted?);
        View() == if looks then done.(snapshot := irqHits) else done
    {
      steps' := steps;
      if worker == Called {
        steps' := Do(WorkCount, start, steps');
      }
      if worker == Counted {
        steps' := Do(WorkObserve, start, steps');
      }
      if worker == Asleep {
        steps' := Do(WorkFinish, start, steps');
      }
    }

    /** `cancel_work_sync`: drops a queued run and lets a running function reach its end. */
    method CancelWorkSync(ghost start: State, ghost steps: seq<Step>) returns (ghost steps': seq<Step>)
      requires Inv(View()) && Enabled(View(), CancelBegin) && Reaches(start, steps, View())
      modifies this
      ensures Reaches(start, steps', View()) && Inv(View())
      ensures worker.Idle? && !pending && work.Stopped?
      ensures cancelled == old(cancelled) + Bit(old(pending))
      ensures irqHits == old(irqHits) && irq == old(irq) && gpioHeld == old(gpioHeld)
      ensures entered == old(entered) && midway == old(midway) && wakes == old(wakes) && merged == old(merged)
      ensures bhDone == old(bhDone) + Bit(old(worker).Called?)
      ensures !threaded ==> hit == if old(worker).Called? || old(worker).Counted? then irqHits else old(hit)
    {
      steps' := Do(CancelBegin, start, steps);
      steps' := FinishRun(start, steps');
      steps' := Do(CancelEnd, start, steps');
    }

    /**
     `bh_exit` in any reachable state of the loaded driver, in either mode and with any activity while it waits: it is
     a run of the protocol; afterwards all is dead, every interrupt is accounted for, and the last observation is
     complete unless a queued run had to be dropped, which then was queued or in flight at the start.
     */
    method Exit(meanwhile: seq<Step>) returns (ghost steps: seq<Step>)
      requires Inv(View()) && irq.Live? && work.Live? && gpioHeld
      requires IsRun(Apply(View(), FreeBegin), meanwhile) && forall k | k in meanwhile :: IsBottomHalfStep(k)
      modifies this
      ensures Reaches(old(View()), steps, View()) && Dead(View()) && !gpioHeld && !level
      ensures irqHits == old(irqHits) + old(entered) == bhDone + merged + cancelled
      ensures cancelled <= Bit(!threaded && RunDue(old(View())))
      ensures if threaded then bhDone == irqHits else cancelled == 0 ==> hit == irqHits
    {
      ghost var start := View();
      steps := FreeIrq(meanwhile);
      steps := CancelWorkSync(start, steps);
      level := false;
      StoppedFacts(View());
      steps := Do(ReleaseGpio, start, steps);
      StoppedIsDead(View());
    }

    // ----- The toggle loop -----

    /** What holds between two toggles in either mode: `n` interrupts so far, all accounted for. */
    ghost predicate Quiet(n: nat)
      reads this
    {
      && irq.Live? && work.Live? && entered == 0 && midway == 0 && cancelled == 0
      && irqHits == n == bhDone + merged + wakes + Bit(pending) && level == (n % 2 == 1)
      && if threaded then !pending && merged == 0 else wakes == 0
    }

    /** The irq thread sleeps in a run, or has nothing to do. */
    ghost predicate ThreadAtRest()
      reads this
    {
      worker.Asleep? || (worker.Idle? && wakes == 0)
    }

    /** The work function after `n` interrupts, the last at `t`; the current body ends at `end`. */
    ghost predicate WorkAt(n: nat, gap: nat, body: nat, t: nat, end: nat)
      reads this
    {
      && (n == 0 ==> bhDone == 0 && !pending && worker.Idle? && hit == 0)
      && (n > 0 ==>
            && worker.Asleep? && t == (n - 1) * gap && (!pending ==> hit == n)
            && if gap > body then bhDone == n && end == t + body && !pending
               else && bhDone > 0 && end == bhDone * body
                    && (bhDone - 1) * body <= t <= end && pending == ((bhDone - 1) * body < t))
    }

    ghost predicate Toggled(n: nat, gap: nat, body: nat, t: nat, end: nat)
      reads this
    {
      Quiet(n) && if threaded then ThreadAtRest() else WorkAt(n, gap, body, t, end)
    }

    /** The work function just before the next interrupt, at `now`. */
    ghost predicate WorkBefore(n: nat, gap: nat, body: nat, now: nat, end: nat)
      reads this
    {
      && (n == 0 ==> bhDone == 0 && worker.Idle? && !pending)
      && (n > 0 && gap > body ==> worker.Idle? && !pending && bhDone == n)
      && (n > 0 && gap <= body ==>
            worker.Asleep? && bhDone > 0 && end == bhDone * body && (bhDone - 1) * body < now <= end)
    }

    /** Lets the worker run for the time strictly before `now`; an interrupt at that instant comes first. */
    method WorkUntil(now: nat, end: nat, ghost n: nat, gap: nat, body: nat, ghost t: nat) returns (end': nat)
      requires body > 0 && gap > 0 && n > 0 && now == t + gap && !threaded && Toggled(n, gap, body, t, end)
      modifies this`pending, this`wakes, this`worker, this`bhDone, this`hit
      ensures Quiet(n) && WorkBefore(n, gap, body, now, end')
    {
      end' := end;
      if end' < now {
        FinishWork();
        if pending {
          StartRun();
          OneMore(bhDone - 1, body);
          end' := end' + body;
        }
      }
    }

    /** The irq thread likewise: it takes up one wake-up after the other. */
    method ThreadUntil(now: nat, end: nat, ghost n: nat, body: nat) returns (end': nat)
      requires threaded && Quiet(n) && ThreadAtRest()
      modifies this`pending, this`wakes, this`worker, this`bhDone, this`hit
      ensures Quiet(n) && ThreadAtRest()
    {
      end' := end;
      while worker == Asleep && end' < now
        invariant Quiet(n) && ThreadAtRest()
        decreases wakes, worker == Asleep
      {
        FinishWork();
        if wakes > 0 {
          StartRun();
          end' := end' + body;
        }
      }
    }

    /** The edge of toggle `i` and its handler. */
    method Edge(i: nat) returns (edge: bool)
      requires i > 0 && Quiet(i - 1)
      modifies this`level, this`entered, this`midway, this`irqHits, this`pending, this`wakes, this`merged
      ensures edge && Quiet(i) && (if threaded then wakes > 0 else pending)
    {
      var value := i % 2 == 1;
      edge := value != level;
      level := value;
      if edge {
        HardHandler();
      }
    }

    /** The next toggle: an edge on the pin, the handler, and a worker that starts at once if it is idle. */
    method Toggle(i: nat, now: nat, end: nat, gap: nat, body: nat) returns (edge: bool, end': nat)
      requires body > 0 && gap > 0 && i > 0 && now == (i - 1) * gap && Quiet(i - 1)
      requires if threaded then ThreadAtRest() else WorkBefore(i - 1, gap, body, now, end)
      modifies this
      ensures edge && Toggled(i, gap, body, now, end')
    {
      end' := end;
      edge := Edge(i);
      if worker == Idle {
        StartRun();
        end' := now + body;
      }
    }

    /** The wait after the last toggle: whatever is queued runs. */
    method Settle(ghost n: nat, ghost gap: nat, ghost body: nat, ghost t: nat, ghost end: nat)
      requires body > 0 && gap > 0 && Toggled(n, gap, body, t, end)
      modifies this`pending, this`wakes, this`worker, this`bhDone, this`hit
      ensures Quiet(n) && Settled(View())
      ensures !threaded ==> hit == n && bhDone == old(bhDone) + Bit(old(pending))
    {
      if worker == Asleep {
        FinishWork();
      }
      if threaded {
        while wakes > 0
          invariant Quiet(n) && worker.Idle?
        {
          StartRun();
          FinishWork();
        }
      } else if pending {
        StartRun();
        FinishWork();
      }
    }

    /**
     `n` toggles with value `i & 1` from low, `gap` apart, with the worker running beside them, then a wait that is long
     enough: exactly `n` edges, all observed, and exactly the expected number of runs, which in threaded mode is `n`.
     */
    method ToggleLoop(n: nat, gap: nat, body: nat) returns (edges: nat)
      requires body > 0 && gap > 0
      requires View() == Init(Source(threaded)) && !level
      modifies this
      ensures edges == irqHits == n && level == (n % 2 == 1) && Settled(View())
      ensures bhDone == (if threaded then n else ExpectedRuns(n, gap, body)) && merged == n - bhDone
      ensures !threaded ==> hit == n
    {
      edges := 0;
      var i, now: nat, end: nat := 1, 0, 0;
      ghost var t := 0;
      while i <= n
        invariant 1 <= i <= n + 1 && edges == i - 1 && now == (i - 1) * gap && (i > 1 ==> now == t + gap)
        invariant Toggled(i - 1, gap, body, t, end)
      {
        if threaded {
          end := ThreadUntil(now, end, i - 1, body);
        } else if i > 1 {
          end := WorkUntil(now, end, i - 1, gap, body, t);
        }
        var edge;
        edge, end := Toggle(i, now, end, gap, body);
        edges := edges + (if edge then 1 else 0);
        t := now;
        OneMore(i - 1, gap);
        now := now + gap;
        i := i + 1;
      }
      ghost var runs := bhDone;
      Settle(n, gap, body, t, end);
      if n > 0 && gap <= body && !threaded {
        CountsAgree(n, gap, body, t, runs, bhDone);
      }
    }
  }

  lemma CountsAgree(n: nat, gap: nat, body: nat, t: nat, runs: nat, total: nat)
    requires n > 0 && 0 < gap <= body && t == (n - 1) * gap && runs > 0
    requires (runs - 1) * body <= t <= runs * body
    requires total == if (runs - 1) * body < t then runs + 1 else runs
    ensures total == ExpectedRuns(n, gap, body)
  {
    if (runs - 1) * body < t {
      CeilDivIs(t, body, runs);
    } else {
      if runs > 1 { OneMore(runs - 2, body); }
      CeilDivIs(t, body, runs - 1);
    }
  }

  /** The two cases the chapter describes: spacing 120 ms loses nothing, spacing 5 ms merges. */
  lemma ChapterCases()
    ensures ExpectedRuns(6, 120, 20) == 6
    ensures ExpectedRuns(6, 5, 20) == 3
  {
  }
}
