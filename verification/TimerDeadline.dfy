/** Deadlines of the Time Manager: an expired task fires in every interleaving that lets both
    threads run, and the one way in which the timer thread can sleep past a deadline. */
module TimerDeadline {
  import opened Bytes
  import opened TimerTime
  import opened TaskList
  import opened TimerProtocol

  /** Nobody re-primes, removes or re-inserts the task. */
  predicate Leaves(step: Step, t: Task) {
    && !step.TimerReset?
    && (step.InsTime? || step.RmvBegin? || step.PrimeBegin? ==> step.task != t)
  }

  predicate AllLeave(steps: seq<Step>, t: Task) {
    forall step | step in steps :: Leaves(step, t)
  }

  /** The task is scheduled for this time, which has passed. */
  predicate Pending(s: State, shot: Shot) {
    && shot.task in s.order && shot.task in s.active && !RemovingTask(s, shot.task)
    && WakeupOf(s.wakeup, shot.task) == shot.wakeup < s.clock
  }

  /** An interrupt under way has the task still ahead of it. */
  predicate Ahead(s: State, shot: Shot) {
    s.irq.Seen? || s.irq.Cleared? || (Walking(s) && shot.task in Rest(s) && shot.wakeup <= s.irq.now)
  }

  /** The interrupt will fire the task, or has fired it more than `before` times. */
  predicate Caught(s: State, shot: Shot, before: nat) {
    s.fired[shot] > before || (Pending(s, shot) && Ahead(s, shot))
  }

  /** So it will, or the interrupt is pending. */
  predicate Flagged(s: State, shot: Shot, before: nat) {
    s.fired[shot] > before || (Pending(s, shot) && (Ahead(s, shot) || s.flag))
  }

  /** So it will, or the timer thread is going to raise the interrupt when it next looks. */
  predicate Watched(s: State, shot: Shot, before: nat) {
    Flagged(s, shot, before) || (Pending(s, shot) && (s.thread.Raising? || (s.irq.Outside? && Armed(s, shot.wakeup))))
  }

  /** wakeup_time is early enough, or is being recomputed while the thread is locked out. */
  predicate Armed(s: State, w: int) {
    s.op.Reset? || s.op.Loop? || s.wakeupTime <= w
  }

  // ---------- steps that leave the task alone ----------

  /** The comparison finds a task due exactly from its wakeup time on. */
  lemma VisitTimes(s: State, t: Task, span: Span)
    requires Ordered(span) && Within(s, span) && Nested(s) && s.irq.Visit? && t in s.active
    ensures CmpTime(WakeupOf(s.wakeup, t), s.irq.now) <= 0 <==> WakeupOf(s.wakeup, t) <= s.irq.now
  {
    CmpTimeOrders(WakeupOf(s.wakeup, t), s.irq.now);
  }

  lemma OpKeepsPending(s: State, shot: Shot)
    requires Enabled(s, OpStep) && Pending(s, shot)
    ensures Pending(NextOp(s), shot) && NextOp(s).flag == s.flag
  {
    hide Sooner, Without, WakeupOf;
  }

  lemma IrqKeepsPending(s: State, shot: Shot)
    requires Nested(s) && Enabled(s, IrqStep) && Pending(s, shot)
    ensures NextIrq(s).fired[shot] > s.fired[shot] || Pending(NextIrq(s), shot)
  {
    hide CmpTime, NextOf;
  }

  lemma GuestKeepsPending(s: State, step: Step, shot: Shot)
    requires Enabled(s, step) && Leaves(step, shot.task) && Pending(s, shot)
    requires !step.OpStep? && !step.IrqStep?
    ensures Pending(Next(s, step), shot)
  {
    hide NextThread;
    if step.ThreadStep? {
      ThreadKeepsRest(s);
    }
  }

  lemma StepFires(s: State, step: Step, shot: Shot)
    requires Enabled(s, step)
    ensures Next(s, step).fired[shot] >= s.fired[shot]
  {
    hide Sooner, CmpTime, Without, NextOf, NextOp, NextThread;
    match step
    case OpStep => OpKeepsFired(s);
    case ThreadStep => ThreadKeepsRest(s);
    case _ =>
  }

  lemma OpKeepsCaught(s: State, shot: Shot)
    requires Sound(s) && Enabled(s, OpStep) && Pending(s, shot) && Ahead(s, shot)
    ensures Pending(NextOp(s), shot) && Ahead(NextOp(s), shot)
  {
    OpKeepsPending(s, shot);
    if Walking(s) {
      OpShortensRest(s);
    }
    OpKeepsIrq(s);
    hide NextOp, Pending, Rest;
  }

  lemma OpKeepsIrq(s: State)
    requires Nested(s) && Enabled(s, OpStep)
    ensures !s.irq.Closing? ==> NextOp(s).irq == s.irq
    ensures s.irq.Closing? ==> NextOp(s).irq.Closing? || NextOp(s).irq.Outside?
  {
    hide Sooner, Without;
  }

  lemma IrqKeepsCaught(s: State, shot: Shot, span: Span)
    requires Ordered(span) && Inv(s, span) && Enabled(s, IrqStep) && Pending(s, shot) && Ahead(s, shot)
    ensures NextIrq(s).fired[shot] > s.fired[shot] || (Pending(NextIrq(s), shot) && Ahead(NextIrq(s), shot))
  {
    IrqKeepsPending(s, shot);
    if Walking(s) {
      IrqShortensRest(s);
      if s.irq.Visit? && s.irq.desc == Some(shot.task) {
        VisitTimes(s, shot.task, span);
      }
    }
    hide CmpTime, NextOf, WakeupOf, Distinct, Within, Safe;
  }

  lemma GuestKeepsCaught(s: State, step: Step, shot: Shot)
    requires Sound(s) && Enabled(s, step) && Leaves(step, shot.task) && Pending(s, shot) && Ahead(s, shot)
    requires !step.OpStep? && !step.IrqStep?
    ensures Pending(Next(s, step), shot) && Ahead(Next(s, step), shot)
  {
    GuestKeepsPending(s, step, shot);
    if Walking(s) {
      GuestKeepsRest(s, step);
    }
    GuestKeepsIrq(s, step);
    hide Next, Pending, Rest;
  }

  lemma GuestKeepsIrq(s: State, step: Step)
    requires Enabled(s, step) && !step.OpStep? && !step.IrqStep?
    ensures Next(s, step).irq == s.irq && (s.flag ==> Next(s, step).flag)
    ensures !step.ThreadStep? ==> Next(s, step).wakeupTime == s.wakeupTime && Next(s, step).thread == s.thread
    ensures s.op.Reset? || s.op.Loop? ==> Next(s, step).op == s.op
  {
  }

  lemma StepKeepsCaught(s: State, step: Step, shot: Shot, before: nat, span: Span)
    requires Ordered(span) && Inv(s, span) && Enabled(s, step) && Leaves(step, shot.task)
    requires Caught(s, shot, before) && s.fired[shot] >= before
    ensures Caught(Next(s, step), shot, before)
  {
    StepFires(s, step, shot);
    if s.fired[shot] <= before {
      match step {
        case OpStep => OpKeepsCaught(s, shot);
        case IrqStep => IrqKeepsCaught(s, shot, span);
        case _ => GuestKeepsCaught(s, step, shot);
      }
    }
    hide Inv, Next, Pending, Ahead;
  }

  lemma StepKeepsFlagged(s: State, step: Step, shot: Shot, before: nat, span: Span)
    requires Ordered(span) && Inv(s, span) && Enabled(s, step) && Leaves(step, shot.task)
    requires Flagged(s, shot, before) && s.fired[shot] >= before
    ensures Flagged(Next(s, step), shot, before)
  {
    if Caught(s, shot, before) {
      StepKeepsCaught(s, step, shot, before, span);
    } else {
      match step {
        case OpStep => OpKeepsPending(s, shot);
        case IrqStep =>
          IrqKeepsPending(s, shot);
          IrqKeepsFlag(s);
        case _ =>
          GuestKeepsPending(s, step, shot);
          GuestKeepsIrq(s, step);
      }
    }
    hide Inv, Next, NextOp, NextIrq, Pending, Rest, Walking;
  }

  lemma IrqKeepsFlag(s: State)
    requires Enabled(s, IrqStep)
    ensures NextIrq(s).flag == (s.flag && !s.irq.Seen?)
    ensures NextIrq(s).thread == s.thread && NextIrq(s).wakeupTime == s.wakeupTime
    ensures s.irq.Outside? ==> NextIrq(s).irq == (if s.flag then Seen else Outside)
  {
    hide CmpTime, NextOf;
  }

  // ---------- the timer thread on guard ----------

  /** How many steps the timer thread is at most from raising the flag for the task. */
  function ToGo(s: State, shot: Shot, before: nat): nat {
    if Flagged(s, shot, before) then 0 else
    match s.thread
    case Raising => 1
    case Checking => 2
    case Waiting => 3
    case Snoozing(until) => 4
    case Captured(until) => 5
    case Awake => 6
    case Releasing => 7
  }

  lemma OpKeepsArmed(s: State, shot: Shot, span: Span)
    requires Ordered(span) && Inv(s, span) && Enabled(s, OpStep)
    requires Pending(s, shot) && s.irq.Outside? && Armed(s, shot.wakeup)
    ensures Armed(NextOp(s), shot.wakeup) && NextOp(s).irq.Outside?
  {
    if s.op.Loop? {
      if s.op.k == |s.order| {
        assert s.order[..s.op.k] == s.order;
        MinWakeupIsEarliest(s.order, s.wakeup, s.active, span);
      }
    }
    hide Sooner, MinWakeup, Without, Within, WakeupOf, Distinct, Covered;
  }

  /** Only the thread itself moves its wakeup time out of reach, and then it raises the flag. */
  lemma StepKeepsWatched(s: State, step: Step, shot: Shot, before: nat, span: Span)
    requires Ordered(span) && Inv(s, span) && Enabled(s, step) && Leaves(step, shot.task)
    requires Watched(s, shot, before) && s.fired[shot] >= before
    ensures Watched(Next(s, step), shot, before)
    ensures ToGo(Next(s, step), shot, before) <= ToGo(s, shot, before)
    ensures step.ThreadStep? && ToGo(s, shot, before) > 0 ==> ToGo(Next(s, step), shot, before) < ToGo(s, shot, before)
  {
    if Flagged(s, shot, before) {
      StepKeepsFlagged(s, step, shot, before, span);
      hide Inv, Next, Flagged;
    } else {
      match step
      case OpStep => OpKeepsWatched(s, shot, before, span);
      case IrqStep => IrqKeepsWatched(s, shot, before);
      case ThreadStep => ThreadKeepsWatched(s, shot, before);
      case _ => GuestKeepsWatched(s, step, shot, before);
    }
  }

  lemma OpKeepsWatched(s: State, shot: Shot, before: nat, span: Span)
    requires Ordered(span) && Inv(s, span) && Enabled(s, OpStep)
    requires Watched(s, shot, before) && !Flagged(s, shot, before)
    ensures Watched(NextOp(s), shot, before)
    ensures ToGo(NextOp(s), shot, before) <= ToGo(s, shot, before)
  {
    OpKeepsPending(s, shot);
    if s.irq.Outside? && Armed(s, shot.wakeup) {
      OpKeepsArmed(s, shot, span);
    }
    OpResumes(s);
    hide Inv, NextOp, Pending, Ahead, Armed;
  }

  lemma OpResumes(s: State)
    requires Enabled(s, OpStep)
    ensures NextOp(s).thread == s.thread || NextOp(s).thread == Resumed(s.thread)
  {
    hide Sooner, Without;
  }

  lemma IrqKeepsWatched(s: State, shot: Shot, before: nat)
    requires Nested(s) && Enabled(s, IrqStep)
    requires Watched(s, shot, before) && !Flagged(s, shot, before)
    ensures Watched(NextIrq(s), shot, before)
    ensures ToGo(NextIrq(s), shot, before) <= ToGo(s, shot, before)
  {
    IrqKeepsPending(s, shot);
    IrqKeepsFlag(s);
    IrqKeepsOp(s);
    hide Nested, NextIrq, Pending, Ahead;
  }

  lemma IrqKeepsOp(s: State)
    requires Enabled(s, IrqStep)
    ensures s.irq.Outside? ==> NextIrq(s).op == s.op
    ensures forall shot :: NextIrq(s).fired[shot] >= s.fired[shot]
  {
    hide CmpTime, NextOf;
  }

  lemma ThreadKeepsWatched(s: State, shot: Shot, before: nat)
    requires Exclusive(s) && Enabled(s, ThreadStep)
    requires Watched(s, shot, before) && !Flagged(s, shot, before)
    ensures Watched(NextThread(s), shot, before)
    ensures ToGo(NextThread(s), shot, before) < ToGo(s, shot, before)
  {
    GuestKeepsPending(s, ThreadStep, shot);
    hide Pending, Ahead;
    assert Pending(NextThread(s), shot) by {
      assert NextThread(s) == Next(s, ThreadStep);
    }
    assert s.thread.Checking? ==> s.wakeupTime < s.clock by {
      PendingIsLate(s, shot);
    }
  }

  lemma PendingIsLate(s: State, shot: Shot)
    requires Pending(s, shot)
    ensures shot.wakeup < s.clock
  {
  }

  lemma GuestKeepsWatched(s: State, step: Step, shot: Shot, before: nat)
    requires Enabled(s, step) && Leaves(step, shot.task)
    requires !step.OpStep? && !step.IrqStep? && !step.ThreadStep?
    requires Watched(s, shot, before) && !Flagged(s, shot, before)
    ensures Watched(Next(s, step), shot, before)
    ensures ToGo(Next(s, step), shot, before) <= ToGo(s, shot, before)
  {
    GuestKeepsPending(s, step, shot);
    GuestKeepsIrq(s, step);
    hide Next, Pending, Ahead;
  }

  // ---------- whole runs ----------

  /** How many steps of a run the timer thread takes. */
  function ThreadSteps(steps: seq<Step>): nat {
    if steps == [] then 0 else (if steps[0].ThreadStep? then 1 else 0) + ThreadSteps(steps[1..])
  }

  lemma {:induction false} RunKeepsCaught(s: State, steps: seq<Step>, shot: Shot, before: nat, span: Span)
    requires Ordered(span) && Inv(s, span) && Legal(s, steps)
    requires AllProper(steps, span) && AllLeave(steps, shot.task)
    requires Caught(s, shot, before) && s.fired[shot] >= before
    ensures Caught(After(s, steps), shot, before)
    decreases |steps|
  {
    if steps != [] {
      StepKeepsInv(s, steps[0], span);
      StepFires(s, steps[0], shot);
      StepKeepsCaught(s, steps[0], shot, before, span);
      hide Inv, Next, Caught, Proper, Leaves;
      RunKeepsCaught(Next(s, steps[0]), steps[1..], shot, before, span);
    }
  }

  lemma {:induction false} RunKeepsFlagged(s: State, steps: seq<Step>, shot: Shot, before: nat, span: Span)
    requires Ordered(span) && Inv(s, span) && Legal(s, steps)
    requires AllProper(steps, span) && AllLeave(steps, shot.task)
    requires Flagged(s, shot, before) && s.fired[shot] >= before
    ensures Flagged(After(s, steps), shot, before) && After(s, steps).fired[shot] >= before
    decreases |steps|
  {
    if steps != [] {
      StepKeepsInv(s, steps[0], span);
      StepFires(s, steps[0], shot);
      StepKeepsFlagged(s, steps[0], shot, before, span);
      hide Inv, Next, Flagged, Proper, Leaves;
      RunKeepsFlagged(Next(s, steps[0]), steps[1..], shot, before, span);
    }
  }

  lemma {:induction false} RunKeepsWatched(s: State, steps: seq<Step>, shot: Shot, before: nat, span: Span)
    requires Ordered(span) && Inv(s, span) && Legal(s, steps)
    requires AllProper(steps, span) && AllLeave(steps, shot.task)
    requires Watched(s, shot, before) && s.fired[shot] >= before
    ensures ThreadSteps(steps) >= ToGo(s, shot, before) ==> Flagged(After(s, steps), shot, before)
    ensures After(s, steps).fired[shot] >= before
    decreases |steps|
  {
    if steps != [] {
      StepKeepsInv(s, steps[0], span);
      StepFires(s, steps[0], shot);
      StepKeepsWatched(s, steps[0], shot, before, span);
      hide Inv, Next, Watched, Proper, Leaves, ToGo;
      RunKeepsWatched(Next(s, steps[0]), steps[1..], shot, before, span);
    } else {
      hide Inv;
    }
  }

  /** A due task fires before the interrupt is over, in every interleaving that leaves it alone. */
  lemma ExpiredTaskFires(s: State, steps: seq<Step>, shot: Shot, before: nat, span: Span)
    requires Ordered(span) && Inv(s, span) && Legal(s, steps)
    requires AllProper(steps, span) && AllLeave(steps, shot.task)
    requires Caught(s, shot, before) && s.fired[shot] >= before
    ensures var e := After(s, steps); e.irq.Outside? || e.irq.Closing? ==> e.fired[shot] > before
  {
    RunKeepsCaught(s, steps, shot, before, span);
    hide Inv, Pending;
  }

  /** A deadline is met in every interleaving.  Start in any reachable state outside an operation
      in which an active task's wakeup time has passed; let the timer thread take seven steps in
      all, a full round of its loop; then, once no interrupt is being served, let the emulator
      thread look at the interrupt flags, and whatever interrupt it is serving come to its end.
      Unless somebody has re-primed, removed or re-inserted the task, it has been called. */
  lemma DeadlineIsServed(s: State, shot: Shot, round: seq<Step>, pause: seq<Step>, pass: seq<Step>, span: Span)
    requires Ordered(span) && Inv(s, span) && s.op.Idle? && s.irq.Outside?
    requires shot.task in s.order && shot.task in s.active && WakeupOf(s.wakeup, shot.task) == shot.wakeup < s.clock
    requires AllProper(round, span) && AllProper(pause, span) && AllProper(pass, span)
    requires AllLeave(round, shot.task) && AllLeave(pause, shot.task) && AllLeave(pass, shot.task)
    requires Legal(s, round) && Legal(After(s, round), pause) && Legal(After(After(s, round), pause), pass)
    requires ThreadSteps(round) >= 7
    requires After(After(s, round), pause).irq.Outside? && pass != [] && pass[0].IrqStep?
    requires After(After(After(s, round), pause), pass).irq.Outside?
    ensures After(After(After(s, round), pause), pass).fired[shot] > s.fired[shot]
  {
    var before := s.fired[shot];
    var s1 := After(s, round);
    var s2 := After(s1, pause);
    OutsideIsWatched(s, shot, span);
    RunKeepsWatched(s, round, shot, before, span);
    RunKeepsInv(s, round, span);
    RunKeepsFlagged(s1, pause, shot, before, span);
    RunKeepsInv(s1, pause, span);
    var s3 := Next(s2, pass[0]);
    assert Proper(pass[0], span) && Leaves(pass[0], shot.task);
    StepKeepsInv(s2, pass[0], span);
    StepFires(s2, pass[0], shot);
    StepKeepsFlagged(s2, pass[0], shot, before, span);
    FlagIsTaken(s2, shot, before);
    hide Inv, Next, Flagged, Caught, Watched, Proper, Leaves, ToGo;
    ExpiredTaskFires(s3, pass[1..], shot, before, span);
  }

  lemma OutsideIsWatched(s: State, shot: Shot, span: Span)
    requires Inv(s, span) && s.op.Idle? && s.irq.Outside?
    requires shot.task in s.order && shot.task in s.active && WakeupOf(s.wakeup, shot.task) == shot.wakeup < s.clock
    ensures Watched(s, shot, s.fired[shot])
    ensures ToGo(s, shot, s.fired[shot]) <= 7
  {
    hide Within, Sound, Recomputing, WakeupOf;
  }

  lemma FlagIsTaken(s: State, shot: Shot, before: nat)
    requires Flagged(s, shot, before) && Enabled(s, IrqStep) && s.irq.Outside?
    ensures Caught(NextIrq(s), shot, before)
  {
    hide WakeupOf;
  }

  // ---------- the sleeping thread ----------

  /** The thread sleeps until the wakeup time that is set. */
  predicate Mindful(s: State) {
    (s.thread.Captured? || s.thread.Snoozing?) && !s.sem.Emulator? ==> s.thread.until == s.wakeupTime
  }

  /** The step does not resume the thread with another wakeup time while the thread is between
      reading wakeup_time and falling asleep, where resuming cannot wake it. */
  predicate Attentive(s: State, step: Step) {
    step.OpStep? && s.op.Unlock? && s.thread.Captured? ==> s.thread.until == s.wakeupTime
  }

  /** That is the only way in which the thread comes to sleep until another time. */
  lemma StepKeepsMindful(s: State, step: Step)
    requires Exclusive(s) && Mindful(s) && Enabled(s, step)
    ensures Mindful(Next(s, step)) <==> Attentive(s, step)
  {
    hide Sooner, CmpTime, Without, NextOf, NextIrq, WakeupOf;
    if step.IrqStep? {
      IrqKeepsThread(s);
    }
  }

  lemma IrqKeepsThread(s: State)
    requires Enabled(s, IrqStep)
    ensures NextIrq(s).thread == s.thread && NextIrq(s).sem == s.sem && NextIrq(s).wakeupTime == s.wakeupTime
  {
    hide CmpTime, NextOf;
  }

  predicate AttentiveRun(s: State, steps: seq<Step>)
    requires Legal(s, steps)
    decreases |steps|
  {
    steps == [] || (Attentive(s, steps[0]) && AttentiveRun(Next(s, steps[0]), steps[1..]))
  }

  lemma {:induction false} RunKeepsMindful(s: State, steps: seq<Step>)
    requires Sound(s) && Mindful(s) && Legal(s, steps) && AllProper(steps, ANY_TIME) && AttentiveRun(s, steps)
    ensures Sound(After(s, steps)) && Mindful(After(s, steps))
    decreases |steps|
  {
    if steps != [] {
      assert Proper(steps[0], ANY_TIME);
      StepKeepsSound(s, steps[0]);
      StepKeepsMindful(s, steps[0]);
      hide Sound, Mindful, Next, Attentive;
      RunKeepsMindful(Next(s, steps[0]), steps[1..]);
    }
  }

  /** In a run in which the thread is never resumed too early with news, it does not sleep past a
      deadline: outside an operation, unless the interrupt is pending, it sleeps at most until the
      wakeup time of every active task, and once one has passed the thread can go on. */
  lemma ThreadWakesInTime(clock: int, steps: seq<Step>, t: Task, span: Span)
    requires InRange(clock) && Legal(Init(clock), steps) && Ordered(span) && AllProper(steps, span)
    requires AttentiveRun(Init(clock), steps)
    ensures var s := After(Init(clock), steps);
            s.op.Idle? && s.irq.Outside? && !s.flag && !s.thread.Raising? && t in s.order && t in s.active ==>
              && (s.thread.Captured? || s.thread.Snoozing? ==> s.thread.until <= WakeupOf(s.wakeup, t))
              && (WakeupOf(s.wakeup, t) < s.clock ==> Enabled(s, ThreadStep))
  {
    InitFair(clock);
    forall step | step in steps ensures Proper(step, ANY_TIME) {
      assert Proper(step, span);
    }
    RunKeepsMindful(Init(clock), steps);
    NoTaskMissed(clock, steps, span);
    hide Legal, After, AttentiveRun, Nested, Linked, WakeupOf;
  }
}
