/** What the Time Manager's operations do when nothing interferes, as runs of the two-thread model,
    and the runs in which a task is missed. */
module TimerRuns {
  import opened Bytes
  import opened TimerTime
  import opened TaskList
  import opened TimerProtocol

  // ---------- an operation run on its own ----------

  /** Running these steps from `s` is possible and ends in `t`. */
  ghost predicate Reaches(s: State, steps: seq<Step>, t: State) {
    Legal(s, steps) && After(s, steps) == t
  }

  lemma ReachStep(s: State, step: Step, rest: seq<Step>, t: State)
    requires Enabled(s, step) && Reaches(Next(s, step), rest, t)
    ensures Reaches(s, [step] + rest, t)
  {
    RunStep(s, step, rest);
  }

  lemma {:induction false} ReachAppend(s: State, a: seq<Step>, t: State, b: seq<Step>, u: State)
    requires Reaches(s, a, t) && Reaches(t, b, u)
    ensures Reaches(s, a + b, u)
    decreases |a|
  {
    if a == [] {
      assert a + b == b;
    } else {
      ReachAppend(Next(s, a[0]), a[1..], t, b, u);
      ReachStep(s, a[0], a[1..] + b, u);
      assert a + b == [a[0]] + (a[1..] + b);
    }
  }

  function OpSteps(n: nat): seq<Step> {
    if n == 0 then [] else [OpStep] + OpSteps(n - 1)
  }

  lemma {:induction false} OpStepsSplit(m: nat, n: nat)
    ensures OpSteps(m + n) == OpSteps(m) + OpSteps(n)
  {
    if m > 0 {
      OpStepsSplit(m - 1, n);
    }
  }

  lemma ReachOp(s: State, n: nat, t: State)
    requires Enabled(s, OpStep) && Reaches(NextOp(s), OpSteps(n), t)
    ensures Reaches(s, OpSteps(n + 1), t)
  {
    ReachStep(s, OpStep, OpSteps(n), t);
  }

  lemma {:induction false} LoopRuns(s: State)
    requires s.op.Loop? && s.op.k <= |s.order|
    requires s.wakeupTime == MinWakeup(s.order[..s.op.k], s.wakeup, s.active)
    ensures Reaches(s, OpSteps(|s.order| - s.op.k + 1), Recomputed(s))
    decreases |s.order| - s.op.k
  {
    hide Sooner;
    var k := s.op.k;
    if k < |s.order| {
      assert s.order[..k + 1][..k] == s.order[..k];
      LoopRuns(NextOp(s));
    } else {
      assert s.order[..k] == s.order;
      assert Reaches(NextOp(s), OpSteps(0), Recomputed(s));
    }
    hide Reaches, MinWakeup;
    ReachOp(s, |s.order| - k, Recomputed(s));
  }

  function Recomputed(s: State): State
    requires s.op.Reset? || s.op.Loop?
  {
    s.(wakeupTime := MinWakeup(s.order, s.wakeup, s.active), op := Unlock(s.op.kind))
  }

  /** Recomputing wakeup_time and releasing the semaphore, in one go. */
  lemma ResetRuns(s: State)
    requires s.op.Reset?
    ensures Reaches(s, OpSteps(|s.order| + 2), Recomputed(s))
  {
    assert s.order[..0] == [];
    LoopRuns(NextOp(s));
    ReachOp(s, |s.order| + 1, Recomputed(s));
  }

  /** The steps from taking the semaphore to releasing it. */
  lemma LockedRuns(s: State)
    requires s.op.Lock? && s.sem.Nobody? && NextOp(NextOp(s)).op.Reset?
    ensures var done := NextOp(Recomputed(NextOp(NextOp(s))));
            Reaches(s, OpSteps(|s.order| + 5), done)
  {
    hide Sooner, Without, MinWakeup, Reaches, OpSteps;
    var s1 := NextOp(s);
    var s2 := NextOp(s1);
    var n := |s.order|;
    assert s2.order == s.order;
    var s4 := Recomputed(s2);
    UnlockRuns(s2);
    assert Enabled(s1, OpStep) && Enabled(s, OpStep);
    hide *;
    ReachOp(s1, n + 3, NextOp(s4));
    ReachOp(s, n + 4, NextOp(s4));
  }

  lemma UnlockRuns(s: State)
    requires s.op.Reset?
    ensures Enabled(Recomputed(s), OpStep) && Reaches(s, OpSteps(|s.order| + 3), NextOp(Recomputed(s)))
  {
    var n, done := |s.order|, Recomputed(s);
    ResetRuns(s);
    assert Reaches(NextOp(done), OpSteps(0), NextOp(done));
    ReachOp(done, 0, NextOp(done));
    OpStepsSplit(n + 2, 1);
    hide *;
    ReachAppend(s, OpSteps(n + 2), done, OpSteps(1), NextOp(done));
  }

  /** What PrimeTime does when the timer thread stays out of the way. */
  function PrimeEffect(s: State, t: Task, w: int): State {
    if t !in s.order then s else
    var wakeup, active := s.wakeup[t := w], s.active + {t};
    s.(wakeup := wakeup, active := active, primed := s.primed + multiset{Shot(t, w)},
       wakeupTime := MinWakeup(s.order, wakeup, active), thread := Resumed(s.thread))
  }

  /** What RmvTime does when the timer thread stays out of the way. */
  function RemoveEffect(s: State, t: Task): State {
    if t !in s.order then s
    else if t !in s.active then s.(order := Without(s.order, t), thread := Resumed(s.thread))
    else
      var active := s.active - {t};
      s.(order := Without(s.order, t), active := active, wakeupTime := MinWakeup(s.order, s.wakeup, active),
         thread := Resumed(s.thread))
  }

  function PrimeSteps(s: State, t: Task, w: int): seq<Step> {
    [PrimeBegin(t, w)] + OpSteps(if t in s.order then |s.order| + 5 else 0)
  }

  function RemoveSteps(s: State, t: Task): seq<Step> {
    [RmvBegin(t)] + OpSteps(if t !in s.order then 0 else if t in s.active then |s.order| + 6 else 4)
  }

  /** PrimeTime's steps, run without interference, have the effect that the sequential code
      computes. */
  lemma PrimeRuns(s: State, t: Task, w: int)
    requires MayCall(s) && s.sem.Nobody?
    ensures Reaches(s, PrimeSteps(s, t, w), PrimeEffect(s, t, w))
  {
    var s0 := Next(s, PrimeBegin(t, w));
    if t in s.order {
      LockedRuns(s0);
    } else {
      assert Reaches(s0, OpSteps(0), s);
    }
    hide Reaches, MinWakeup, OpSteps;
    ReachStep(s, PrimeBegin(t, w), OpSteps(if t in s.order then |s.order| + 5 else 0), PrimeEffect(s, t, w));
  }

  lemma RemoveRuns(s: State, t: Task)
    requires MayCall(s) && s.sem.Nobody? && (s.irq.InTask? ==> s.irq.desc != Some(t))
    ensures Reaches(s, RemoveSteps(s, t), RemoveEffect(s, t))
  {
    var s0 := Next(s, RmvBegin(t));
    if t !in s.order {
      assert Reaches(s0, OpSteps(0), s);
    } else if t in s.active {
      RemoveActiveRuns(s0, t);
      assert RemoveEffect(s0, t).(op := Idle) == RemoveEffect(s, t);
    } else {
      RemoveInactiveRuns(s0, t);
    }
    hide Reaches, MinWakeup, OpSteps, Without;
    ReachStep(s, RmvBegin(t), OpSteps(if t !in s.order then 0 else if t in s.active then |s.order| + 6 else 4),
              RemoveEffect(s, t));
  }

  lemma RemoveActiveRuns(s: State, t: Task)
    requires s.op == Lock(Remove(t)) && s.sem.Nobody? && t in s.active && t in s.order
    ensures Reaches(s, OpSteps(|s.order| + 6), RemoveEffect(s, t).(op := Idle))
  {
    hide MinWakeup, Without;
    var n, s5 := |s.order|, NextOp(Recomputed(NextOp(NextOp(s))));
    LockedRuns(s);
    var end := NextOp(s5);
    assert Reaches(end, OpSteps(0), end);
    OpStepsSplit(n + 5, 1);
    hide Reaches, OpSteps;
    ReachOp(s5, 0, end);
    ReachAppend(s, OpSteps(n + 5), s5, OpSteps(1), end);
  }

  lemma RemoveInactiveRuns(s: State, t: Task)
    requires s.op == Lock(Remove(t)) && s.sem.Nobody? && t !in s.active
    ensures Reaches(s, OpSteps(4), s.(op := Idle, order := Without(s.order, t), thread := Resumed(s.thread)))
  {
    hide Without;
    var end := s.(op := Idle, order := Without(s.order, t), thread := Resumed(s.thread));
    assert Reaches(end, OpSteps(0), end);
    hide Reaches, OpSteps;
    var s1 := s.(sem := Emulator, op := Mark(Remove(t)));
    var s2 := s1.(op := Unlock(Remove(t)));
    var s3 := s.(op := Free(t), thread := Resumed(s.thread));
    ReachOp(s3, 0, end);
    ReachOp(s2, 1, end);
    ReachOp(s1, 2, end);
    ReachOp(s, 3, end);
  }

  /** The end of a timer interrupt that the timer thread does not disturb. */
  function Closed(s: State): State {
    s.(irq := Outside, wakeupTime := MinWakeup(s.order, s.wakeup, s.active), thread := Resumed(s.thread))
  }

  /** The recomputation at the end of the timer interrupt. */
  lemma ClosingRuns(s: State)
    requires s.irq.Visit? && s.irq.desc.None? && s.op.Idle? && s.sem.Nobody?
    ensures Reaches(s, [IrqStep] + OpSteps(|s.order| + 5), Closed(s))
  {
    LockedRuns(NextIrq(s));
    hide Reaches, MinWakeup, OpSteps;
    ReachStep(s, IrqStep, OpSteps(|s.order| + 5), Closed(s));
  }

  lemma OneStepRuns(s: State, step: Step)
    requires Enabled(s, step)
    ensures Reaches(s, [step], Next(s, step))
  {
    assert Reaches(Next(s, step), [], Next(s, step));
    ReachStep(s, step, [], Next(s, step));
  }

  /** One undisturbed round of the timer thread, from the end of its sleep on. */
  function RoundSteps(s: State): seq<Step> {
    [ThreadStep, ThreadStep, ThreadStep, ThreadStep, ThreadStep]
    + if s.wakeupTime < s.clock then [ThreadStep, ThreadStep] else [ThreadStep]
  }

  function RoundEffect(s: State): State {
    if s.wakeupTime < s.clock then s.(wakeupTime := MAX_TIME, flag := true) else s
  }

  lemma RoundRuns(s: State)
    requires s.thread.Awake? && s.sem.Nobody? && s.wakeupTime <= s.clock
    ensures Reaches(s, RoundSteps(s), RoundEffect(s))
  {
    var e := RoundEffect(s);
    var s3 := s.(thread := Waiting);
    var s4 := s.(thread := Checking, sem := Timer);
    if s.wakeupTime < s.clock {
      var s5 := s4.(thread := Raising, wakeupTime := MAX_TIME);
      OneStepRuns(e.(thread := Releasing, sem := Timer), ThreadStep);
      ReachStep(s5, ThreadStep, [ThreadStep], e);
      ReachStep(s4, ThreadStep, [ThreadStep, ThreadStep], e);
    } else {
      OneStepRuns(e.(thread := Releasing, sem := Timer), ThreadStep);
      ReachStep(s4, ThreadStep, [ThreadStep], e);
    }
    hide Reaches;
    var more := if s.wakeupTime < s.clock then [ThreadStep, ThreadStep] else [ThreadStep];
    ReachStep(s3, ThreadStep, [ThreadStep] + more, e);
    ReachStep(s.(thread := Snoozing(s.wakeupTime)), ThreadStep, [ThreadStep] + ([ThreadStep] + more), e);
    ReachStep(s.(thread := Captured(s.wakeupTime)), ThreadStep, [ThreadStep] + ([ThreadStep] + ([ThreadStep] + more)),
              e);
    ReachStep(s, ThreadStep, [ThreadStep] + ([ThreadStep] + ([ThreadStep] + ([ThreadStep] + more))), e);
    assert RoundSteps(s) == [ThreadStep] + ([ThreadStep] + ([ThreadStep] + ([ThreadStep] + ([ThreadStep] + more))));
  }

  /** One round of the timer thread raises the flag if an active task's time has passed. */
  lemma ThreadRaisesFlag(s: State, t: Task, span: Span)
    requires Ordered(span) && Inv(s, span) && s.op.Idle? && s.irq.Outside? && s.thread.Awake?
    requires s.wakeupTime <= s.clock
    requires t in s.order && t in s.active && WakeupOf(s.wakeup, t) < s.clock
    ensures Reaches(s, RoundSteps(s), RoundEffect(s)) && RoundEffect(s).flag
    ensures s.flag || RoundEffect(s).wakeupTime == MAX_TIME
  {
    RoundRuns(s);
    hide Reaches, Within, WakeupOf, Distinct;
  }

  // ---------- which runs are proper ----------

  lemma {:induction false} OpStepsProper(n: nat, span: Span)
    ensures AllProper(OpSteps(n), span)
  {
    if n > 0 {
      OpStepsProper(n - 1, span);
    }
  }

  /** PrimeTime's run is one that no task is missed in exactly if it computes a time in the span. */
  lemma PrimeStepsProper(s: State, t: Task, w: int, span: Span)
    ensures AllProper(PrimeSteps(s, t, w), span) <==> span.Has(w)
  {
    OpStepsProper(|s.order| + 5, span);
    OpStepsProper(0, span);
    assert PrimeBegin(t, w) in PrimeSteps(s, t, w);
    hide OpSteps;
  }

  lemma RemoveStepsProper(s: State, t: Task, span: Span)
    ensures AllProper(RemoveSteps(s, t), span)
  {
    OpStepsProper(|s.order| + 6, span);
    OpStepsProper(4, span);
    OpStepsProper(0, span);
    hide OpSteps;
  }

  // ---------- runs in which a task is missed ----------

  function LoneSteps(clock: int, t: Task, garbage: int, w: int): seq<Step> {
    [InsTime(t, garbage)] + PrimeSteps(Inserted(Init(clock), t, garbage), t, w)
  }

  function LoneEnd(clock: int, t: Task, garbage: int, w: int): State {
    PrimeEffect(Inserted(Init(clock), t, garbage), t, w)
  }

  /** A task primed on its own is missed exactly if PrimeTime computes a time below -1. */
  lemma LonePrimeIsCovered(clock: int, t: Task, garbage: int, w: int)
    requires InRange(clock) && IsInt64(w)
    ensures Reaches(Init(clock), LoneSteps(clock, t, garbage, w), LoneEnd(clock, t, garbage, w))
    ensures NothingMissed(LoneEnd(clock, t, garbage, w)) <==> -1 <= w
  {
    var s := Inserted(Init(clock), t, garbage);
    var end := LoneEnd(clock, t, garbage, w);
    assert s.order == [t];
    PrimeRuns(s, t, w);
    ReachStep(Init(clock), InsTime(t, garbage), PrimeSteps(s, t, w), end);
    LoneTaskIsFound(t, end.wakeup);
    assert end.active == {t};
    hide Reaches, PrimeSteps, MinWakeup;
  }

  /** The guest's side of it: at host time 0 a delay of 2147484 ms wraps around.  The task is active,
      its time is negative, and neither the flag nor wakeup_time will ever bring the interrupt. */
  lemma LongDelayIsMissed(t: Task, garbage: int)
    ensures var w := PrimedWakeup(garbage, false, false, 0, 2147484, 0);
            var end := LoneEnd(0, t, garbage, w);
            && w == -2147483296
            && Reaches(Init(0), LoneSteps(0, t, garbage, w), end)
            && end.op.Idle? && end.irq.Outside? && !end.flag && !end.thread.Raising?
            && t in end.active && end.wakeupTime == MAX_TIME && !NothingMissed(end)
  {
    var w := PrimedWakeup(garbage, false, false, 0, 2147484, 0);
    assert w == -2147483296;
    LonePrimeIsCovered(0, t, garbage, w);
    var end := LoneEnd(0, t, garbage, w);
    assert end.order == [t] && end.active == {t};
    LoneTaskIsFound(t, end.wakeup);
    hide Reaches, PrimeSteps, MinWakeup;
  }

  function PairStart(clock: int): State {
    Inserted(LoneEnd(clock, 8, 0, MAX_TIME), 7, 0)
  }

  function PairSteps(clock: int): seq<Step> {
    LoneSteps(clock, 8, 0, MAX_TIME) + ([InsTime(7, 0)] + PrimeSteps(PairStart(clock), 7, -1))
  }

  lemma PairRuns(clock: int)
    requires InRange(clock)
    ensures Reaches(Init(clock), PairSteps(clock), PrimeEffect(PairStart(clock), 7, -1))
  {
    var s1, s2 := LoneEnd(clock, 8, 0, MAX_TIME), PairStart(clock);
    LonePrimeIsCovered(clock, 8, 0, MAX_TIME);
    PrimeRuns(s2, 7, -1);
    hide Reaches, MinWakeup, PrimeSteps, LoneSteps, PrimeEffect;
    LoneIsOutside(clock);
    ReachStep(s1, InsTime(7, 0), PrimeSteps(s2, 7, -1), PrimeEffect(s2, 7, -1));
    ReachAppend(Init(clock), LoneSteps(clock, 8, 0, MAX_TIME), s1, [InsTime(7, 0)] + PrimeSteps(s2, 7, -1),
                PrimeEffect(s2, 7, -1));
  }

  lemma LoneIsOutside(clock: int)
    ensures var s := LoneEnd(clock, 8, 0, MAX_TIME);
            s.order == [8] && s.active == {8} && s.op.Idle? && s.irq.Outside? && s.sem.Nobody?
            && !s.flag && s.thread.Awake?
  {
    hide MinWakeup;
    assert Inserted(Init(clock), 8, 0).order == [8];
  }

  lemma PairStepsProper(clock: int, span: Span)
    requires span.Has(-1) && span.Has(MAX_TIME)
    ensures AllProper(PairSteps(clock), span)
  {
    PrimeStepsProper(Inserted(Init(clock), 8, 0), 8, MAX_TIME, span);
    PrimeStepsProper(PairStart(clock), 7, -1, span);
    hide PrimeSteps, PairStart;
  }

  /** Two tasks, one for -1 and one for the maximum: their wrapped comparison goes the wrong way. */
  lemma PairIsMissed(clock: int, span: Span)
    requires InRange(clock) && span.Has(-1) && span.Has(MAX_TIME)
    ensures exists steps | Legal(Init(clock), steps) && AllProper(steps, span) ::
            !NothingMissed(After(Init(clock), steps))
  {
    PairRuns(clock);
    PairStepsProper(clock, span);
    LoneIsOutside(clock);
    var s := PrimeEffect(PairStart(clock), 7, -1);
    assert !NothingMissed(s) by {
      PairEnd(clock);
    }
    var steps := PairSteps(clock);
    hide NothingMissed, AllProper, PairSteps, PrimeEffect;
    assert Legal(Init(clock), steps) && After(Init(clock), steps) == s;
  }

  lemma PairEnd(clock: int)
    ensures var s := PrimeEffect(PairStart(clock), 7, -1);
            s.op.Idle? && s.irq.Outside? && !s.flag && s.thread.Awake? && 7 in s.order && 7 in s.active
            && s.wakeupTime == MAX_TIME && WakeupOf(s.wakeup, 7) == -1
  {
    hide LoneEnd, MinWakeup;
    LoneIsOutside(clock);
    var s := PrimeEffect(PairStart(clock), 7, -1);
    assert s.order == [7, 8] && s.active == {7, 8};
    assert WakeupOf(LoneEnd(clock, 8, 0, MAX_TIME).wakeup, 8) == MAX_TIME by {
      LoneWakeup(clock);
    }
    PairMinimum(s.wakeup);
  }

  lemma LoneWakeup(clock: int)
    ensures WakeupOf(LoneEnd(clock, 8, 0, MAX_TIME).wakeup, 8) == MAX_TIME
  {
    assert 8 in Inserted(Init(clock), 8, 0).order;
  }

  lemma PairMinimum(wakeup: map<Task, int>)
    requires WakeupOf(wakeup, 7) == -1 && WakeupOf(wakeup, 8) == MAX_TIME
    ensures MinWakeup([7, 8], wakeup, {7, 8}) == MAX_TIME
  {
    assert [7, 8][..1] == [7] && [7][..0] == [];
  }

  /** For which wakeup times it holds that no interleaving misses a task. */
  lemma IntervalIsSafe(span: Span)
    requires MIN_TIME <= span.lo <= span.hi <= MAX_TIME
    ensures (forall clock, steps | InRange(clock) && Legal(Init(clock), steps) && AllProper(steps, span) ::
               NothingMissed(After(Init(clock), steps)))
            <==> Ordered(span)
  {
    if Ordered(span) {
      forall clock, steps | InRange(clock) && Legal(Init(clock), steps) && AllProper(steps, span)
        ensures NothingMissed(After(Init(clock), steps))
      {
        NoTaskMissed(clock, steps, span);
      }
    } else if span.lo < -1 {
      LonePrimeIsCovered(0, 7, 0, span.lo);
      var steps := LoneSteps(0, 7, 0, span.lo);
      PrimeStepsProper(Inserted(Init(0), 7, 0), 7, span.lo, span);
      assert AllProper(steps, span) by {
        hide PrimeSteps;
      }
      assert Legal(Init(0), steps) && !NothingMissed(After(Init(0), steps));
    } else {
      PairIsMissed(0, span);
    }
  }

  // ---------- the thread that sleeps past a deadline ----------

  /** Nothing is under way, and the timer thread sleeps until the end of time. */
  predicate Asleep(s: State) {
    s.op.Idle? && s.irq.Outside? && !s.flag && s.thread == Snoozing(MAX_TIME) && s.clock < MAX_TIME
  }

  /** The guest makes no Time Manager call, and time does not end. */
  predicate Uneventful(step: Step) {
    match step
    case Tick(c) => c < MAX_TIME
    case OpStep => true
    case IrqStep => true
    case ThreadStep => true
    case _ => false
  }

  lemma {:induction false} StaysAsleep(s: State, steps: seq<Step>)
    requires Asleep(s) && Legal(s, steps) && forall step | step in steps :: Uneventful(step)
    ensures Asleep(After(s, steps)) && After(s, steps).fired == s.fired
    decreases |steps|
  {
    if steps != [] {
      assert Uneventful(steps[0]);
      StaysAsleep(Next(s, steps[0]), steps[1..]);
    }
  }

  /** The task primed while the timer thread is between reading wakeup_time and falling asleep. */
  function LostEnd(t: Task, garbage: int, w: int, clock: int): State {
    PrimeEffect(Inserted(Init(0), t, garbage).(thread := Captured(MAX_TIME)), t, w)
      .(thread := Snoozing(MAX_TIME), clock := clock)
  }

  function LostSteps(t: Task, garbage: int, w: int, clock: int): seq<Step> {
    var s := Inserted(Init(0), t, garbage).(thread := Captured(MAX_TIME));
    [InsTime(t, garbage), ThreadStep] + PrimeSteps(s, t, w) + [ThreadStep, Tick(clock)]
  }

  /** A wakeup can be lost: resuming the thread at that point does not wake it, so that it sleeps on
      for the old time.  wakeup_time is right and the deadline has passed, but until the guest calls
      the Time Manager again nothing is fired, however the threads are scheduled. */
  lemma WakeupIsLost(t: Task, garbage: int, w: int, clock: int, more: seq<Step>)
    requires 0 <= w < clock < MAX_TIME
    ensures Reaches(Init(0), LostSteps(t, garbage, w, clock), LostEnd(t, garbage, w, clock))
    ensures AllProper(LostSteps(t, garbage, w, clock), Span(0, MAX_TIME))
    ensures var s := LostEnd(t, garbage, w, clock);
            && t in s.order && t in s.active && s.wakeupTime == WakeupOf(s.wakeup, t) < s.clock
            && (Legal(s, more) && (forall step | step in more :: Uneventful(step)) ==>
                  After(s, more).fired == multiset{})
  {
    var s1 := Inserted(Init(0), t, garbage);
    var s2 := s1.(thread := Captured(MAX_TIME));
    var s3 := PrimeEffect(s2, t, w);
    var end := LostEnd(t, garbage, w, clock);
    PrimeRuns(s2, t, w);
    OneStepRuns(s3.(thread := Snoozing(MAX_TIME)), Tick(clock));
    ReachStep(s3, ThreadStep, [Tick(clock)], end);
    LostFound(t, garbage, w);
    if Legal(end, more) && forall step | step in more :: Uneventful(step) {
      StaysAsleep(end, more);
    }
    PrimeStepsProper(s2, t, w, Span(0, MAX_TIME));
    hide Reaches, PrimeSteps, PrimeEffect, Legal, After, MinWakeup;
    assert [ThreadStep] + [Tick(clock)] == [ThreadStep, Tick(clock)];
    ReachAppend(s2, PrimeSteps(s2, t, w), s3, [ThreadStep, Tick(clock)], end);
    ReachStep(s1, ThreadStep, PrimeSteps(s2, t, w) + [ThreadStep, Tick(clock)], end);
    ReachStep(Init(0), InsTime(t, garbage), [ThreadStep] + (PrimeSteps(s2, t, w) + [ThreadStep, Tick(clock)]), end);
    assert [InsTime(t, garbage)] + ([ThreadStep] + (PrimeSteps(s2, t, w) + [ThreadStep, Tick(clock)]))
        == LostSteps(t, garbage, w, clock);
  }

  lemma LostFound(t: Task, garbage: int, w: int)
    requires 0 <= w < MAX_TIME
    ensures var s := PrimeEffect(Inserted(Init(0), t, garbage).(thread := Captured(MAX_TIME)), t, w);
            s.order == [t] && s.active == {t} && s.wakeupTime == WakeupOf(s.wakeup, t) == w && s.fired == multiset{}
            && s.op.Idle? && s.irq.Outside? && !s.flag && s.sem.Nobody? && s.thread == Captured(MAX_TIME)
            && s.clock == 0
  {
    var s := PrimeEffect(Inserted(Init(0), t, garbage).(thread := Captured(MAX_TIME)), t, w);
    assert Inserted(Init(0), t, garbage).order == [t];
    assert s.active == {t};
    MinWakeupIsEarliest([t], s.wakeup, {t}, Span(0, MAX_TIME));
  }
}
