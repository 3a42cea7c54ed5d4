/** The Time Manager as two threads: the emulator thread (InsTime, RmvTime, PrimeTime and the
    timer interrupt) and the timer thread.  They share `wakeup_time` under a semaphore and an
    interrupt flag that is set and cleared atomically; an operation suspends the timer thread
    while it holds the semaphore, and resuming the thread ends its sleep.  One step is one access
    to shared state, and the steps of the two threads interleave freely. */
module TimerProtocol {
  import opened Bytes
  import opened TimerTime
  import opened TaskList

  /** One scheduled call of a task. */
  datatype Shot = Shot(task: Task, wakeup: int)

  /** What the emulator thread does while it is about to take, or holds, the semaphore. */
  datatype Kind = Prime(task: Task) | Remove(task: Task) | Interrupt

  /** Program counter of an emulator-thread operation. */
  datatype Op =
    | Idle
    | Lock(kind: Kind)            // about to acquire the semaphore and suspend the thread
    | Mark(kind: Kind)            // holds it, about to change the task's active bit
    | Reset(kind: Kind)           // about to set wakeup_time to its maximum
    | Loop(kind: Kind, k: nat)    // recomputing wakeup_time, k descriptors done
    | Unlock(kind: Kind)          // about to release the semaphore and resume the thread
    | Free(task: Task)            // about to free the descriptor

  /** Program counter of the interrupt dispatch and of TimerInterrupt. */
  datatype Irq =
    | Outside
    | Seen                                    // flag found set, about to clear it
    | Cleared                                 // about to read the time and the list head
    | Visit(now: int, desc: Option<Task>)     // about to look at a descriptor, or past the last
    | InTask(now: int, desc: Option<Task>)    // inside a callback, the next descriptor saved
    | Closing                                 // list done, recomputing wakeup_time

  /** Program counter of the timer thread. */
  datatype Thread =
    | Awake                    // about to read wakeup_time
    | Captured(until: int)     // has read it, about to sleep until then
    | Snoozing(until: int)
    | Waiting                  // about to acquire the semaphore
    | Checking
    | Raising                  // about to set the interrupt flag
    | Releasing

  datatype Holder = Nobody | Emulator | Timer

  datatype State = State(
    order: seq<Task>,          // tmDescList, head first
    wakeup: map<Task, int>,    // the descriptors' wakeup times
    active: set<Task>,         // tasks whose 0x8000 bit is set
    wakeupTime: int,
    flag: bool,                // INTFLAG_TIMER
    sem: Holder,
    op: Op,
    irq: Irq,
    thread: Thread,
    clock: int,
    primed: multiset<Shot>,    // every wakeup time ever given to a task by PrimeTime
    fired: multiset<Shot>      // every callback made
  )

  datatype Step =
    | Tick(clock: int)
    | InsTime(task: Task, garbage: int)
    | RmvBegin(task: Task)
    | PrimeBegin(task: Task, wakeup: int)
    | OpStep                   // the next step of the operation under way
    | IrqStep                  // the next step of the interrupt
    | ThreadStep               // the next step of the timer thread
    | TimerReset

  // ---------- the recomputation of wakeup_time ----------

  function WakeupOf(wakeup: map<Task, int>, t: Task): int {
    if t in wakeup then wakeup[t] else 0
  }

  function MinWakeup(order: seq<Task>, wakeup: map<Task, int>, active: set<Task>): int {
    if order == [] then MAX_TIME else
    var n := |order| - 1;
    Sooner(MinWakeup(order[..n], wakeup, active), order[n], wakeup, active)
  }

  /** One round of the loop over the descriptors. */
  function Sooner(best: int, t: Task, wakeup: map<Task, int>, active: set<Task>): int {
    if t in active && CmpTime(WakeupOf(wakeup, t), best) < 0 then WakeupOf(wakeup, t) else best
  }

  /** The host clock never shows a negative time. */
  predicate InRange(w: int) {
    0 <= w <= MAX_TIME
  }

  /** A range of wakeup times. */
  datatype Span = Span(lo: int, hi: int) {
    predicate Has(w: int) {
      lo <= w <= hi
    }
  }

  /** Every value of a 64-bit variable. */
  const ANY_TIME := Span(MIN_TIME, MAX_TIME)

  /** The wrapped comparison orders these times among themselves and against the maximum. */
  predicate Ordered(span: Span) {
    -1 <= span.lo && span.hi <= MAX_TIME && span.hi - span.lo <= MAX_TIME
  }

  /** The loop finds the earliest wakeup time among the active tasks. */
  lemma {:induction false} MinWakeupIsEarliest(order: seq<Task>, wakeup: map<Task, int>, active: set<Task>, span: Span)
    requires Ordered(span) && forall t | t in order && t in active :: span.Has(WakeupOf(wakeup, t))
    ensures forall t | t in order && t in active :: MinWakeup(order, wakeup, active) <= WakeupOf(wakeup, t)
    ensures var m := MinWakeup(order, wakeup, active);
            m == MAX_TIME || (span.Has(m) && exists t | t in order && t in active :: WakeupOf(wakeup, t) == m)
  {
    if order != [] {
      var n := |order| - 1;
      var best := MinWakeup(order[..n], wakeup, active);
      MinWakeupIsEarliest(order[..n], wakeup, active, span);
      assert forall t | t in order :: t in order[..n] || t == order[n];
      assert order[n] in order;
      if order[n] in active {
        CmpTimeOrders(WakeupOf(wakeup, order[n]), best);
      }
    }
  }

  /** A single active task is found by the loop exactly when its wakeup time is not below -1:
      for an earlier one the wrapped comparison with the maximum goes the wrong way. */
  lemma LoneTaskIsFound(t: Task, wakeup: map<Task, int>)
    requires IsInt64(WakeupOf(wakeup, t))
    ensures MinWakeup([t], wakeup, {t}) <= WakeupOf(wakeup, t) <==> -1 <= WakeupOf(wakeup, t)
    ensures WakeupOf(wakeup, t) < -1 ==> MinWakeup([t], wakeup, {t}) == MAX_TIME
  {
    assert [t][..0] == [];
    CmpTimeOrders(WakeupOf(wakeup, t), MAX_TIME);
  }

  // ---------- the steps ----------

  /** May the guest call a Time Manager routine now?  Inside a callback it may. */
  predicate MayCall(s: State) {
    s.op.Idle? && (s.irq.Outside? || s.irq.InTask?)
  }

  predicate Enabled(s: State, step: Step) {
    match step
    case Tick(c) => s.clock <= c
    case InsTime(t, g) => MayCall(s)
    // a callback does not remove the task whose descriptor the interrupt visits next
    case RmvBegin(t) => MayCall(s) && (s.irq.InTask? ==> s.irq.desc != Some(t))
    case PrimeBegin(t, w) => MayCall(s)
    case OpStep => !s.op.Idle? && (s.op.Lock? ==> s.sem.Nobody?)
    case IrqStep => s.op.Idle?
    // the thread is suspended while the emulator thread holds the semaphore
    case ThreadStep =>
      && !s.sem.Emulator?
      && (s.thread.Snoozing? ==> s.thread.until <= s.clock)
      && (s.thread.Waiting? ==> s.sem.Nobody?)
    case TimerReset => s.op.Idle? && s.irq.Outside?
  }

  /** Scheduled times lie in the span, and the host clock is not negative. */
  predicate Proper(step: Step, span: Span) {
    (step.PrimeBegin? ==> span.Has(step.wakeup)) && (step.Tick? ==> InRange(step.clock))
  }

  /** The operation under way is the lock-protected part of an operation. */
  predicate Working(op: Op) {
    op.Lock? || op.Mark? || op.Reset? || op.Loop? || op.Unlock?
  }

  function Inserted(s: State, t: Task, garbage: int): State {
    if t in s.order then s.(active := s.active - {t})
    else s.(active := s.active - {t}, order := [t] + s.order, wakeup := s.wakeup[t := garbage])
  }

  /** Resuming the thread ends its sleep, if it sleeps already. */
  function Resumed(thread: Thread): Thread {
    if thread.Snoozing? then Waiting else thread
  }

  function Next(s: State, step: Step): State
    requires Enabled(s, step)
  {
    match step
    case Tick(c) => s.(clock := c)
    case InsTime(t, g) => Inserted(s, t, g)
    case RmvBegin(t) => if t in s.order then s.(op := Lock(Remove(t))) else s
    case PrimeBegin(t, w) =>
      if t in s.order then
        s.(wakeup := s.wakeup[t := w], primed := s.primed + multiset{Shot(t, w)}, op := Lock(Prime(t)))
      else s
    case OpStep => NextOp(s)
    case IrqStep => NextIrq(s)
    case ThreadStep => NextThread(s)
    case TimerReset => s.(order := [])
  }

  function NextOp(s: State): State
    requires Enabled(s, OpStep)
  {
    match s.op
    case Lock(kind) => s.(sem := Emulator, op := Mark(kind))
    case Mark(Prime(t)) => s.(active := s.active + {t}, op := Reset(s.op.kind))
    case Mark(Remove(t)) =>
      if t in s.active then s.(active := s.active - {t}, op := Reset(s.op.kind)) else s.(op := Unlock(s.op.kind))
    case Mark(Interrupt) => s.(op := Reset(Interrupt))
    case Reset(kind) => s.(wakeupTime := MAX_TIME, op := Loop(kind, 0))
    case Loop(kind, k) =>
      if k < |s.order| then
        s.(wakeupTime := Sooner(s.wakeupTime, s.order[k], s.wakeup, s.active), op := Loop(kind, k + 1))
      else s.(op := Unlock(kind))
    case Unlock(Prime(t)) => s.(sem := Nobody, thread := Resumed(s.thread), op := Idle)
    case Unlock(Remove(t)) => s.(sem := Nobody, thread := Resumed(s.thread), op := Free(t))
    case Unlock(Interrupt) => s.(sem := Nobody, thread := Resumed(s.thread), op := Idle, irq := Outside)
    case Free(t) => s.(order := Without(s.order, t), op := Idle)
  }

  function NextIrq(s: State): State
    requires Enabled(s, IrqStep)
  {
    match s.irq
    case Outside => if s.flag then s.(irq := Seen) else s
    case Seen => s.(flag := false, irq := Cleared)
    case Cleared => s.(irq := Visit(s.clock, HeadOf(s.order)))
    case Visit(now, desc) =>
      if desc.None? then s.(irq := Closing, op := Lock(Interrupt)) else
      var t := desc.value;
      var next := NextOf(s.order, t);
      if t in s.active && CmpTime(WakeupOf(s.wakeup, t), now) <= 0 then
        s.(active := s.active - {t}, fired := s.fired + multiset{Shot(t, WakeupOf(s.wakeup, t))},
           irq := InTask(now, next))
      else s.(irq := Visit(now, next))
    case InTask(now, desc) => s.(irq := Visit(now, desc))
    case Closing => s
  }

  function NextThread(s: State): State
    requires Enabled(s, ThreadStep)
  {
    match s.thread
    case Awake => s.(thread := Captured(s.wakeupTime))
    case Captured(until) => s.(thread := Snoozing(until))
    case Snoozing(until) => s.(thread := Waiting)
    case Waiting => s.(sem := Timer, thread := Checking)
    case Checking =>
      if s.wakeupTime < s.clock then s.(wakeupTime := MAX_TIME, thread := Raising) else s.(thread := Releasing)
    case Raising => s.(flag := true, thread := Releasing)
    case Releasing => s.(sem := Nobody, thread := Awake)
  }

  function Init(clock: int): State {
    State([], map[], {}, MAX_TIME, false, Nobody, Idle, Outside, Awake, clock, multiset{}, multiset{})
  }

  // ---------- structure, kept whatever is scheduled ----------

  /** The semaphore is held by the thread whose program counter says so. */
  predicate Exclusive(s: State) {
    && (s.sem.Emulator? <==> s.op.Mark? || s.op.Reset? || s.op.Loop? || s.op.Unlock?)
    && (s.sem.Timer? <==> s.thread.Checking? || s.thread.Raising? || s.thread.Releasing?)
  }

  /** How the interrupt and the operations nest. */
  predicate Nested(s: State) {
    && InRange(s.clock)
    && (s.irq.Closing? <==> Working(s.op) && s.op.kind.Interrupt?)
    && (s.irq.Seen? ==> s.flag)
    && (s.irq.Seen? || s.irq.Cleared? || s.irq.Visit? ==> s.op.Idle?)
    && (s.irq.Visit? || s.irq.InTask? ==> s.irq.now <= s.clock && InRange(s.irq.now))
  }

  predicate RemovingTask(s: State, t: Task) {
    s.op == Free(t) || (Working(s.op) && s.op.kind == Remove(t))
  }

  predicate Walking(s: State) {
    s.irq.Visit? || s.irq.InTask?
  }

  /** The saved descriptor is one of the list's, and nobody is removing it. */
  predicate Linked(s: State) {
    && Distinct(s.order)
    && (Walking(s) && s.irq.desc.Some? ==> s.irq.desc.value in s.order && !RemovingTask(s, s.irq.desc.value))
  }

  /** The descriptors the interrupt has still to visit: the list from the saved one on. */
  function Rest(s: State): seq<Task> {
    if Walking(s) then Tail(s.order, s.irq.desc) else []
  }

  ghost predicate Sound(s: State) {
    Exclusive(s) && Nested(s) && Linked(s)
  }

  lemma OpKeepsSound(s: State)
    requires Sound(s) && Enabled(s, OpStep)
    ensures Sound(NextOp(s))
  {
    hide Sooner, Without, WakeupOf, Distinct, InRange;
    match s.op
    case Lock(kind) =>
    case Mark(kind) =>
    case Reset(kind) =>
    case Loop(kind, k) =>
    case Unlock(kind) =>
    case Free(t) => WithoutKeepsDistinct(s.order, t);
  }

  lemma IrqKeepsSound(s: State)
    requires Sound(s) && Enabled(s, IrqStep)
    ensures Sound(NextIrq(s))
  {
    hide CmpTime, WakeupOf, Distinct, NextOf;
    if s.irq.Visit? && s.irq.desc.Some? {
      VisitKeepsSound(s);
    }
  }

  lemma VisitKeepsSound(s: State)
    requires Sound(s) && s.irq.Visit? && s.irq.desc.Some?
    ensures Sound(NextIrq(s))
  {
    hide CmpTime, WakeupOf, Distinct, NextOf, TailFrom;
    TailOfNext(s.order, s.irq.desc.value);
  }

  lemma ThreadKeepsSound(s: State)
    requires Sound(s) && Enabled(s, ThreadStep)
    ensures Sound(NextThread(s))
  {
    ThreadKeepsRest(s);
    ThreadKeepsExclusive(s);
    hide Distinct, NextThread, Exclusive;
  }

  lemma ThreadKeepsExclusive(s: State)
    requires Exclusive(s) && Enabled(s, ThreadStep)
    ensures Exclusive(NextThread(s))
  {
  }

  lemma GuestKeepsSound(s: State, step: Step)
    requires Sound(s) && Enabled(s, step) && (step.Tick? ==> InRange(step.clock))
    requires !step.OpStep? && !step.IrqStep? && !step.ThreadStep?
    ensures Sound(Next(s, step))
  {
    if step.InsTime? {
      assert ([step.task] + s.order)[1..] == s.order;
    }
  }

  lemma StepKeepsSound(s: State, step: Step)
    requires Sound(s) && Enabled(s, step) && (step.Tick? ==> InRange(step.clock))
    ensures Sound(Next(s, step))
  {
    hide Sound, NextOp, NextIrq, NextThread;
    match step
    case OpStep => OpKeepsSound(s);
    case IrqStep => IrqKeepsSound(s);
    case ThreadStep => ThreadKeepsSound(s);
    case _ => GuestKeepsSound(s, step);
  }

  // ---------- at most one callback, and not early ----------

  predicate Priming(s: State, t: Task) {
    (s.op.Lock? || s.op.Mark?) && s.op.kind == Prime(t)
  }

  /** A shot that is still to come: the task is active, or PrimeTime is about to make it so. */
  function Promised(s: State, shot: Shot): nat {
    if WakeupOf(s.wakeup, shot.task) == shot.wakeup
       && (shot.task in s.active || Priming(s, shot.task)) then 1 else 0
  }

  /** Callbacks and promises never exceed the primes: each PrimeTime leads to one callback at most. */
  ghost predicate Accounted(s: State) {
    forall shot: Shot :: s.fired[shot] + Promised(s, shot) <= s.primed[shot]
  }

  lemma StepKeepsAccount(s: State, step: Step, shot: Shot)
    requires Nested(s) && Enabled(s, step)
    requires s.fired[shot] + Promised(s, shot) <= s.primed[shot]
    ensures Next(s, step).fired[shot] + Promised(Next(s, step), shot) <= Next(s, step).primed[shot]
  {
    hide NextOp, NextIrq, NextThread;
    match step {
      case OpStep =>
        OpKeepsPromise(s, shot);
        hide Promised;
      case IrqStep =>
        IrqKeepsAccount(s, shot);
        hide Promised;
      case ThreadStep =>
        ThreadKeepsRest(s);
      case PrimeBegin(t, w) =>
      case InsTime(t, g) =>
      case _ =>
    }
  }

  /** The timer thread changes wakeup_time, the flag, the semaphore and nothing else. */
  lemma ThreadKeepsRest(s: State)
    requires Enabled(s, ThreadStep)
    ensures var t := NextThread(s);
            t == s.(wakeupTime := t.wakeupTime, flag := t.flag, sem := t.sem, thread := t.thread)
  {
  }

  /** A callback takes the task's promise away. */
  lemma IrqKeepsAccount(s: State, shot: Shot)
    requires Nested(s) && Enabled(s, IrqStep)
    ensures NextIrq(s).primed == s.primed
    ensures NextIrq(s).fired[shot] + Promised(NextIrq(s), shot) == s.fired[shot] + Promised(s, shot)
  {
    hide CmpTime, NextOf;
  }

  /** Operations fire nothing and promise nothing new. */
  lemma OpKeepsPromise(s: State, shot: Shot)
    requires Enabled(s, OpStep)
    ensures NextOp(s).fired == s.fired && NextOp(s).primed == s.primed
    ensures Promised(NextOp(s), shot) <= Promised(s, shot)
  {
    hide Sooner, Without, WakeupOf;
  }

  lemma StepKeepsAccounts(s: State, step: Step)
    requires Nested(s) && Accounted(s) && Enabled(s, step)
    ensures Accounted(Next(s, step))
  {
    forall shot: Shot
      ensures Next(s, step).fired[shot] + Promised(Next(s, step), shot) <= Next(s, step).primed[shot]
    {
      StepKeepsAccount(s, step, shot);
    }
  }

  /** Every scheduled wakeup time, of an active task or one being primed, lies in the span. */
  ghost predicate Within(s: State, span: Span) {
    && (forall t | t in s.active :: span.Has(WakeupOf(s.wakeup, t)))
    && ((s.op.Lock? || s.op.Mark?) && s.op.kind.Prime? ==> span.Has(WakeupOf(s.wakeup, s.op.kind.task)))
  }

  lemma StepKeepsWithin(s: State, step: Step, span: Span)
    requires Within(s, span) && Enabled(s, step) && Proper(step, span)
    ensures Within(Next(s, step), span)
  {
    hide Sooner, CmpTime, Without, NextOf, NextOp;
    if step.OpStep? {
      OpKeepsWithin(s, span);
    }
  }

  lemma OpKeepsWithin(s: State, span: Span)
    requires Within(s, span) && Enabled(s, OpStep)
    ensures Within(NextOp(s), span)
  {
    hide Sooner, Without, WakeupOf;
  }

  /** No callback comes before its wakeup time. */
  ghost predicate OnTime(s: State) {
    forall shot | shot in s.fired :: shot.wakeup <= s.clock
  }

  /** Whatever 64-bit time a task is scheduled for, the wrapped comparison never finds it due early. */
  lemma DueIsNotEarly(w: int, now: int)
    requires IsInt64(w) && InRange(now) && CmpTime(w, now) <= 0
    ensures w <= now
  {
    if w > now {
      CmpTimeOrders(w, now);
    }
  }

  lemma StepKeepsOnTime(s: State, step: Step)
    requires Within(s, ANY_TIME) && Nested(s) && OnTime(s) && Enabled(s, step)
    ensures OnTime(Next(s, step))
  {
    hide Sooner, CmpTime, Without, NextOf, NextOp, NextIrq, Within, Nested;
    if step.IrqStep? {
      IrqKeepsOnTime(s);
    } else if step.OpStep? {
      OpKeepsFired(s);
    }
  }

  lemma OpKeepsFired(s: State)
    requires Enabled(s, OpStep)
    ensures NextOp(s).fired == s.fired && NextOp(s).clock == s.clock
  {
    hide Sooner, Without;
  }

  lemma IrqKeepsOnTime(s: State)
    requires Within(s, ANY_TIME) && Nested(s) && OnTime(s) && Enabled(s, IrqStep)
    ensures OnTime(NextIrq(s))
  {
    if s.irq.Visit? && s.irq.desc.Some? {
      var t := s.irq.desc.value;
      if t in s.active && CmpTime(WakeupOf(s.wakeup, t), s.irq.now) <= 0 {
        DueIsNotEarly(WakeupOf(s.wakeup, t), s.irq.now);
      }
    }
    hide CmpTime, NextOf, WakeupOf;
  }

  // ---------- no task is forgotten ----------

  /** No active task is forgotten: its interrupt is pending or about to be, or wakeup_time is set
      in time for it. */
  ghost predicate Covered(s: State) {
    s.flag || s.thread.Raising? || CoveredBy(s.wakeupTime, s.order, s.wakeup, s.active)
  }

  ghost predicate CoveredBy(w: int, order: seq<Task>, wakeup: map<Task, int>, active: set<Task>) {
    forall t | t in order && t in active :: w <= WakeupOf(wakeup, t)
  }

  /** The emulator thread is not between changing a task and recomputing wakeup_time. */
  predicate Settled(s: State) {
    if s.irq.Outside? || s.irq.Seen? then
      s.op.Idle? || s.op.Free? || s.op.Unlock? || ((s.op.Lock? || s.op.Mark?) && s.op.kind.Remove?)
    else s.irq.Closing? && s.op.Unlock?
  }

  predicate Recomputing(s: State) {
    s.op.Loop? ==> s.op.k <= |s.order| && s.wakeupTime == MinWakeup(s.order[..s.op.k], s.wakeup, s.active)
  }

  ghost predicate Safe(s: State) {
    Recomputing(s) && (Settled(s) ==> Covered(s))
  }

  ghost predicate Inv(s: State, span: Span) {
    Sound(s) && Within(s, span) && Safe(s)
  }

  lemma ThreadKeepsSafe(s: State)
    requires Exclusive(s) && Safe(s) && Enabled(s, ThreadStep)
    ensures Safe(NextThread(s))
  {
    hide MinWakeup, WakeupOf;
  }

  lemma IrqKeepsSafe(s: State)
    requires Nested(s) && Safe(s) && Enabled(s, IrqStep)
    ensures Safe(NextIrq(s))
  {
    hide CmpTime, MinWakeup, WakeupOf, NextOf;
  }

  lemma OpKeepsSafe(s: State, span: Span)
    requires Ordered(span) && Exclusive(s) && Nested(s) && Within(s, span) && Safe(s) && Enabled(s, OpStep)
    ensures Safe(NextOp(s))
  {
    if s.op.Loop? {
      LoopKeepsSafe(s, span);
    } else {
      assert s.order[..0] == [];
      hide Sooner, Without, WakeupOf, Within;
    }
  }

  lemma LoopKeepsSafe(s: State, span: Span)
    requires Ordered(span) && Within(s, span) && Nested(s) && Safe(s) && s.op.Loop?
    ensures Safe(NextOp(s))
  {
    var k := s.op.k;
    if k < |s.order| {
      assert s.order[..k + 1][..k] == s.order[..k];
      hide Sooner, WakeupOf, Within;
    } else {
      assert s.order[..k] == s.order;
      MinWakeupIsEarliest(s.order, s.wakeup, s.active, span);
      hide MinWakeup, Sooner, WakeupOf;
    }
  }

  lemma GuestKeepsSafe(s: State, step: Step)
    requires Sound(s) && Safe(s) && Enabled(s, step)
    requires !step.OpStep? && !step.IrqStep? && !step.ThreadStep?
    ensures Safe(Next(s, step))
  {
    hide MinWakeup, Distinct;
  }

  lemma StepKeepsInv(s: State, step: Step, span: Span)
    requires Ordered(span) && Inv(s, span) && Enabled(s, step) && Proper(step, span)
    ensures Inv(Next(s, step), span)
  {
    StepKeepsSound(s, step);
    StepKeepsWithin(s, step, span);
    match step {
      case OpStep => OpKeepsSafe(s, span);
      case IrqStep => IrqKeepsSafe(s);
      case ThreadStep => ThreadKeepsSafe(s);
      case _ => GuestKeepsSafe(s, step);
    }
    hide Sound, Within, Safe, NextOp, NextIrq, NextThread;
  }

  // ---------- whole runs ----------

  predicate Legal(s: State, steps: seq<Step>)
    decreases |steps|
  {
    steps == [] || (Enabled(s, steps[0]) && Legal(Next(s, steps[0]), steps[1..]))
  }

  function After(s: State, steps: seq<Step>): State
    requires Legal(s, steps)
    decreases |steps|
  {
    if steps == [] then s else After(Next(s, steps[0]), steps[1..])
  }

  predicate AllProper(steps: seq<Step>, span: Span) {
    forall step | step in steps :: Proper(step, span)
  }

  lemma RunStep(s: State, step: Step, rest: seq<Step>)
    requires Enabled(s, step) && Legal(Next(s, step), rest)
    ensures Legal(s, [step] + rest) && After(s, [step] + rest) == After(Next(s, step), rest)
  {
    assert ([step] + rest)[1..] == rest;
  }

  /** What holds in every run, whatever 64-bit times tasks are scheduled for. */
  ghost predicate Fair(s: State) {
    Sound(s) && Within(s, ANY_TIME) && Accounted(s) && OnTime(s)
  }

  lemma InitFair(clock: int)
    requires InRange(clock)
    ensures Fair(Init(clock)) && forall span :: Inv(Init(clock), span)
  {
  }

  lemma {:induction false} RunKeepsFair(s: State, steps: seq<Step>)
    requires Fair(s) && Legal(s, steps) && AllProper(steps, ANY_TIME)
    ensures Fair(After(s, steps))
    decreases |steps|
  {
    if steps != [] {
      assert Proper(steps[0], ANY_TIME);
      StepKeepsSound(s, steps[0]);
      StepKeepsWithin(s, steps[0], ANY_TIME);
      StepKeepsAccounts(s, steps[0]);
      StepKeepsOnTime(s, steps[0]);
      hide Sound, Within, Accounted, OnTime, Next;
      RunKeepsFair(Next(s, steps[0]), steps[1..]);
    }
  }

  lemma {:induction false} RunKeepsInv(s: State, steps: seq<Step>, span: Span)
    requires Ordered(span) && Inv(s, span) && Legal(s, steps) && AllProper(steps, span)
    ensures Inv(After(s, steps), span)
    decreases |steps|
  {
    if steps != [] {
      StepKeepsInv(s, steps[0], span);
      hide Inv, Next;
      RunKeepsInv(Next(s, steps[0]), steps[1..], span);
    }
  }

  /** Outside an operation, the timer interrupt is pending (or the timer thread is on the point of
      raising it), or wakeup_time is no later than the wakeup time of every active task. */
  ghost predicate NothingMissed(s: State) {
    s.op.Idle? && s.irq.Outside? && !s.flag && !s.thread.Raising?
    ==> forall t | t in s.order && t in s.active :: s.wakeupTime <= WakeupOf(s.wakeup, t)
  }

  /** No task is missed in any interleaving of operations that schedule tasks for ordered times. */
  lemma NoTaskMissed(clock: int, steps: seq<Step>, span: Span)
    requires InRange(clock) && Legal(Init(clock), steps) && Ordered(span) && AllProper(steps, span)
    ensures NothingMissed(After(Init(clock), steps))
  {
    InitFair(clock);
    RunKeepsInv(Init(clock), steps, span);
  }

  /** Over any run, each PrimeTime causes at most one callback of its task, never before the
      wakeup time it computed; a task still active has a callback left to come. */
  lemma EachPrimeFiresOnce(clock: int, steps: seq<Step>, shot: Shot)
    requires InRange(clock) && Legal(Init(clock), steps) && AllProper(steps, ANY_TIME)
    ensures var s := After(Init(clock), steps);
            && s.fired[shot] + Promised(s, shot) <= s.primed[shot]
            && (shot in s.fired ==> shot.wakeup <= s.clock)
  {
    InitFair(clock);
    RunKeepsFair(Init(clock), steps);
  }

  /** During the interrupt's walk the saved descriptor is still in the list, so that what the
      interrupt has still to visit is a tail of the list as the callbacks have left it; and the
      two threads never work on wakeup_time together. */
  lemma WalkIsSafe(clock: int, steps: seq<Step>)
    requires InRange(clock) && Legal(Init(clock), steps) && AllProper(steps, ANY_TIME)
    ensures var s := After(Init(clock), steps);
            && (Walking(s) && s.irq.desc.Some? ==> Rest(s) != [] && Rest(s)[0] == s.irq.desc.value)
            && (exists k | 0 <= k <= |s.order| :: Rest(s) == s.order[k..])
            && !((s.op.Reset? || s.op.Loop?) && (s.thread.Checking? || s.thread.Raising?))
  {
    InitFair(clock);
    RunKeepsFair(Init(clock), steps);
    var s := After(Init(clock), steps);
    if Walking(s) && s.irq.desc.Some? {
      TailIsSuffix(s.order, s.irq.desc.value);
    } else {
      assert Rest(s) == s.order[|s.order|..];
    }
  }

  // ---------- the walk ends ----------

  /** How many descriptors the interrupt looks at before the walk under way ends. */
  function Visits(s: State, steps: seq<Step>): nat
    requires Legal(s, steps)
    decreases |steps|
  {
    if steps == [] || !Walking(s) then 0 else
    (if steps[0].IrqStep? && s.irq.Visit? && s.irq.desc.Some? then 1 else 0) + Visits(Next(s, steps[0]), steps[1..])
  }

  lemma OpShortensRest(s: State)
    requires Sound(s) && Enabled(s, OpStep) && Walking(s)
    ensures |Rest(NextOp(s))| <= |Rest(s)|
    ensures forall t | t in Rest(s) && !RemovingTask(s, t) :: t in Rest(NextOp(s))
  {
    hide Sooner, WakeupOf, Distinct, Without, TailFrom;
    if s.op.Free? && s.irq.desc.Some? {
      TailWithout(s.order, s.irq.desc.value, s.op.task);
    }
  }

  lemma IrqShortensRest(s: State)
    requires Sound(s) && Enabled(s, IrqStep) && Walking(s)
    ensures s.irq.Visit? && s.irq.desc.Some? ==>
            Rest(NextIrq(s)) == Rest(s)[1..] && s.irq.desc.value !in Rest(NextIrq(s))
    ensures s.irq.InTask? ==> Rest(NextIrq(s)) == Rest(s)
  {
    hide CmpTime, WakeupOf, Distinct, TailFrom, NextOf;
    if s.irq.Visit? && s.irq.desc.Some? {
      TailOfNext(s.order, s.irq.desc.value);
    }
  }

  /** What a callback inserts comes in front of the saved descriptor. */
  lemma GuestKeepsRest(s: State, step: Step)
    requires Sound(s) && Enabled(s, step) && Walking(s)
    requires !step.OpStep? && !step.IrqStep?
    ensures Rest(Next(s, step)) == Rest(s)
  {
    hide Distinct, TailFrom, NextThread;
    match step {
      case InsTime(t, g) =>
        if s.irq.desc.Some? && t !in s.order {
          assert s.irq.desc.value in s.order;
          TailOfInserted(s.order, s.irq.desc.value, t);
        }
      case ThreadStep =>
        ThreadKeepsRest(s);
      case _ =>
    }
  }

  /** A pass of the interrupt ends whatever the callbacks insert, remove or re-prime, and whatever
      the timer thread does: it looks at no more descriptors than were ahead of it. */
  lemma {:induction false} WalkEnds(s: State, steps: seq<Step>)
    requires Sound(s) && Legal(s, steps) && AllProper(steps, ANY_TIME)
    ensures Visits(s, steps) <= |Rest(s)|
    decreases |steps|
  {
    if steps != [] && Walking(s) {
      assert Proper(steps[0], ANY_TIME);
      var s' := Next(s, steps[0]);
      StepKeepsSound(s, steps[0]);
      match steps[0] {
        case OpStep => OpShortensRest(s);
        case IrqStep => IrqShortensRest(s);
        case _ => GuestKeepsRest(s, steps[0]);
      }
      hide Sound, NextOp, NextIrq, NextThread, Rest;
      WalkEnds(s', steps[1..]);
    }
  }
}
