/** What the Time Manager's calls and its interrupt do, as functions on its state, shown to be runs
    of the emulator thread in the two-thread model. */
module TimerCalls {
  import opened Bytes
  import opened TimerTime
  import opened TaskList
  import opened TimerProtocol
  import opened TimerRuns

  /** The shared state together with what only the emulator thread looks at. */
  datatype Managed = Managed(
    s: State,
    extended: set<Task>,       // tasks with 0x4000 set in qType
    scheduled: set<Task>,      // tasks whose tmWakeUp is not zero
    tmCount: map<Task, int>
  )

  /** A Time Manager call of the guest, with the host time at which it is made. */
  datatype Call =
    | CallIns(task: Task, trap: nat, garbage: int)
    | CallRmv(task: Task, now: int)
    | CallPrime(task: Task, time: int, now: int)

  function CountOf(tmCount: map<Task, int>, t: Task): int {
    if t in tmCount then tmCount[t] else 0
  }

  function WakeupFor(m: Managed, t: Task, time: int, now: int): int {
    PrimedWakeup(WakeupOf(m.s.wakeup, t), t in m.extended, t in m.scheduled, CountOf(m.tmCount, t), time, now)
  }

  // ---------- the effect of the operations ----------

  /** The trap word's bit 10 asks for an extended task. */
  predicate Extends(trap: nat) {
    trap / 0x400 % 2 == 1
  }

  function InsEffect(m: Managed, t: Task, trap: nat, garbage: int): Managed {
    m.(s := Inserted(m.s, t, garbage),
       extended := if Extends(trap) then m.extended + {t} else m.extended - {t})
  }

  /** An active task's remaining time is left in tmCount. */
  function RmvEffect(m: Managed, t: Task, now: int): Managed {
    if t !in m.s.order then m else
    m.(s := RemoveEffect(m.s, t),
       tmCount := m.tmCount[t := if t in m.s.active then Host2Mac(SubTime(WakeupOf(m.s.wakeup, t), now)) else 0])
  }

  function PrimedEffect(m: Managed, t: Task, time: int, now: int): Managed {
    if t !in m.s.order then m else
    m.(s := PrimeEffect(m.s, t, WakeupFor(m, t, time, now)),
       scheduled := if t in m.extended then m.scheduled + {t} else m.scheduled)
  }

  function CallEffect(m: Managed, c: Call): Managed {
    match c
    case CallIns(t, trap, garbage) => InsEffect(m, t, trap, garbage)
    case CallRmv(t, now) => RmvEffect(m, t, now)
    case CallPrime(t, time, now) => PrimedEffect(m, t, time, now)
  }

  /** A callback: its calls one after the other. */
  function CallsEffect(m: Managed, calls: seq<Call>): Managed {
    if calls == [] then m else
    var n := |calls| - 1;
    CallEffect(CallsEffect(m, calls[..n]), calls[n])
  }

  function CallSteps(m: Managed, c: Call): seq<Step> {
    match c
    case CallIns(t, trap, garbage) => [Step.InsTime(t, garbage)]
    case CallRmv(t, now) => RemoveSteps(m.s, t)
    case CallPrime(t, time, now) => PrimeSteps(m.s, t, WakeupFor(m, t, time, now))
  }

  function CallsSteps(m: Managed, calls: seq<Call>): seq<Step> {
    if calls == [] then [] else
    var n := |calls| - 1;
    CallsSteps(m, calls[..n]) + CallSteps(CallsEffect(m, calls[..n]), calls[n])
  }

  /** A callback does not remove the task whose descriptor the interrupt visits next. */
  predicate Spares(calls: seq<Call>, next: Option<Task>) {
    forall c | c in calls :: c.CallRmv? ==> next != Some(c.task)
  }

  lemma CallRuns(m: Managed, c: Call)
    requires MayCall(m.s) && m.s.sem.Nobody?
    requires c.CallRmv? && m.s.irq.InTask? ==> m.s.irq.desc != Some(c.task)
    ensures Reaches(m.s, CallSteps(m, c), CallEffect(m, c).s)
    ensures var e := CallEffect(m, c).s; e == m.s.(order := e.order, wakeup := e.wakeup, active := e.active,
              wakeupTime := e.wakeupTime, thread := e.thread, primed := e.primed)
  {
    match c
    case CallIns(t, trap, garbage) => OneStepRuns(m.s, Step.InsTime(t, garbage));
    case CallRmv(t, now) => RemoveRuns(m.s, t);
    case CallPrime(t, time, now) => PrimeRuns(m.s, t, WakeupFor(m, t, time, now));
  }

  lemma {:induction false} CallsRun(m: Managed, calls: seq<Call>)
    requires MayCall(m.s) && m.s.sem.Nobody?
    requires m.s.irq.InTask? ==> Spares(calls, m.s.irq.desc)
    ensures Reaches(m.s, CallsSteps(m, calls), CallsEffect(m, calls).s)
    ensures var e := CallsEffect(m, calls).s; e == m.s.(order := e.order, wakeup := e.wakeup, active := e.active,
              wakeupTime := e.wakeupTime, thread := e.thread, primed := e.primed)
  {
    if calls != [] {
      var n := |calls| - 1;
      CallsRun(m, calls[..n]);
      var m1 := CallsEffect(m, calls[..n]);
      assert calls[n] in calls;
      CallRuns(m1, calls[n]);
      hide Reaches, CallEffect, CallSteps;
      ReachAppend(m.s, CallsSteps(m, calls[..n]), m1.s, CallSteps(m1, calls[n]), CallEffect(m1, calls[n]).s);
    }
  }

  // ---------- what a callback does to the list ----------

  /** A call keeps the list free of duplicates and the saved descriptor in it, and makes the list
      behind that descriptor no longer. */
  lemma CallKeepsTail(m: Managed, c: Call, next: Option<Task>)
    requires Distinct(m.s.order) && (next.Some? ==> next.value in m.s.order)
    requires c.CallRmv? ==> next != Some(c.task)
    ensures var order := CallEffect(m, c).s.order;
            && Distinct(order) && (next.Some? ==> next.value in order)
            && |Tail(order, next)| <= |Tail(m.s.order, next)|
    ensures Tail(CallEffect(m, c).s.order, next) ==
            if c.CallRmv? then Without(Tail(m.s.order, next), c.task) else Tail(m.s.order, next)
  {
    hide TailFrom, PrimeEffect, WakeupFor;
    match c {
      case CallIns(t, trap, garbage) =>
        assert ([t] + m.s.order)[1..] == m.s.order;
        if next.Some? && t !in m.s.order {
          TailOfInserted(m.s.order, next.value, t);
        }
      case CallRmv(t, now) =>
        WithoutKeepsDistinct(m.s.order, t);
        if next.Some? {
          TailWithout(m.s.order, next.value, t);
        }
        if t !in m.s.order {
          WithoutAbsent(m.s.order, t);
          WithoutAbsent(Tail(m.s.order, next), t);
        }
      case CallPrime(t, time, now) =>
        PrimeKeepsOrder(m.s, t, WakeupFor(m, t, time, now));
    }
  }

  lemma PrimeKeepsOrder(s: State, t: Task, w: int)
    ensures PrimeEffect(s, t, w).order == s.order
  {
  }

  lemma {:induction false} CallsKeepTail(m: Managed, calls: seq<Call>, next: Option<Task>)
    requires Distinct(m.s.order) && (next.Some? ==> next.value in m.s.order) && Spares(calls, next)
    ensures var order := CallsEffect(m, calls).s.order;
            && Distinct(order) && (next.Some? ==> next.value in order)
            && |Tail(order, next)| <= |Tail(m.s.order, next)|
            && (forall t | t in Tail(order, next) :: t in Tail(m.s.order, next))
  {
    if calls != [] {
      var n := |calls| - 1;
      CallsKeepTail(m, calls[..n], next);
      assert calls[n] in calls;
      hide CallEffect, Tail, Distinct;
      CallKeepsTail(CallsEffect(m, calls[..n]), calls[n], next);
    }
  }

  // ---------- the interrupt ----------

  /** How an interrupt ends: with a saved descriptor freed by a callback; or at the list's end, having
      made these callbacks and, in them, these calls, as these steps of the two-thread model. */
  datatype Walked =
    | Dangling
    | Walked(m: Managed, called: seq<Shot>, steps: seq<Step>, made: seq<Call>)

  function Script(calls: map<Task, seq<Call>>, t: Task): seq<Call> {
    if t in calls then calls[t] else []
  }

  ghost predicate AtDescriptor(s: State) {
    && s.irq.Visit? && s.op.Idle? && s.sem.Nobody?
    && Distinct(s.order) && (s.irq.desc.Some? ==> s.irq.desc.value in s.order)
  }

  lemma VisitMovesOn(s: State)
    requires AtDescriptor(s) && s.irq.desc.Some?
    ensures var s1 := NextIrq(s);
            && s1.op.Idle? && s1.sem.Nobody? && s1.order == s.order && Walking(s1)
            && s1.irq.desc == NextOf(s.order, s.irq.desc.value)
            && Tail(s.order, s1.irq.desc) == Tail(s.order, s.irq.desc)[1..]
            && (s1.irq.desc.Some? ==> s1.irq.desc.value in s.order)
  {
    TailOfNext(s.order, s.irq.desc.value);
    hide CmpTime, TailFrom, NextOf;
  }

  /** The callback of a task found due, called in state `m`, up to its return. */
  function Called(m: Managed, script: seq<Call>): (r: Managed)
    requires m.s.irq.InTask? && m.s.op.Idle?
  {
    var m1 := CallsEffect(m, script);
    m1.(s := m1.s.(irq := Visit(m.s.irq.now, m.s.irq.desc)))
  }

  lemma CalledIsAtDescriptor(m: Managed, script: seq<Call>)
    requires m.s.irq.InTask? && m.s.op.Idle? && m.s.sem.Nobody? && Distinct(m.s.order)
    requires (m.s.irq.desc.Some? ==> m.s.irq.desc.value in m.s.order) && Spares(script, m.s.irq.desc)
    ensures AtDescriptor(Called(m, script).s)
    ensures |Tail(Called(m, script).s.order, m.s.irq.desc)| <= |Tail(m.s.order, m.s.irq.desc)|
    ensures forall t | t in Tail(Called(m, script).s.order, m.s.irq.desc) :: t in Tail(m.s.order, m.s.irq.desc)
  {
    CallsRun(m, script);
    CallsKeepTail(m, script, m.s.irq.desc);
    hide CallsEffect, CallsSteps, Reaches, Tail, Distinct;
  }

  /** One visit: the state in which the interrupt comes to the next descriptor, the callback made,
      its steps in the two-thread model, and the number of calls in the callback. */
  function AfterVisit(m: Managed, calls: map<Task, seq<Call>>): Managed
    requires m.s.irq.Visit? && m.s.op.Idle? && m.s.irq.desc.Some?
  {
    var m1 := m.(s := NextIrq(m.s));
    if m1.s.irq.InTask? then Called(m1, Script(calls, m.s.irq.desc.value)) else m1
  }

  predicate VisitSpares(m: Managed, calls: map<Task, seq<Call>>)
    requires m.s.irq.Visit? && m.s.op.Idle? && m.s.irq.desc.Some?
  {
    NextIrq(m.s).irq.InTask? ==> Spares(Script(calls, m.s.irq.desc.value), NextIrq(m.s).irq.desc)
  }

  function VisitShots(s: State): seq<Shot>
    requires s.irq.Visit? && s.op.Idle? && s.irq.desc.Some?
  {
    if NextIrq(s).irq.InTask? then [Shot(s.irq.desc.value, WakeupOf(s.wakeup, s.irq.desc.value))] else []
  }

  function VisitSteps(m: Managed, calls: map<Task, seq<Call>>): seq<Step>
    requires m.s.irq.Visit? && m.s.op.Idle? && m.s.irq.desc.Some?
  {
    var m1 := m.(s := NextIrq(m.s));
    if m1.s.irq.InTask? then [IrqStep] + (CallsSteps(m1, Script(calls, m.s.irq.desc.value)) + [IrqStep]) else [IrqStep]
  }

  function VisitCalls(m: Managed, calls: map<Task, seq<Call>>): seq<Call>
    requires m.s.irq.Visit? && m.s.op.Idle? && m.s.irq.desc.Some?
  {
    if NextIrq(m.s).irq.InTask? then Script(calls, m.s.irq.desc.value) else []
  }

  /** Whatever a visit's callback does, the saved descriptor is still in the list, with fewer
      descriptors from there on, none of them new. */
  lemma VisitLands(m: Managed, calls: map<Task, seq<Call>>)
    requires AtDescriptor(m.s) && m.s.irq.desc.Some? && VisitSpares(m, calls)
    ensures var m' := AfterVisit(m, calls);
            && AtDescriptor(m'.s) && m'.s.irq.now == m.s.irq.now
            && |Tail(m'.s.order, m'.s.irq.desc)| < |Tail(m.s.order, m.s.irq.desc)|
            && (forall t | t in Tail(m'.s.order, m'.s.irq.desc) ::
                  t in Tail(m.s.order, m.s.irq.desc) && t != m.s.irq.desc.value)
  {
    VisitMovesOn(m.s);
    TailOfNext(m.s.order, m.s.irq.desc.value);
    VisitLeaves(m.s, m.s.irq.desc.value);
    var m1 := m.(s := NextIrq(m.s));
    if m1.s.irq.InTask? {
      CalledIsAtDescriptor(m1, Script(calls, m.s.irq.desc.value));
    }
    hide NextIrq, TailFrom, NextOf, CallsEffect, Script, Spares, Distinct;
  }

  lemma VisitLeaves(s: State, t: Task)
    requires Enabled(s, IrqStep) && s.irq.Visit? && s.irq.desc.Some?
    ensures NextIrq(s).wakeup == s.wakeup && Walking(NextIrq(s)) && NextIrq(s).irq.now == s.irq.now
    ensures t != s.irq.desc.value ==> (t in NextIrq(s).active <==> t in s.active)
    ensures NextIrq(s).irq.InTask? <==> Due(s, s.irq.desc.value)
    ensures NextIrq(s).fired == s.fired + multiset(VisitShots(s))
  {
    hide CmpTime, NextOf;
  }

  predicate Due(s: State, t: Task)
    requires s.irq.Visit?
  {
    t in s.active && CmpTime(WakeupOf(s.wakeup, t), s.irq.now) <= 0
  }

  lemma VisitRuns(m: Managed, calls: map<Task, seq<Call>>)
    requires AtDescriptor(m.s) && m.s.irq.desc.Some? && VisitSpares(m, calls)
    ensures Reaches(m.s, VisitSteps(m, calls), AfterVisit(m, calls).s)
    ensures AfterVisit(m, calls).s.fired == m.s.fired + multiset(VisitShots(m.s))
  {
    VisitMovesOn(m.s);
    VisitLeaves(m.s, 0);
    OneStepRuns(m.s, IrqStep);
    var m1 := m.(s := NextIrq(m.s));
    if m1.s.irq.InTask? {
      var script := Script(calls, m.s.irq.desc.value);
      CalledRuns(m1, script);
      hide Reaches, NextIrq, Called, CallsSteps, Script, Tail;
      ReachAppend(m.s, [IrqStep], m1.s, CallsSteps(m1, script) + [IrqStep], Called(m1, script).s);
    }
  }

  lemma CalledRuns(m: Managed, script: seq<Call>)
    requires m.s.irq.InTask? && m.s.op.Idle? && m.s.sem.Nobody? && Spares(script, m.s.irq.desc)
    ensures Reaches(m.s, CallsSteps(m, script) + [IrqStep], Called(m, script).s)
    ensures Called(m, script).s.fired == m.s.fired
  {
    CallsRun(m, script);
    var m1 := CallsEffect(m, script);
    OneStepRuns(m1.s, IrqStep);
    hide Reaches, CallsEffect, CallsSteps;
    ReachAppend(m.s, CallsSteps(m, script), m1.s, [IrqStep], Called(m, script).s);
  }

  /** The walk over the live list; `calls` says what each task's callback does. */
  function Walk(m: Managed, calls: map<Task, seq<Call>>): Walked
    requires AtDescriptor(m.s)
    decreases |Tail(m.s.order, m.s.irq.desc)|
  {
    if m.s.irq.desc.None? then Walked(m, [], [], []) else
    if !VisitSpares(m, calls) then Dangling else
    VisitLands(m, calls);
    Before(VisitShots(m.s), VisitSteps(m, calls), VisitCalls(m, calls), Walk(AfterVisit(m, calls), calls))
  }

  /** The walk that has made these calls before. */
  function Before(called: seq<Shot>, steps: seq<Step>, made: seq<Call>, w: Walked): Walked {
    if w.Dangling? then w else w.(called := called + w.called, steps := steps + w.steps, made := made + w.made)
  }

  lemma WalkUnfolds(m: Managed, calls: map<Task, seq<Call>>)
    requires AtDescriptor(m.s) && m.s.irq.desc.Some? && Walk(m, calls).Walked?
    ensures VisitSpares(m, calls) && AtDescriptor(AfterVisit(m, calls).s)
    ensures var m' := AfterVisit(m, calls);
            && |Tail(m'.s.order, m'.s.irq.desc)| < |Tail(m.s.order, m.s.irq.desc)|
            && Walk(m', calls).Walked? && Walk(m, calls).m == Walk(m', calls).m
            && Walk(m, calls).steps == VisitSteps(m, calls) + Walk(m', calls).steps
            && |Walk(m, calls).made| == |VisitCalls(m, calls)| + |Walk(m', calls).made|
  {
    VisitLands(m, calls);
    hide VisitSteps, VisitShots, VisitCalls, AfterVisit, VisitSpares, AtDescriptor, Tail;
  }

  /** The walk is a run of the interrupt's steps in the two-thread model. */
  lemma {:induction false} WalkRuns(m: Managed, calls: map<Task, seq<Call>>)
    requires AtDescriptor(m.s) && Walk(m, calls).Walked?
    ensures var w := Walk(m, calls);
            && AtDescriptor(w.m.s) && w.m.s.irq == Visit(m.s.irq.now, None)
            && Reaches(m.s, w.steps, w.m.s)
            && w.m.s.fired == m.s.fired + multiset(w.called)
    decreases |Tail(m.s.order, m.s.irq.desc)|
  {
    if m.s.irq.desc.None? {
      assert Reaches(m.s, [], m.s);
    } else {
      VisitLands(m, calls);
      VisitRuns(m, calls);
      var m' := AfterVisit(m, calls);
      WalkRuns(m', calls);
      hide Reaches, AfterVisit, VisitSteps, VisitShots, VisitCalls, VisitSpares, AtDescriptor, Tail;
      ReachAppend(m.s, VisitSteps(m, calls), m'.s, Walk(m', calls).steps, Walk(m', calls).m.s);
    }
  }

  // ---------- who is called ----------

  /** The callbacks among these that are the task's. */
  function CallsOf(called: seq<Shot>, t: Task): seq<Shot> {
    if called == [] then [] else
    (if called[0].task == t then [called[0]] else []) + CallsOf(called[1..], t)
  }

  lemma {:induction false} CallsOfBoth(a: seq<Shot>, b: seq<Shot>, t: Task)
    ensures CallsOf(a + b, t) == CallsOf(a, t) + CallsOf(b, t)
  {
    if a == [] {
      assert a + b == b;
    } else {
      CallsOfBoth(a[1..], b, t);
      assert a + b == [a[0]] + (a[1..] + b);
      CallsOfFirst(a[0], a[1..] + b, t);
      CallsOfFirst(a[0], a[1..], t);
      assert a == [a[0]] + a[1..];
      hide *;
    }
  }

  lemma CallsOfFirst(shot: Shot, called: seq<Shot>, t: Task)
    ensures CallsOf([shot] + called, t) == (if shot.task == t then [shot] else []) + CallsOf(called, t)
  {
    assert ([shot] + called)[1..] == called;
  }

  lemma CallsOfVisit(s: State, t: Task)
    requires s.irq.Visit? && s.op.Idle? && s.irq.desc.Some?
    ensures CallsOf(VisitShots(s), t) ==
            if t == s.irq.desc.value && Due(s, t) then [Shot(t, WakeupOf(s.wakeup, t))] else []
  {
    VisitLeaves(s, t);
    hide NextIrq, Due;
  }

  /** One pass calls each task at most once, and only tasks that were ahead of it: what a callback
      inserts or primes again has to wait for the next interrupt. */
  lemma {:induction false} CalledAtMostOnce(m: Managed, calls: map<Task, seq<Call>>, t: Task)
    requires AtDescriptor(m.s) && Walk(m, calls).Walked?
    ensures |CallsOf(Walk(m, calls).called, t)| <= if t in Tail(m.s.order, m.s.irq.desc) then 1 else 0
    decreases |Tail(m.s.order, m.s.irq.desc)|
  {
    if m.s.irq.desc.Some? {
      VisitLands(m, calls);
      var m' := AfterVisit(m, calls);
      CalledAtMostOnce(m', calls, t);
      CallsOfBoth(VisitShots(m.s), Walk(m', calls).called, t);
      CallsOfVisit(m.s, t);
      hide CallsOf, AfterVisit, VisitSteps, VisitShots, VisitCalls, VisitSpares, TailFrom, Due, Distinct;
    }
  }

  /** No call in a callback concerns the task. */
  ghost predicate Untouched(calls: map<Task, seq<Call>>, t: Task) {
    forall u, c | u in calls && c in calls[u] :: c.task != t
  }

  lemma CallLeaves(m: Managed, c: Call, t: Task, next: Option<Task>)
    requires c.task != t && Distinct(m.s.order) && (next.Some? ==> next.value in m.s.order)
    requires c.CallRmv? ==> next != Some(c.task)
    ensures var e := CallEffect(m, c).s;
            && (t in e.active <==> t in m.s.active) && WakeupOf(e.wakeup, t) == WakeupOf(m.s.wakeup, t)
            && (t in Tail(e.order, next) <==> t in Tail(m.s.order, next))
  {
    CallKeepsTail(m, c, next);
    CallLeavesTask(m, c, t);
    hide CallEffect, Tail, Distinct, WakeupOf;
  }

  lemma CallLeavesTask(m: Managed, c: Call, t: Task)
    requires c.task != t
    ensures var e := CallEffect(m, c).s;
            (t in e.active <==> t in m.s.active) && WakeupOf(e.wakeup, t) == WakeupOf(m.s.wakeup, t)
  {
    hide Tail, Distinct, WakeupFor, MinWakeup, Host2Mac, SubTime, Without;
  }

  lemma {:induction false} CallsLeave(m: Managed, calls: seq<Call>, t: Task, next: Option<Task>)
    requires forall c | c in calls :: c.task != t
    requires Distinct(m.s.order) && (next.Some? ==> next.value in m.s.order) && Spares(calls, next)
    ensures var e := CallsEffect(m, calls).s;
            && (t in e.active <==> t in m.s.active) && WakeupOf(e.wakeup, t) == WakeupOf(m.s.wakeup, t)
            && (t in Tail(e.order, next) <==> t in Tail(m.s.order, next))
  {
    if calls != [] {
      var n := |calls| - 1;
      CallsLeave(m, calls[..n], t, next);
      CallsKeepTail(m, calls[..n], next);
      assert calls[n] in calls;
      hide CallEffect, Tail, Distinct, WakeupOf;
      CallLeaves(CallsEffect(m, calls[..n]), calls[n], t, next);
    }
  }

  /** A visit of another descriptor leaves an untouched task as it was. */
  lemma VisitPasses(m: Managed, calls: map<Task, seq<Call>>, t: Task)
    requires AtDescriptor(m.s) && m.s.irq.desc.Some? && VisitSpares(m, calls)
    requires Untouched(calls, t) && t != m.s.irq.desc.value
    ensures var e := AfterVisit(m, calls).s;
            && (t in e.active <==> t in m.s.active) && WakeupOf(e.wakeup, t) == WakeupOf(m.s.wakeup, t)
            && (t in Tail(e.order, e.irq.desc) <==> t in Tail(m.s.order, m.s.irq.desc))
  {
    VisitMovesOn(m.s);
    VisitLeaves(m.s, t);
    var m1 := m.(s := NextIrq(m.s));
    if m1.s.irq.InTask? {
      CallsLeave(m1, Script(calls, m.s.irq.desc.value), t, m1.s.irq.desc);
    }
    hide NextIrq, CallsEffect, WakeupOf, TailFrom, NextOf, Distinct, Spares;
  }

  /** A task that no callback touches is called exactly if it is ahead, active and due, and then once
      and for its own wakeup time. */
  lemma {:induction false} CalledExactly(m: Managed, calls: map<Task, seq<Call>>, t: Task)
    requires AtDescriptor(m.s) && Walk(m, calls).Walked? && Untouched(calls, t)
    ensures CallsOf(Walk(m, calls).called, t)
         == if t in Tail(m.s.order, m.s.irq.desc) && Due(m.s, t) then [Shot(t, WakeupOf(m.s.wakeup, t))] else []
    decreases |Tail(m.s.order, m.s.irq.desc)|
  {
    if m.s.irq.desc.Some? {
      VisitLands(m, calls);
      var m' := AfterVisit(m, calls);
      CallsOfBoth(VisitShots(m.s), Walk(m', calls).called, t);
      CallsOfVisit(m.s, t);
      if t == m.s.irq.desc.value {
        CalledAtMostOnce(m', calls, t);
      } else {
        VisitPasses(m, calls, t);
        CalledExactly(m', calls, t);
      }
      hide CallsOf, AfterVisit, VisitSteps, VisitShots, VisitCalls, VisitSpares, Distinct, WakeupOf;
    }
  }

  /** The callbacks' calls, in the order of the callbacks. */
  function Scripts(calls: map<Task, seq<Call>>, called: seq<Shot>): seq<Call> {
    if called == [] then [] else Script(calls, called[0].task) + Scripts(calls, called[1..])
  }

  /** The calls made are those of the callbacks made, each callback from beginning to end. */
  lemma {:induction false} CallsMade(m: Managed, calls: map<Task, seq<Call>>)
    requires AtDescriptor(m.s) && Walk(m, calls).Walked?
    ensures Walk(m, calls).made == Scripts(calls, Walk(m, calls).called)
    decreases |Tail(m.s.order, m.s.irq.desc)|
  {
    if m.s.irq.desc.Some? {
      VisitLands(m, calls);
      var m' := AfterVisit(m, calls);
      CallsMade(m', calls);
      var shots, later := VisitShots(m.s), Walk(m', calls).called;
      if shots == [] {
        assert shots + later == later;
      } else {
        assert (shots + later)[1..] == later;
      }
      hide AfterVisit, VisitSteps, VisitSpares, Tail, AtDescriptor, NextIrq;
    }
  }

  // ---------- the whole interrupt ----------

  /** Nothing is under way, and the timer thread is not involved. */
  ghost predicate Quiet(s: State) {
    s.op.Idle? && s.irq.Outside? && s.sem.Nobody? && s.thread.Awake? && Distinct(s.order)
  }

  /** The flag cleared, the time read and the walk at the list's head. */
  function Entered(s: State): State {
    s.(flag := false, irq := Visit(s.clock, HeadOf(s.order)))
  }

  lemma EnteredIsAtDescriptor(s: State)
    requires Quiet(s)
    ensures AtDescriptor(Entered(s)) && Tail(s.order, HeadOf(s.order)) == s.order
  {
  }

  /** The dispatch of a pending interrupt. */
  function Dispatched(m: Managed, calls: map<Task, seq<Call>>): Walked
    requires Quiet(m.s)
  {
    EnteredIsAtDescriptor(m.s);
    Ended(Walk(m.(s := Entered(m.s)), calls))
  }

  /** The walk followed by the recomputation of wakeup_time. */
  function Ended(w: Walked): Walked {
    if w.Dangling? then w else
    w.(m := w.m.(s := Closed(w.m.s)), steps := w.steps + ([IrqStep] + OpSteps(|w.m.s.order| + 5)))
  }

  /** With nothing left to visit, the walk is what has been done. */
  lemma WalkOver(w: Walked, called: seq<Shot>, steps: seq<Step>, made: seq<Call>, m: Managed,
                 calls: map<Task, seq<Call>>)
    requires AtDescriptor(m.s) && m.s.irq.desc.None? && w == Before(called, steps, made, Walk(m, calls))
    ensures w.Walked? && w.called == called && Distinct(m.s.order)
    ensures Ended(w).Walked? && Ended(w).called == called && Ended(w).m == m.(s := Closed(m.s))
    ensures Closed(m.s).order == m.s.order
  {
    hide MinWakeup;
  }

  lemma WalkEndsRuns(m: Managed, calls: map<Task, seq<Call>>)
    requires AtDescriptor(m.s) && Walk(m, calls).Walked?
    ensures var w := Ended(Walk(m, calls)); Reaches(m.s, w.steps, w.m.s)
    ensures Ended(Walk(m, calls)).m.s.op.Idle? && Distinct(Ended(Walk(m, calls)).m.s.order)
  {
    WalkRuns(m, calls);
    var w := Walk(m, calls);
    ClosingRuns(w.m.s);
    hide Reaches, OpSteps, MinWakeup, Walk, Distinct, Tail;
    ReachAppend(m.s, w.steps, w.m.s, [IrqStep] + OpSteps(|w.m.s.order| + 5), Closed(w.m.s));
  }

  /** The dispatch is a run of the interrupt's steps, back to where no interrupt is served. */
  lemma DispatchRuns(m: Managed, calls: map<Task, seq<Call>>)
    requires Quiet(m.s) && m.s.flag && Dispatched(m, calls).Walked?
    ensures var w := Dispatched(m, calls); Reaches(m.s, [IrqStep, IrqStep, IrqStep] + w.steps, w.m.s)
  {
    EnteredIsAtDescriptor(m.s);
    var m1, w := m.(s := Entered(m.s)), Dispatched(m, calls);
    WalkEndsRuns(m1, calls);
    OneStepRuns(m.s.(irq := Cleared, flag := false), IrqStep);
    ReachStep(m.s.(irq := Seen), IrqStep, [IrqStep], m1.s);
    ReachStep(m.s, IrqStep, [IrqStep, IrqStep], m1.s);
    hide Reaches, Walk, Distinct, Tail;
    ReachAppend(m.s, [IrqStep, IrqStep, IrqStep], m1.s, w.steps, w.m.s);
  }

  /** A due task is called by the dispatch, wherever it is in the list: with a clear view of what the
      callbacks do, once for its own time; and a task that is not due is not called. */
  lemma DispatchCalls(m: Managed, calls: map<Task, seq<Call>>, t: Task)
    requires Quiet(m.s) && Dispatched(m, calls).Walked? && Untouched(calls, t)
    ensures CallsOf(Dispatched(m, calls).called, t)
         == if t in m.s.order && t in m.s.active && CmpTime(WakeupOf(m.s.wakeup, t), m.s.clock) <= 0
            then [Shot(t, WakeupOf(m.s.wakeup, t))] else []
  {
    EnteredIsAtDescriptor(m.s);
    CalledExactly(m.(s := Entered(m.s)), calls, t);
    hide CmpTime, Walk, CallsOf, Distinct, TailFrom, WakeupOf;
  }
}
