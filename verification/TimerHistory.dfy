/** What the Time Manager owes to a guest that asks for delays it can express: a history of calls,
    interrupts and thread rounds in which no task is missed. */
module TimerHistory {
  import opened Bytes
  import opened TimerTime
  import opened TaskList
  import opened TimerProtocol
  import opened TimerDeadline
  import opened TimerRuns
  import opened TimerCalls

  const TIMES := Span(0, MAX_TIME)

  datatype Event =
    | Guest(call: Call)
    | Time(now: int)
    | Serve(calls: map<Task, seq<Call>>)
    | Round

  /** A delay from 0 ms to 2147483 ms or in microseconds, asked for not after `h`. */
  predicate ModestCall(c: Call, h: int) {
    match c
    case CallIns(t, trap, garbage) => 0 <= garbage <= h
    case CallRmv(t, now) => true
    case CallPrime(t, time, now) => -0x8000_0000 < time <= 2147483 && 0 <= now <= h
  }

  predicate ModestEvent(e: Event, h: int) {
    match e
    case Guest(c) => ModestCall(c, h)
    case Time(now) => now <= MAX_TIME
    case Serve(calls) => forall t, c | t in calls && c in calls[t] :: ModestCall(c, h)
    case Round => true
  }

  /** All wakeup times lie between 0 and `h`. */
  ghost predicate Modest(m: Managed, h: int) {
    0 <= h && forall t | t in m.s.wakeup :: 0 <= m.s.wakeup[t] <= h
  }

  // ---------- calls ----------

  lemma WakeupIsModest(m: Managed, t: Task, time: int, now: int, h: int)
    requires 0 <= WakeupOf(m.s.wakeup, t) <= h && 0 <= now <= h && h + 0x8000_0000 <= MAX_TIME
    requires -0x8000_0000 < time <= 2147483
    ensures 0 <= WakeupFor(m, t, time, now) <= h + 0x8000_0000
  {
    DelayIsModest(CountOf(m.tmCount, t), time);
    hide Mac2Host, HighHalf, CountOf, WakeupOf;
  }

  lemma DelayIsModest(count: int, time: int)
    requires -0x8000_0000 < time <= 2147483
    ensures 0 <= Mac2Host(time) < 0x8000_0000 && 0 <= Mac2Host(HighHalf(count)) < 0x8000_0000
  {
    Mac2HostIsExact(time);
    HighHalfIsShort(count);
    Mac2HostIsExact(HighHalf(count));
    hide Mac2Host, HighHalf;
  }

  lemma HighHalfIsShort(count: int)
    ensures 0 <= HighHalf(count) < 0x1_0000
  {
  }

  lemma UpdateIsModest(m: Managed, t: Task, w: int, h: int)
    requires Modest(m, h) && 0 <= w <= h + 0x8000_0000
    ensures Modest(m.(s := m.s.(wakeup := m.s.wakeup[t := w])), h + 0x8000_0000)
  {
  }

  lemma CallIsModest(m: Managed, c: Call, h0: int, h: int)
    requires Modest(m, h) && h0 <= h && h + 0x8000_0000 <= MAX_TIME && ModestCall(c, h0)
    ensures AllProper(CallSteps(m, c), TIMES) && Modest(CallEffect(m, c), h + 0x8000_0000)
  {
    match c
    case CallIns(t, trap, garbage) =>
    case CallRmv(t, now) =>
      RemoveStepsProper(m.s, t, TIMES);
      RemoveKeepsWakeups(m, t, now);
      hide RemoveSteps, RmvEffect;
    case CallPrime(t, time, now) =>
      WakeupIsModest(m, t, time, now, h);
      PrimeStepsProper(m.s, t, WakeupFor(m, t, time, now), TIMES);
      PrimeSetsWakeup(m, t, time, now);
      UpdateIsModest(m, t, WakeupFor(m, t, time, now), h);
      hide PrimeSteps, PrimedEffect, WakeupFor, WakeupOf;
  }

  lemma RemoveKeepsWakeups(m: Managed, t: Task, now: int)
    ensures RmvEffect(m, t, now).s.wakeup == m.s.wakeup
  {
    hide MinWakeup, Without, Host2Mac, SubTime;
  }

  lemma PrimeSetsWakeup(m: Managed, t: Task, time: int, now: int)
    ensures PrimedEffect(m, t, time, now).s.wakeup
         == if t in m.s.order then m.s.wakeup[t := WakeupFor(m, t, time, now)] else m.s.wakeup
  {
    hide MinWakeup, WakeupFor;
  }

  lemma {:induction false} CallsAreModest(m: Managed, calls: seq<Call>, h0: int, h: int)
    requires Modest(m, h) && h0 <= h && h + 0x8000_0000 * |calls| <= MAX_TIME
    requires forall c | c in calls :: ModestCall(c, h0)
    ensures AllProper(CallsSteps(m, calls), TIMES) && Modest(CallsEffect(m, calls), h + 0x8000_0000 * |calls|)
  {
    if calls != [] {
      var n := |calls| - 1;
      CallsAreModest(m, calls[..n], h0, h);
      assert calls[n] in calls;
      hide ModestCall, Modest, CallEffect, CallSteps, Proper;
      CallIsModest(CallsEffect(m, calls[..n]), calls[n], h0, h + 0x8000_0000 * n);
    }
  }

  // ---------- interrupts ----------

  lemma ScriptIsModest(calls: map<Task, seq<Call>>, t: Task, h: int)
    requires ModestEvent(Serve(calls), h)
    ensures forall c | c in Script(calls, t) :: ModestCall(c, h)
  {
    hide ModestCall;
  }

  lemma VisitIsModest(m: Managed, calls: map<Task, seq<Call>>, h0: int, h: int)
    requires AtDescriptor(m.s) && m.s.irq.desc.Some? && ModestEvent(Serve(calls), h0)
    requires Modest(m, h) && h0 <= h && h + 0x8000_0000 * |VisitCalls(m, calls)| <= MAX_TIME
    ensures AllProper(VisitSteps(m, calls), TIMES)
    ensures Modest(AfterVisit(m, calls), h + 0x8000_0000 * |VisitCalls(m, calls)|)
  {
    VisitLeaves(m.s, 0);
    var m1 := m.(s := NextIrq(m.s));
    if m1.s.irq.InTask? {
      var script := Script(calls, m.s.irq.desc.value);
      ScriptIsModest(calls, m.s.irq.desc.value, h0);
      CallsAreModest(m1, script, h0, h);
    }
    hide NextIrq, ModestEvent, ModestCall, CallsSteps, CallsEffect, Script;
  }

  lemma ProperBoth(a: seq<Step>, b: seq<Step>)
    requires AllProper(a, TIMES) && AllProper(b, TIMES)
    ensures AllProper(a + b, TIMES)
  {
  }

  lemma {:induction false} WalkIsModest(m: Managed, calls: map<Task, seq<Call>>, h0: int, h: int, w: Walked)
    requires AtDescriptor(m.s) && ModestEvent(Serve(calls), h0) && w == Walk(m, calls) && w.Walked?
    requires Modest(m, h) && h0 <= h && h + 0x8000_0000 * |w.made| <= MAX_TIME
    ensures AllProper(w.steps, TIMES) && Modest(w.m, h + 0x8000_0000 * |w.made|)
    decreases |Tail(m.s.order, m.s.irq.desc)|
  {
    if m.s.irq.desc.Some? {
      WalkUnfolds(m, calls);
      hide *;
      var m', k := AfterVisit(m, calls), |VisitCalls(m, calls)|;
      VisitIsModest(m, calls, h0, h);
      WalkIsModest(m', calls, h0, h + 0x8000_0000 * k, Walk(m', calls));
      ProperBoth(VisitSteps(m, calls), Walk(m', calls).steps);
    }
  }

  // ---------- histories ----------

  /** The state after an event; none if time runs backwards, or if a callback frees the descriptor
      the interrupt goes on to.  The thread takes a round once the time it sleeps until has come. */
  function Play(m: Managed, e: Event): Option<Managed>
    requires Quiet(m.s)
  {
    match e
    case Guest(c) => Some(CallEffect(m, c))
    case Time(now) => if m.s.clock <= now then Some(m.(s := m.s.(clock := now))) else None
    case Serve(calls) =>
      if !m.s.flag then Some(m)
      else if Dispatched(m, calls).Walked? then Some(Dispatched(m, calls).m)
      else None
    case Round => Some(if m.s.wakeupTime <= m.s.clock then m.(s := RoundEffect(m.s)) else m)
  }

  function EventSteps(m: Managed, e: Event): seq<Step>
    requires Quiet(m.s)
  {
    match e
    case Guest(c) => CallSteps(m, c)
    case Time(now) => [Tick(now)]
    case Serve(calls) =>
      if m.s.flag && Dispatched(m, calls).Walked? then [IrqStep, IrqStep, IrqStep] + Dispatched(m, calls).steps else []
    case Round => if m.s.wakeupTime <= m.s.clock then RoundSteps(m.s) else []
  }

  /** How many Time Manager calls the guest makes in the event. */
  function EventCalls(m: Managed, e: Event): nat
    requires Quiet(m.s)
  {
    match e
    case Guest(c) => 1
    case Serve(calls) => if m.s.flag && Dispatched(m, calls).Walked? then |Dispatched(m, calls).made| else 0
    case _ => 0
  }

  lemma DispatchIsModest(m: Managed, calls: map<Task, seq<Call>>, h0: int, h: int)
    requires Quiet(m.s) && ModestEvent(Serve(calls), h0) && Dispatched(m, calls).Walked?
    requires Modest(m, h) && h0 <= h && h + 0x8000_0000 * |Dispatched(m, calls).made| <= MAX_TIME
    ensures AllProper(Dispatched(m, calls).steps, TIMES)
    ensures Modest(Dispatched(m, calls).m, h + 0x8000_0000 * |Dispatched(m, calls).made|)
  {
    EnteredIsAtDescriptor(m.s);
    var m1 := m.(s := Entered(m.s));
    WalkIsModest(m1, calls, h0, h, Walk(m1, calls));
    OpStepsProper(|Walk(m1, calls).m.s.order| + 5, TIMES);
    hide Walk, ModestEvent, OpSteps, Distinct, Tail, MinWakeup, WakeupOf;
  }

  lemma DispatchIsQuiet(m: Managed, calls: map<Task, seq<Call>>)
    requires Quiet(m.s) && Dispatched(m, calls).Walked?
    ensures Quiet(Dispatched(m, calls).m.s)
  {
    EnteredIsAtDescriptor(m.s);
    WalkRuns(m.(s := Entered(m.s)), calls);
    WalkKeepsThread(m.(s := Entered(m.s)), calls);
    hide Walk, Reaches, Distinct, Tail, MinWakeup;
  }

  lemma {:induction false} WalkKeepsThread(m: Managed, calls: map<Task, seq<Call>>)
    requires AtDescriptor(m.s) && m.s.thread.Awake? && Walk(m, calls).Walked?
    ensures Walk(m, calls).m.s.thread.Awake?
    decreases |Tail(m.s.order, m.s.irq.desc)|
  {
    if m.s.irq.desc.Some? {
      VisitLands(m, calls);
      VisitKeepsThread(m, calls);
      hide AfterVisit, VisitSteps, VisitShots, VisitCalls, VisitSpares, AtDescriptor, Tail;
      WalkKeepsThread(AfterVisit(m, calls), calls);
    }
  }

  lemma VisitKeepsThread(m: Managed, calls: map<Task, seq<Call>>)
    requires AtDescriptor(m.s) && m.s.irq.desc.Some? && m.s.thread.Awake?
    ensures AfterVisit(m, calls).s.thread.Awake?
  {
    IrqKeepsThread(m.s);
    CallsKeepThread(m.(s := NextIrq(m.s)), Script(calls, m.s.irq.desc.value));
    hide NextIrq, CallsEffect;
  }

  lemma CallKeepsThread(m: Managed, c: Call)
    requires m.s.thread.Awake?
    ensures CallEffect(m, c).s.thread.Awake?
  {
    hide MinWakeup, Without, WakeupFor, Host2Mac, SubTime;
  }

  lemma {:induction false} CallsKeepThread(m: Managed, calls: seq<Call>)
    requires m.s.thread.Awake?
    ensures CallsEffect(m, calls).s.thread.Awake?
  {
    if calls != [] {
      var n := |calls| - 1;
      CallsKeepThread(m, calls[..n]);
      hide CallEffect;
      CallKeepsThread(CallsEffect(m, calls[..n]), calls[n]);
    }
  }

  lemma EventRuns(m: Managed, e: Event)
    requires Quiet(m.s) && Play(m, e).Some?
    ensures Quiet(Play(m, e).value.s)
    ensures Reaches(m.s, EventSteps(m, e), Play(m, e).value.s)
  {
    assert Reaches(m.s, [], m.s);
    match e
    case Guest(c) =>
      CallRuns(m, c);
      CallKeepsThread(m, c);
      if c.CallRmv? {
        CallKeepsTail(m, c, None);
      } else {
        CallKeepsTail(m, c, None);
      }
      hide Reaches, CallEffect, CallSteps, Tail, Distinct;
    case Time(now) => OneStepRuns(m.s, Tick(now));
    case Serve(calls) =>
      if m.s.flag {
        DispatchRuns(m, calls);
        DispatchIsQuiet(m, calls);
      }
      hide Reaches, Dispatched;
    case Round =>
      if m.s.wakeupTime <= m.s.clock {
        RoundRuns(m.s);
      }
      hide Reaches, RoundSteps;
  }

  lemma EventIsModest(m: Managed, e: Event, h0: int, h: int)
    requires Quiet(m.s) && Play(m, e).Some? && ModestEvent(e, h0) && InRange(m.s.clock)
    requires Modest(m, h) && h0 <= h && h + 0x8000_0000 * EventCalls(m, e) <= MAX_TIME
    ensures AllProper(EventSteps(m, e), TIMES)
    ensures Modest(Play(m, e).value, h + 0x8000_0000 * EventCalls(m, e))
  {
    match e
    case Guest(c) => CallIsModest(m, c, h0, h);
    case Time(now) =>
    case Serve(calls) =>
      if m.s.flag {
        DispatchIsModest(m, calls, h0, h);
      }
      hide Dispatched, ModestEvent;
    case Round =>
  }

  function PlayAll(m: Managed, events: seq<Event>): Option<Managed>
    requires Quiet(m.s)
    decreases |events|
  {
    if events == [] then Some(m) else
    EventIsQuiet(m, events[0]);
    if Play(m, events[0]).None? then None else PlayAll(Play(m, events[0]).value, events[1..])
  }

  lemma EventIsQuiet(m: Managed, e: Event)
    requires Quiet(m.s)
    ensures Play(m, e).Some? ==> Quiet(Play(m, e).value.s)
  {
    if Play(m, e).Some? {
      EventRuns(m, e);
    }
  }

  /** How many Time Manager calls the guest makes in the history. */
  function CallsIn(m: Managed, events: seq<Event>): nat
    requires Quiet(m.s)
    decreases |events|
  {
    if events == [] then 0 else
    EventIsQuiet(m, events[0]);
    EventCalls(m, events[0])
    + if Play(m, events[0]).None? then 0 else CallsIn(Play(m, events[0]).value, events[1..])
  }

  function AllSteps(m: Managed, events: seq<Event>): seq<Step>
    requires Quiet(m.s)
    decreases |events|
  {
    if events == [] then [] else
    EventIsQuiet(m, events[0]);
    EventSteps(m, events[0])
    + if Play(m, events[0]).None? then [] else AllSteps(Play(m, events[0]).value, events[1..])
  }

  lemma {:induction false} HistoryRuns(m: Managed, events: seq<Event>, h0: int, h: int, span: Span)
    requires Quiet(m.s) && PlayAll(m, events).Some? && forall e | e in events :: ModestEvent(e, h0)
    requires Ordered(span) && Inv(m.s, span) && span == TIMES
    requires Modest(m, h) && h0 <= h && h + 0x8000_0000 * CallsIn(m, events) <= MAX_TIME
    ensures Reaches(m.s, AllSteps(m, events), PlayAll(m, events).value.s)
    ensures AllProper(AllSteps(m, events), TIMES)
    decreases |events|
  {
    if events == [] {
      assert Reaches(m.s, [], m.s);
    } else {
      var e, k := events[0], EventCalls(m, events[0]);
      assert ModestEvent(e, h0);
      EventRuns(m, e);
      EventIsModest(m, e, h0, h);
      var m' := Play(m, e).value;
      RunKeepsInv(m.s, EventSteps(m, e), TIMES);
      hide Reaches, Play, EventSteps, EventCalls, ModestEvent, Modest, Inv, Quiet, Proper;
      HistoryRuns(m', events[1..], h0, h + 0x8000_0000 * k, span);
      ReachAppend(m.s, EventSteps(m, e), m'.s, AllSteps(m', events[1..]), PlayAll(m', events[1..]).value.s);
    }
  }

  const Fresh := Managed(Init(0), {}, {}, map[])

  /** A guest that primes its tasks with delays the conversion expresses misses none of them, however
      it inserts, removes and re-primes, inside callbacks or out, as long as the 31 bits each delay
      may add have room below the maximum. */
  lemma ModestGuestMissesNothing(events: seq<Event>, h: nat)
    requires PlayAll(Fresh, events).Some? && forall e | e in events :: ModestEvent(e, h)
    requires h + 0x8000_0000 * CallsIn(Fresh, events) <= MAX_TIME
    ensures NothingMissed(PlayAll(Fresh, events).value.s)
  {
    InitFair(0);
    HistoryRuns(Fresh, events, h, h, TIMES);
    NoTaskMissed(0, AllSteps(Fresh, events), TIMES);
  }
}
