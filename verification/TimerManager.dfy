/** The sequential code of the Time Manager as an object whose methods change the list of
    descriptors, the tasks' bits and wakeup_time, each proved against the function that gives the
    new state. */
module TimerManager {
  import opened Bytes
  import opened TimerTime
  import opened TaskList
  import opened TimerProtocol
  import opened TimerRuns
  import opened TimerCalls

  class TimeManager {
    var order: seq<Task>           // tmDescList, head first
    var wakeup: map<Task, int>
    var active: set<Task>          // tasks with 0x8000 set in qType
    var extended: set<Task>
    var scheduled: set<Task>
    var tmCount: map<Task, int>
    var wakeupTime: int
    var flag: bool
    ghost var primed: multiset<Shot>
    ghost var fired: multiset<Shot>

    constructor ()
      ensures Distinct(order) && Abs(Outside, 0) == Managed(Init(0), {}, {}, map[])
    {
      order, wakeup, active, extended, scheduled, tmCount := [], map[], {}, {}, {}, map[];
      wakeupTime, flag, primed, fired := MAX_TIME, false, multiset{}, multiset{};
    }

    /** The manager's state at some point of the interrupt, with the timer thread out of the way. */
    ghost function Abs(irq: Irq, clock: int): Managed
      reads this
    {
      Managed(State(order, wakeup, active, wakeupTime, flag, Nobody, Idle, irq, Awake, clock, primed, fired),
              extended, scheduled, tmCount)
    }

    method FindDesc(tm: Task) returns (found: bool)
      ensures found <==> tm in order
    {
      var k := 0;
      while k < |order|
        invariant 0 <= k <= |order| && tm !in order[..k]
      {
        if order[k] == tm {
          return true;
        }
        k := k + 1;
      }
      return false;
    }

    /** Unlinks the descriptor of `tm`. */
    method FreeDesc(tm: Task)
      requires Distinct(order)
      modifies `order
      ensures order == Without(old(order), tm) && Distinct(order)
    {
      WithoutKeepsDistinct(order, tm);
      WithoutAbsentOr(order, tm);
      var k := 0;
      while k < |order|
        invariant 0 <= k <= |order| && tm !in order[..k] && order == old(order)
      {
        if order[k] == tm {
          WithoutSplits(order, k);
          order := order[..k] + order[k + 1..];
          return;
        }
        k := k + 1;
      }
    }

    /** Finds the next task to be called and sets wakeup_time. */
    method Recompute()
      modifies `wakeupTime
      ensures wakeupTime == MinWakeup(order, wakeup, active)
    {
      wakeupTime := MAX_TIME;
      var k := 0;
      while k < |order|
        invariant 0 <= k <= |order| && wakeupTime == MinWakeup(order[..k], wakeup, active)
      {
        var d := order[k];
        assert order[..k + 1][..k] == order[..k];
        if d in active && CmpTime(WakeupOf(wakeup, d), wakeupTime) < 0 {
          wakeupTime := WakeupOf(wakeup, d);
        }
        k := k + 1;
      }
      assert order[..k] == order;
    }

    /** `garbage` is the wakeup time a new descriptor happens to hold. */
    method InsTime(tm: Task, trap: nat, garbage: int, ghost irq: Irq, ghost clock: int)
      requires Distinct(order)
      modifies this
      ensures Distinct(order)
      ensures Abs(irq, clock) == InsEffect(old(Abs(irq, clock)), tm, trap, garbage)
    {
      hide Distinct, WakeupOf, Extends;
      active := active - {tm};
      extended := if Extends(trap) then extended + {tm} else extended - {tm};
      var found := FindDesc(tm);
      if !found {
        wakeup := wakeup[tm := garbage];
        order := [tm] + order;
        assert Distinct(order) by {
          InFrontIsDistinct(tm, old(order));
        }
      }
    }

    method RmvTime(tm: Task, now: int, ghost irq: Irq, ghost clock: int)
      requires Distinct(order)
      modifies this
      ensures Distinct(order)
      ensures Abs(irq, clock) == RmvEffect(old(Abs(irq, clock)), tm, now)
    {
      hide MinWakeup, SubTime, Host2Mac, Without, Distinct, WakeupOf;
      var found := FindDesc(tm);
      if !found {
        return;
      }
      if tm in active {
        active := active - {tm};
        Recompute();
        tmCount := tmCount[tm := Host2Mac(SubTime(WakeupOf(wakeup, tm), now))];
      } else {
        tmCount := tmCount[tm := 0];
      }
      FreeDesc(tm);
    }

    /** The wakeup time for a delay of `time` from now on. */
    method Schedule(tm: Task, time: int, now: int) returns (w: int)
      ensures w == PrimedWakeup(WakeupOf(wakeup, tm), tm in extended, tm in scheduled, CountOf(tmCount, tm), time, now)
    {
      var delay := Mac2Host(time);
      if tm in extended {
        if tm in scheduled {
          if time == 0 {
            delay := Mac2Host(HighHalf(CountOf(tmCount, tm)));
          }
          w := AddTime(WakeupOf(wakeup, tm), delay);
        } else {
          w := AddTime(now, delay);
        }
      } else {
        w := AddTime(now, delay);
      }
    }

    method PrimeTime(tm: Task, time: int, now: int, ghost irq: Irq, ghost clock: int)
      requires Distinct(order)
      modifies this
      ensures Distinct(order)
      ensures Abs(irq, clock) == PrimedEffect(old(Abs(irq, clock)), tm, time, now)
    {
      hide MinWakeup, PrimedWakeup, Distinct, WakeupOf, CountOf;
      var found := FindDesc(tm);
      if !found {
        return;
      }
      ghost var m := Abs(irq, clock);
      var w := Schedule(tm, time, now);
      assert w == WakeupFor(m, tm, time, now);
      hide WakeupFor, PrimeEffect;
      if tm in extended {
        scheduled := scheduled + {tm};
      }
      Activate(tm, w, irq, clock);
    }

    /** Schedules a task that has a descriptor, and makes it active. */
    method Activate(tm: Task, w: int, ghost irq: Irq, ghost clock: int)
      requires tm in order
      modifies `wakeup, `primed, `active, `wakeupTime
      ensures Abs(irq, clock) == old(Abs(irq, clock)).(s := PrimeEffect(old(Abs(irq, clock)).s, tm, w))
    {
      hide MinWakeup, WakeupOf;
      wakeup := wakeup[tm := w];
      primed := primed + multiset{Shot(tm, w)};
      active := active + {tm};
      Recompute();
    }

    /** A task's callback. */
    method RunTask(script: seq<Call>, ghost irq: Irq, ghost clock: int)
      requires Distinct(order)
      modifies this
      ensures Distinct(order)
      ensures Abs(irq, clock) == CallsEffect(old(Abs(irq, clock)), script)
    {
      hide InsEffect, RmvEffect, PrimedEffect;
      for k := 0 to |script|
        invariant Distinct(order)
        invariant Abs(irq, clock) == CallsEffect(old(Abs(irq, clock)), script[..k])
      {
        assert script[..k + 1][..k] == script[..k];
        match script[k] {
          case CallIns(tm, trap, garbage) => InsTime(tm, trap, garbage, irq, clock);
          case CallRmv(tm, at) => RmvTime(tm, at, irq, clock);
          case CallPrime(tm, time, at) => PrimeTime(tm, time, at, irq, clock);
        }
      }
      assert script[..|script|] == script;
    }

    /** One descriptor's turn: what comes next is read from the list before the callback. */
    method VisitTask(tm: Task, now: int, calls: map<Task, seq<Call>>) returns (next: Option<Task>, shots: seq<Shot>)
      requires AtDescriptor(Abs(Visit(now, Some(tm)), now).s)
      modifies this
      ensures Abs(Visit(now, next), now) == AfterVisit(old(Abs(Visit(now, Some(tm)), now)), calls)
      ensures shots == VisitShots(old(Abs(Visit(now, Some(tm)), now).s))
    {
      hide CmpTime, TailFrom, NextOf, CallsEffect, WakeupOf;
      next := NextOf(order, tm);
      shots := [];
      if tm in active && CmpTime(WakeupOf(wakeup, tm), now) <= 0 {
        active := active - {tm};
        shots := [Shot(tm, WakeupOf(wakeup, tm))];
        fired := fired + multiset(shots);
        RunTask(Script(calls, tm), InTask(now, next), now);
      }
    }

    /** One pass over the descriptors, following their `next` pointers as they are when it gets
        there; `calls` says what each task's callback does.  The callbacks may change the list in any
        way but one: they do not free the descriptor the pass goes on to. */
    method TimerInterrupt(now: int, calls: map<Task, seq<Call>>) returns (called: seq<Shot>)
      requires Distinct(order)
      requires Walk(Abs(Visit(now, HeadOf(order)), now), calls).Walked?
      modifies this
      ensures Distinct(order)
      ensures var w := old(Ended(Walk(Abs(Visit(now, HeadOf(order)), now), calls)));
              Abs(Outside, now) == w.m && called == w.called
    {
      ghost var w := Walk(Abs(Visit(now, HeadOf(order)), now), calls);
      var desc := HeadOf(order);
      called := [];
      ghost var steps: seq<Step>, made: seq<Call> := [], [];
      assert Before([], [], [], w) == w;
      assert AtDescriptor(Abs(Visit(now, desc), now).s);
      hide Walk, Before, Ended, AtDescriptor, Tail, Distinct, Closed;
      while desc.Some?
        invariant AtDescriptor(Abs(Visit(now, desc), now).s)
        invariant w == Before(called, steps, made, Walk(Abs(Visit(now, desc), now), calls))
        decreases |Tail(order, desc)|
      {
        desc, called, steps, made := WalkOn(desc.value, now, calls, called, w, steps, made);
      }
      WalkOver(w, called, steps, made, Abs(Visit(now, None), now), calls);
      EndInterrupt(now);
    }

    /** The walk goes on by one descriptor; `w` is the whole walk, the rest what it has done so far. */
    method WalkOn(tm: Task, now: int, calls: map<Task, seq<Call>>, before: seq<Shot>, ghost w: Walked,
                  ghost taken: seq<Step>, ghost had: seq<Call>)
      returns (next: Option<Task>, called: seq<Shot>, ghost steps: seq<Step>, ghost made: seq<Call>)
      requires AtDescriptor(Abs(Visit(now, Some(tm)), now).s) && w.Walked?
      requires w == Before(before, taken, had, Walk(Abs(Visit(now, Some(tm)), now), calls))
      modifies this
      ensures AtDescriptor(Abs(Visit(now, next), now).s)
      ensures w == Before(called, steps, made, Walk(Abs(Visit(now, next), now), calls))
      ensures |Tail(order, next)| < |Tail(old(order), Some(tm))|
    {
      ghost var m := Abs(Visit(now, Some(tm)), now);
      VisitLands(m, calls);
      steps, made := taken + VisitSteps(m, calls), had + VisitCalls(m, calls);
      BeforeBoth(before, taken, had, VisitShots(m.s), VisitSteps(m, calls), VisitCalls(m, calls),
                 Walk(AfterVisit(m, calls), calls));
      hide AfterVisit, VisitShots, VisitSteps, VisitCalls, VisitSpares, TailFrom, Distinct;
      var shots;
      next, shots := VisitTask(tm, now, calls);
      called := before + shots;
    }

    /** The list done, wakeup_time is set anew. */
    method EndInterrupt(ghost now: int)
      modifies `wakeupTime
      ensures Abs(Outside, now) == old(Abs(Visit(now, None), now)).(s := Closed(old(Abs(Visit(now, None), now)).s))
    {
      hide MinWakeup;
      Recompute();
    }

    /** The timer's part of the level 1 interrupt: clear the flag first, then serve it. */
    method Dispatch(now: int, calls: map<Task, seq<Call>>) returns (called: seq<Shot>)
      requires Distinct(order)
      requires flag ==> Dispatched(Abs(Outside, now), calls).Walked?
      modifies this
      ensures Distinct(order)
      ensures old(flag) ==> var w := old(Dispatched(Abs(Outside, now), calls));
                            Abs(Outside, now) == w.m && called == w.called
      ensures !old(flag) ==> called == [] && unchanged(this)
    {
      called := [];
      if flag {
        flag := false;
        called := TimerInterrupt(now, calls);
      }
    }

    /** One round of the timer thread, from the end of its sleep to the next. */
    method ThreadRound(now: int)
      requires wakeupTime <= now
      modifies this
      ensures Abs(Outside, now) == old(Abs(Outside, now)).(s := RoundEffect(old(Abs(Outside, now)).s))
    {
      if wakeupTime < now {
        wakeupTime := 0x7fff_ffff_ffff_ffff;
        flag := true;
      }
    }
  }

  lemma BeforeBoth(c0: seq<Shot>, s0: seq<Step>, m0: seq<Call>, c1: seq<Shot>, s1: seq<Step>, m1: seq<Call>, w: Walked)
    ensures Before(c0, s0, m0, Before(c1, s1, m1, w)) == Before(c0 + c1, s0 + s1, m0 + m1, w)
  {
    if w.Walked? {
      assert c0 + c1 + w.called == c0 + (c1 + w.called) && s0 + s1 + w.steps == s0 + (s1 + w.steps)
          && m0 + m1 + w.made == m0 + (m1 + w.made);
    }
  }

  lemma InFrontIsDistinct(t: Task, order: seq<Task>)
    requires Distinct(order) && t !in order
    ensures Distinct([t] + order)
  {
    assert ([t] + order)[1..] == order;
  }

  lemma WithoutAbsentOr(order: seq<Task>, t: Task)
    ensures t !in order ==> Without(order, t) == order
  {
    if t !in order {
      WithoutAbsent(order, t);
    }
  }
}
