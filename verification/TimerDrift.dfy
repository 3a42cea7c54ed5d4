/** The wakeup times that a guest's calls give a task, followed over whole sequences of calls. */
module TimerDrift {
  import opened Bytes
  import opened TimerTime
  import opened TaskList
  import opened TimerProtocol
  import opened TimerRuns
  import opened TimerCalls

  /** No call concerns the task. */
  predicate Elsewhere(calls: seq<Call>, t: Task) {
    forall c | c in calls :: c.task != t
  }

  /** The task is only primed, with delays other than zero. */
  predicate PrimedOnly(calls: seq<Call>, t: Task) {
    forall c | c in calls && c.task == t :: c.CallPrime? && c.time != 0
  }

  /** The sum of the delays with which the task is primed. */
  function Delays(calls: seq<Call>, t: Task): int {
    if calls == [] then 0 else
    var n := |calls| - 1;
    Delays(calls[..n], t) + if calls[n].task == t && calls[n].CallPrime? then Mac2Host(calls[n].time) else 0
  }

  /** Whether it is listed and active, which kind of task it is, whether it was scheduled before, and
      the remaining time saved. */
  datatype Fields = Fields(listed: bool, active: bool, extended: bool, scheduled: bool, count: int, wakeup: int)

  function FieldsOf(m: Managed, t: Task): Fields {
    Fields(t in m.s.order, t in m.s.active, t in m.extended, t in m.scheduled, CountOf(m.tmCount, t),
           WakeupOf(m.s.wakeup, t))
  }

  lemma ElsewhereKeeps(m: Managed, c: Call, t: Task)
    requires c.task != t
    ensures FieldsOf(CallEffect(m, c), t) == FieldsOf(m, t)
  {
    hide MinWakeup, WakeupFor, Host2Mac, SubTime;
    hide Without;
  }

  lemma {:induction false} AllElsewhereKeep(m: Managed, calls: seq<Call>, t: Task)
    requires Elsewhere(calls, t)
    ensures FieldsOf(CallsEffect(m, calls), t) == FieldsOf(m, t)
  {
    if calls != [] {
      var n := |calls| - 1;
      assert calls[n] in calls;
      AllElsewhereKeep(m, calls[..n], t);
      hide CallEffect, FieldsOf;
      ElsewhereKeeps(CallsEffect(m, calls[..n]), calls[n], t);
    }
  }

  lemma {:induction false} EffectsJoin(m: Managed, a: seq<Call>, b: seq<Call>)
    ensures CallsEffect(m, a + b) == CallsEffect(CallsEffect(m, a), b)
    decreases |b|
  {
    hide CallEffect;
    if b == [] {
      assert a + b == a;
    } else {
      EffectsJoin(m, a, b[..|b| - 1]);
      FrontOfJoin(a, b);
    }
  }

  lemma FrontOfJoin(a: seq<Call>, b: seq<Call>)
    requires b != []
    ensures var n := |a + b| - 1;
            a + b != [] && (a + b)[..n] == a + b[..|b| - 1] && (a + b)[n] == b[|b| - 1]
  {
  }

  lemma OneEffect(m: Managed, c: Call)
    ensures CallsEffect(m, [c]) == CallEffect(m, c)
  {
    assert [c][..0] == [];
    hide CallEffect;
  }

  // ---------- extended tasks ----------

  lemma InsertedFields(m: Managed, t: Task, trap: nat, garbage: int)
    ensures var f := FieldsOf(m, t);
            FieldsOf(CallEffect(m, CallIns(t, trap, garbage)), t)
            == Fields(true, false, Extends(trap), f.scheduled, f.count, if f.listed then f.wakeup else garbage)
  {
  }

  lemma PrimedFields(m: Managed, t: Task, time: int, now: int)
    requires FieldsOf(m, t).listed
    ensures var f, g := FieldsOf(m, t), FieldsOf(CallEffect(m, CallPrime(t, time, now)), t);
      && g.listed && g.active && g.extended == f.extended && g.count == f.count
      && g.scheduled == (f.scheduled || f.extended)
      && g.wakeup ==
           if f.extended && f.scheduled
           then Signed64(f.wakeup + Mac2Host(if time == 0 then HighHalf(f.count) else time))
           else Signed64(now + Mac2Host(time))
  {
    hide MinWakeup, Mac2Host, HighHalf;
  }

  lemma DelayAdds(m: Managed, c: Call, t: Task)
    requires c.task == t ==> c.CallPrime? && c.time != 0
    requires var f := FieldsOf(m, t); f.listed && f.extended && f.scheduled && IsInt64(f.wakeup)
    ensures var f, g := FieldsOf(m, t), FieldsOf(CallEffect(m, c), t);
      && g.listed && g.extended && g.scheduled && IsInt64(g.wakeup)
      && g.wakeup == Signed64(f.wakeup + if c.task == t then Mac2Host(c.time) else 0)
  {
    if c.task == t {
      PrimedFields(m, t, c.time, c.now);
    } else {
      ElsewhereKeeps(m, c, t);
    }
    hide CallEffect, FieldsOf, Mac2Host;
  }

  lemma LastPrimed(calls: seq<Call>, t: Task)
    requires PrimedOnly(calls, t) && calls != []
    ensures var n := |calls| - 1;
            PrimedOnly(calls[..n], t) && (calls[n].task == t ==> calls[n].CallPrime? && calls[n].time != 0)
  {
    assert calls[|calls| - 1] in calls;
  }

  /** Once it is scheduled, each prime of an extended task adds its delay to the wakeup time before. */
  lemma {:induction false} DelaysAddUp(m: Managed, calls: seq<Call>, t: Task)
    requires PrimedOnly(calls, t)
    requires var f := FieldsOf(m, t); f.listed && f.extended && f.scheduled && IsInt64(f.wakeup)
    ensures var f, g := FieldsOf(m, t), FieldsOf(CallsEffect(m, calls), t);
      && g.listed && g.extended && g.scheduled && IsInt64(g.wakeup)
      && g.wakeup == Signed64(f.wakeup + Delays(calls, t))
  {
    hide *;
    if calls == [] {
      NothingAdded(m, t);
    } else {
      LastPrimed(calls, t);
      DelaysAddUp(m, calls[..|calls| - 1], t);
      DelayAddsUp(m, calls, t);
    }
  }

  lemma NothingAdded(m: Managed, t: Task)
    requires IsInt64(FieldsOf(m, t).wakeup)
    ensures CallsEffect(m, []) == m && FieldsOf(m, t).wakeup == Signed64(FieldsOf(m, t).wakeup + Delays([], t))
  {
    hide FieldsOf;
  }

  lemma LastUnfolds(m: Managed, calls: seq<Call>, t: Task)
    requires calls != []
    requires var c := calls[|calls| - 1]; c.task == t ==> c.CallPrime? && c.time != 0
    ensures var n := |calls| - 1;
      && CallsEffect(m, calls) == CallEffect(CallsEffect(m, calls[..n]), calls[n])
      && Delays(calls, t) == Delays(calls[..n], t) + if calls[n].task == t then Mac2Host(calls[n].time) else 0
  {
  }

  lemma DelayAddsUp(m: Managed, calls: seq<Call>, t: Task)
    requires calls != []
    requires var c := calls[|calls| - 1]; c.task == t ==> c.CallPrime? && c.time != 0
    requires var n := |calls| - 1; var f, g := FieldsOf(m, t), FieldsOf(CallsEffect(m, calls[..n]), t);
      && g.listed && g.extended && g.scheduled && IsInt64(g.wakeup)
      && g.wakeup == Signed64(f.wakeup + Delays(calls[..n], t))
    ensures var f, g := FieldsOf(m, t), FieldsOf(CallsEffect(m, calls), t);
      && g.listed && g.extended && g.scheduled && IsInt64(g.wakeup)
      && g.wakeup == Signed64(f.wakeup + Delays(calls, t))
  {
    hide *;
    var n := |calls| - 1;
    var d := if calls[n].task == t then Mac2Host(calls[n].time) else 0;
    LastUnfolds(m, calls, t);
    DelayAdds(CallsEffect(m, calls[..n]), calls[n], t);
    SignedSum(FieldsOf(m, t).wakeup + Delays(calls[..n], t), d);
  }

  lemma TwoEffects(m: Managed, c: Call, d: Call, calls: seq<Call>)
    ensures CallsEffect(m, [c, d] + calls) == CallsEffect(CallEffect(CallEffect(m, c), d), calls)
  {
    hide *;
    OneEffect(m, c);
    OneEffect(CallEffect(m, c), d);
    EffectsJoin(m, [c], [d]);
    EffectsJoin(m, [c] + [d], calls);
    assert [c, d] == [c] + [d];
  }

  lemma PrimedTasksDoNotDrift(m: Managed, t: Task, trap: nat, garbage: int, time: int, now: int, calls: seq<Call>)
    requires Extends(trap) && !FieldsOf(m, t).scheduled && PrimedOnly(calls, t)
    ensures var e := CallsEffect(m, [CallIns(t, trap, garbage), CallPrime(t, time, now)] + calls);
            FieldsOf(e, t).wakeup == Signed64(now + Mac2Host(time) + Delays(calls, t))
  {
    hide *;
    var ins, prime := CallIns(t, trap, garbage), CallPrime(t, time, now);
    var m1 := CallEffect(m, ins);
    var m2 := CallEffect(m1, prime);
    InsertedFields(m, t, trap, garbage);
    PrimedFields(m1, t, time, now);
    DelaysAddUp(m2, calls, t);
    SignedSum(now + Mac2Host(time), Delays(calls, t));
    TwoEffects(m, ins, prime, calls);
  }

  /** Drift-free: an extended task is inserted, primed for the first time, and primed again with any
      delays but zero, at any times, calls for other tasks in between.  Its wakeup time is the first
      one plus the sum of the delays. */
  lemma PrimesDoNotDrift(m: Managed, t: Task, trap: nat, garbage: int, time: int, now: int, calls: seq<Call>)
    requires trap / 0x400 % 2 == 1 && t !in m.scheduled && PrimedOnly(calls, t)
    ensures var e := CallsEffect(m, [CallIns(t, trap, garbage), CallPrime(t, time, now)] + calls);
            FieldsOf(e, t).wakeup == Signed64(now + Mac2Host(time) + Delays(calls, t))
  {
    assert Extends(trap) && !FieldsOf(m, t).scheduled;
    PrimedTasksDoNotDrift(m, t, trap, garbage, time, now, calls);
    hide *;
  }

  // ---------- when a task is active ----------

  lemma ThreeEffects(m: Managed, a: seq<Call>, c: Call, b: seq<Call>)
    ensures CallsEffect(m, a + [c] + b) == CallsEffect(CallEffect(CallsEffect(m, a), c), b)
  {
    hide *;
    EffectsJoin(m, a, [c]);
    OneEffect(CallsEffect(m, a), c);
    EffectsJoin(m, a + [c], b);
  }

  /** The last call for a task decides whether it is active: priming a listed task makes it active,
      inserting or removing it inactive. */
  lemma LastCallDecides(m: Managed, t: Task, a: seq<Call>, c: Call, b: seq<Call>)
    requires c.task == t && Elsewhere(b, t) && (c.CallIns? || FieldsOf(CallsEffect(m, a), t).listed)
    ensures FieldsOf(CallsEffect(m, a + [c] + b), t).active <==> c.CallPrime?
  {
    hide CallsEffect, CallEffect, FieldsOf, Elsewhere;
    var m1 := CallsEffect(m, a);
    match c {
      case CallIns(_, trap, garbage) => InsertedFields(m1, t, trap, garbage);
      case CallRmv(_, now) => RemovedFields(m1, t, now);
      case CallPrime(_, time, now) => PrimedFields(m1, t, time, now);
    }
    AllElsewhereKeep(CallEffect(m1, c), b, t);
    ThreeEffects(m, a, c, b);
  }

  // ---------- other tasks ----------

  /** A task that is not extended is due the last delay after the last prime, whatever came before. */
  lemma LastDelayCounts(m: Managed, t: Task, trap: nat, garbage: int, before: seq<Call>, time: int, now: int,
                        after: seq<Call>)
    requires trap / 0x400 % 2 == 0 && Elsewhere(after, t)
    requires forall c | c in before && c.task == t :: c.CallPrime?
    ensures var e := CallsEffect(m, [CallIns(t, trap, garbage)] + before + [CallPrime(t, time, now)] + after);
            FieldsOf(e, t).wakeup == Signed64(now + Mac2Host(time))
  {
    var ins, prime := [CallIns(t, trap, garbage)], [CallPrime(t, time, now)];
    var m1 := CallEffect(m, ins[0]);
    InsertedFields(m, t, trap, garbage);
    PrimesKeepKind(m1, before, t);
    var m2 := CallsEffect(m1, before);
    PrimedFields(m2, t, time, now);
    AllElsewhereKeep(CallEffect(m2, prime[0]), after, t);
    hide CallEffect, Signed64, Mac2Host;
    OneEffect(m, ins[0]);
    OneEffect(m2, prime[0]);
    EffectsJoin(m, ins, before);
    EffectsJoin(m, ins + before, prime);
    EffectsJoin(m, ins + before + prime, after);
  }

  lemma {:induction false} PrimesKeepKind(m: Managed, calls: seq<Call>, t: Task)
    requires FieldsOf(m, t).listed && forall c | c in calls && c.task == t :: c.CallPrime?
    ensures var f, g := FieldsOf(m, t), FieldsOf(CallsEffect(m, calls), t);
      g.listed && g.extended == f.extended
  {
    if calls != [] {
      var n := |calls| - 1;
      var m1, c := CallsEffect(m, calls[..n]), calls[n];
      assert c in calls;
      PrimesKeepKind(m, calls[..n], t);
      if c.task == t {
        PrimedFields(m1, t, c.time, c.now);
      } else {
        ElsewhereKeeps(m1, c, t);
      }
      hide CallEffect, Mac2Host, Signed64;
    }
  }

  // ---------- continuing after a removal ----------

  /** What RmvTime leaves in tmCount: a Mac delay for the time left, nothing for an inactive task. */
  function Saved(m: Managed, t: Task, now: int): int {
    if t in m.s.active then Host2Mac(Signed64(WakeupOf(m.s.wakeup, t) - now)) else 0
  }

  lemma RemovedFields(m: Managed, t: Task, now: int)
    requires FieldsOf(m, t).listed
    ensures var f, g := FieldsOf(m, t), FieldsOf(CallEffect(m, CallRmv(t, now)), t);
            !g.listed && !g.active && g.scheduled == f.scheduled && g.count == Saved(m, t, now)
  {
    hide MinWakeup, Host2Mac, Without;
  }

  lemma FiveEffects(m: Managed, c: Call, a: seq<Call>, d: Call, b: seq<Call>, e: Call)
    ensures CallsEffect(m, [c] + a + [d] + b + [e])
         == CallEffect(CallsEffect(CallEffect(CallsEffect(CallEffect(m, c), a), d), b), e)
  {
    var m2 := CallsEffect(CallEffect(m, c), a);
    var m4 := CallsEffect(CallEffect(m2, d), b);
    hide *;
    OneEffect(m, c);
    OneEffect(m2, d);
    OneEffect(m4, e);
    EffectsJoin(m, [c], a);
    EffectsJoin(m, [c] + a, [d]);
    EffectsJoin(m, [c] + a + [d], b);
    EffectsJoin(m, [c] + a + [d] + b, [e]);
  }

  lemma Continued(m: Managed, t: Task, removed: int, a: seq<Call>, trap: nat, garbage: int, b: seq<Call>, now: int)
    requires FieldsOf(m, t).listed && FieldsOf(m, t).scheduled && Extends(trap)
    requires Elsewhere(a, t) && Elsewhere(b, t)
    ensures var calls := [CallRmv(t, removed)] + a + [CallIns(t, trap, garbage)] + b + [CallPrime(t, 0, now)];
      FieldsOf(CallsEffect(m, calls), t).wakeup == Signed64(garbage + Mac2Host(HighHalf(Saved(m, t, removed))))
  {
    hide *;
    var rmv, ins, prime := CallRmv(t, removed), CallIns(t, trap, garbage), CallPrime(t, 0, now);
    var m1 := CallEffect(m, rmv);
    var m2 := CallsEffect(m1, a);
    var m3 := CallEffect(m2, ins);
    var m4 := CallsEffect(m3, b);
    RemovedFields(m, t, removed);
    AllElsewhereKeep(m1, a, t);
    InsertedFields(m2, t, trap, garbage);
    AllElsewhereKeep(m3, b, t);
    PrimedFields(m4, t, 0, now);
    FiveEffects(m, rmv, a, ins, b, prime);
  }

  /** PrimeTime(0) of an extended task that was removed and inserted again, to continue its delay: the
      delay is sixteen bits of what RmvTime saved, counted from whatever the new descriptor holds. */
  lemma ContinuedFrom(m: Managed, t: Task, removed: int, a: seq<Call>, trap: nat, garbage: int, b: seq<Call>, now: int)
    requires t in m.s.order && t in m.scheduled && trap / 0x400 % 2 == 1 && Elsewhere(a, t) && Elsewhere(b, t)
    ensures var calls := [CallRmv(t, removed)] + a + [CallIns(t, trap, garbage)] + b + [CallPrime(t, 0, now)];
            FieldsOf(CallsEffect(m, calls), t).wakeup
            == Signed64(garbage + Mac2Host(Saved(m, t, removed) % 0x1_0000_0000 / 0x1_0000))
  {
    hide *;
    WhatItFinds(m, t, trap, Saved(m, t, removed));
    Continued(m, t, removed, a, trap, garbage, b, now);
  }

  lemma WhatItFinds(m: Managed, t: Task, trap: nat, count: int)
    ensures Extends(trap) <==> trap / 0x400 % 2 == 1
    ensures HighHalf(count) == count % 0x1_0000_0000 / 0x1_0000
    ensures FieldsOf(m, t).listed <==> t in m.s.order
    ensures FieldsOf(m, t).scheduled <==> t in m.scheduled
  {
  }

  /** The delay continued is the time that was left, exactly for 0 and for 64551000 us. */
  lemma ContinuedExactly(m: Managed, t: Task, removed: int)
    requires t in m.s.active && 0 <= WakeupOf(m.s.wakeup, t) - removed <= MAX_TIME
    ensures var left := WakeupOf(m.s.wakeup, t) - removed;
            Mac2Host(Saved(m, t, removed) % 0x1_0000_0000 / 0x1_0000) == left <==> left == 0 || left == 64551000
  {
    var left := WakeupOf(m.s.wakeup, t) - removed;
    SavedCount(m, t, removed);
    ResumeIsExact(left);
    hide Mac2Host, Host2Mac, Saved;
  }

  lemma SavedCount(m: Managed, t: Task, removed: int)
    requires t in m.s.active && 0 <= WakeupOf(m.s.wakeup, t) - removed <= MAX_TIME
    ensures Saved(m, t, removed) == Host2Mac(WakeupOf(m.s.wakeup, t) - removed)
  {
    hide Host2Mac;
  }

  /** An overdue task has no time left. */
  lemma OverdueSavesNothing(m: Managed, t: Task, removed: int)
    requires t in m.s.active && MIN_TIME <= WakeupOf(m.s.wakeup, t) - removed <= 0
    ensures Saved(m, t, removed) == 0
  {
  }
}
