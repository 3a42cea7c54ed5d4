/** The timer interrupt taken in the middle of an operation: where the interrupt handler runs the
    interrupt routine on the spot, the operation is set aside until the interrupt is over. */
module TimerNested {
  import opened Bytes
  import opened TimerTime
  import opened TaskList
  import opened TimerProtocol
  import opened TimerRuns
  import opened TimerCalls

  /** `below` is the operation set aside, `Idle` if there is none. */
  datatype Machine = Machine(s: State, below: Op)

  /** Where an operation is when it is interrupted: before it has the semaphore, holding it, or after. */
  datatype Stage = BeforePrime | BeforeRemove | Held | Freeing

  function StageOf(op: Op): Stage {
    if op.Lock? then (if op.kind.Prime? then BeforePrime else BeforeRemove)
    else if op.Free? then Freeing else Held
  }

  datatype Move = Plain(step: Step) | Interrupted(stage: Stage) | Resume

  predicate GuestStep(step: Step) {
    step.InsTime? || step.RmvBegin? || step.PrimeBegin? || step.TimerReset?
  }

  /** At interrupt level 0 a pending interrupt is taken inside an operation too.  The guest makes no
      other call of its own before the operation is done. */
  predicate CanMove(m: Machine, move: Move) {
    match move
    case Plain(step) => Enabled(m.s, step) && (GuestStep(step) ==> m.below.Idle? || m.s.irq.InTask?)
    case Interrupted(stage) =>
      m.below.Idle? && !m.s.op.Idle? && m.s.irq.Outside? && m.s.flag && stage == StageOf(m.s.op)
    case Resume => !m.below.Idle? && m.s.op.Idle? && m.s.irq.Outside?
  }

  function Moved(m: Machine, move: Move): Machine
    requires CanMove(m, move)
  {
    match move
    case Plain(step) => m.(s := Next(m.s, step))
    case Interrupted(_) => Machine(m.s.(op := Idle, irq := Seen), m.s.op)
    case Resume => Machine(m.s.(op := m.below), Idle)
  }

  predicate CanRun(m: Machine, moves: seq<Move>)
    decreases |moves|
  {
    moves == [] || (CanMove(m, moves[0]) && CanRun(Moved(m, moves[0]), moves[1..]))
  }

  function Run(m: Machine, moves: seq<Move>): Machine
    requires CanRun(m, moves)
    decreases |moves|
  {
    if moves == [] then m else Run(Moved(m, moves[0]), moves[1..])
  }

  /** Running these moves from `m` is possible and ends in `n`. */
  ghost predicate Gets(m: Machine, moves: seq<Move>, n: Machine) {
    CanRun(m, moves) && Run(m, moves) == n
  }

  lemma GetsOne(m: Machine, move: Move)
    requires CanMove(m, move)
    ensures Gets(m, [move], Moved(m, move))
  {
    assert [move][1..] == [];
  }

  lemma {:induction false} GetsOn(m: Machine, a: seq<Move>, n: Machine, b: seq<Move>, o: Machine)
    requires Gets(m, a, n) && Gets(n, b, o)
    ensures Gets(m, a + b, o)
    decreases |a|
  {
    if a == [] {
      assert a + b == b;
    } else {
      GetsOn(Moved(m, a[0]), a[1..], n, b, o);
      assert (a + b)[1..] == a[1..] + b;
      hide Moved, CanMove;
    }
  }

  function Plains(steps: seq<Step>): (r: seq<Move>)
    ensures |r| == |steps| && forall i | 0 <= i < |r| :: r[i] == Plain(steps[i])
  {
    if steps == [] then [] else [Plain(steps[0])] + Plains(steps[1..])
  }

  /** A run of the uninterrupted model is one here. */
  lemma {:induction false} PlainRun(s: State, steps: seq<Step>, t: State, below: Op)
    requires Reaches(s, steps, t) && (below.Idle? || forall step | step in steps :: !GuestStep(step))
    ensures Gets(Machine(s, below), Plains(steps), Machine(t, below))
    decreases |steps|
  {
    if steps != [] {
      assert steps[0] in steps;
      PlainRun(Next(s, steps[0]), steps[1..], t, below);
      assert Plains(steps)[1..] == Plains(steps[1..]);
      hide Next, Enabled;
    }
  }

  function TakenAt(m: Machine): Move {
    Interrupted(StageOf(m.s.op))
  }

  // ---------- an operation that holds the semaphore ----------

  predicate Holding(op: Op) {
    op.Mark? || op.Reset? || op.Loop? || op.Unlock?
  }

  /** The interrupt waits for the semaphore that the operation under it holds. */
  predicate Stuck(m: Machine) {
    Holding(m.below) && m.s.sem.Emulator? && (m.s.op.Idle? || m.s.op.Lock?) && !m.s.irq.Outside?
  }

  lemma StaysStuck(m: Machine, move: Move)
    requires Stuck(m) && CanMove(m, move)
    ensures Stuck(Moved(m, move))
  {
    hide CmpTime, NextOf, WakeupOf, NextThread;
  }

  lemma {:induction false} StuckForEver(m: Machine, moves: seq<Move>)
    requires Stuck(m) && CanRun(m, moves)
    ensures Stuck(Run(m, moves))
    decreases |moves|
  {
    if moves != [] {
      StaysStuck(m, moves[0]);
      hide Stuck, Moved, CanMove;
      StuckForEver(Moved(m, moves[0]), moves[1..]);
    }
  }

  /** With callbacks that do nothing the walk comes to its end. */
  lemma {:induction false} IdleWalkEnds(m: Managed)
    requires AtDescriptor(m.s)
    ensures Walk(m, map[]).Walked?
    decreases |Tail(m.s.order, m.s.irq.desc)|
  {
    if m.s.irq.desc.Some? {
      VisitLands(m, map[]);
      hide AfterVisit, VisitSteps, VisitShots, VisitCalls, AtDescriptor, Tail, NextIrq;
      IdleWalkEnds(AfterVisit(m, map[]));
    }
  }

  /** No step of a run is the guest's. */
  predicate NoGuest(steps: seq<Step>) {
    forall step | step in steps :: !GuestStep(step)
  }

  lemma {:induction false} OpStepsNoGuest(n: nat)
    ensures NoGuest(OpSteps(n))
  {
    if n > 0 {
      OpStepsNoGuest(n - 1);
    }
  }

  lemma {:induction false} IdleWalkNoGuest(m: Managed)
    requires AtDescriptor(m.s) && Walk(m, map[]).Walked?
    ensures NoGuest(Walk(m, map[]).steps)
    decreases |Tail(m.s.order, m.s.irq.desc)|
  {
    if m.s.irq.desc.Some? {
      WalkUnfolds(m, map[]);
      assert NoGuest(VisitSteps(m, map[])) by {
        assert Script(map[], m.s.irq.desc.value) == [];
        hide NextIrq;
      }
      hide AfterVisit, VisitSteps, VisitShots, VisitCalls, AtDescriptor, Tail, Walk, VisitSpares;
      IdleWalkNoGuest(AfterVisit(m, map[]));
    }
  }

  lemma WalkFinishes(m: Managed) returns (steps: seq<Step>, t: State)
    requires AtDescriptor(m.s) && m.s.op.Idle? && m.s.sem.Nobody?
    ensures Reaches(m.s, steps, t) && NoGuest(steps) && t.irq.Outside? && t.op.Idle?
  {
    IdleWalkEnds(m);
    IdleWalkNoGuest(m);
    WalkEndsRuns(m, map[]);
    OpStepsNoGuest(|Walk(m, map[]).m.s.order| + 5);
    var w := Ended(Walk(m, map[]));
    assert w.m.s.irq.Outside? && w.m.s.op.Idle?;
    hide Reaches, Walk, OpSteps, AtDescriptor;
    steps, t := w.steps, w.m.s;
  }

  /** With the semaphore free, an interrupt just taken comes to its end. */
  lemma InterruptEnds(s: State) returns (steps: seq<Step>, t: State)
    requires s.irq.Seen? && s.op.Idle? && s.sem.Nobody? && Distinct(s.order)
    ensures Reaches(s, steps, t) && NoGuest(steps) && t.irq.Outside? && t.op.Idle?
  {
    var s2 := s.(flag := false, irq := Visit(s.clock, HeadOf(s.order)));
    OneStepRuns(s.(flag := false, irq := Cleared), IrqStep);
    ReachStep(s, IrqStep, [IrqStep], s2);
    hide Reaches;
    var walk;
    walk, t := WalkFinishes(Managed(s2, {}, {}, map[]));
    ReachAppend(s, [IrqStep, IrqStep], s2, walk, t);
    steps := [IrqStep, IrqStep] + walk;
  }

  /** The timer thread, if it has the semaphore, gives it back. */
  lemma ThreadReleases(s: State) returns (steps: seq<Step>, t: State)
    requires s.op.Idle? && !s.sem.Emulator?
    requires s.sem.Timer? <==> s.thread.Checking? || s.thread.Raising? || s.thread.Releasing?
    ensures Reaches(s, steps, t) && NoGuest(steps) && t.sem.Nobody?
    ensures t.irq == s.irq && t.op == s.op && t.order == s.order
    decreases if s.thread.Checking? then 3 else if s.thread.Raising? then 2 else if s.thread.Releasing? then 1 else 0
  {
    if s.sem.Nobody? {
      steps, t := [], s;
    } else {
      steps, t := ThreadReleases(NextThread(s));
      ReachStep(s, ThreadStep, steps, t);
      hide Reaches;
      steps := [ThreadStep] + steps;
    }
  }

  lemma UnheldResumes(m: Machine) returns (moves: seq<Move>)
    requires CanMove(m, TakenAt(m)) && Exclusive(m.s) && Distinct(m.s.order) && !Holding(m.s.op)
    ensures var n := Moved(m, TakenAt(m)); CanRun(n, moves) && Run(n, moves).below.Idle?
  {
    var n := Moved(m, TakenAt(m));
    var a, s1 := ThreadReleases(n.s);
    var b, s2 := InterruptEnds(s1);
    hide Distinct, Reaches, Exclusive;
    ReachAppend(n.s, a, s1, b, s2);
    PlainRun(n.s, a + b, s2, n.below);
    var end := Machine(s2, n.below);
    GetsOne(end, Resume);
    GetsOn(n, Plains(a + b), end, [Resume], Moved(end, Resume));
    moves := Plains(a + b) + [Resume];
    hide Plains, CanRun, Run;
  }

  /** An operation interrupted while it holds the semaphore never goes on, however the threads are
      scheduled and whatever callbacks do: the interrupt waits for the semaphore for ever.  Interrupted
      anywhere else it can. */
  lemma InterruptedOpResumes(m: Machine)
    requires CanMove(m, TakenAt(m)) && Exclusive(m.s) && Distinct(m.s.order)
    ensures var n := Moved(m, TakenAt(m));
            (exists moves | CanRun(n, moves) :: Run(n, moves).below.Idle?) <==> !Holding(m.s.op)
  {
    var n := Moved(m, TakenAt(m));
    if Holding(m.s.op) {
      hide Run, CanRun;
      forall moves | CanRun(n, moves)
        ensures !Run(n, moves).below.Idle?
      {
        StuckForEver(n, moves);
      }
    } else {
      var moves := UnheldResumes(m);
      hide *;
      assert CanRun(n, moves) && Run(n, moves).below.Idle?;
    }
  }

  // ---------- one PrimeTime, two callbacks ----------

  /** Task 7, primed for time 5, is due at time 10, and the interrupt is pending. */
  function DueAt10(): State {
    State([7], map[7 := 5], {7}, MAX_TIME, true, Nobody, Idle, Outside, Awake, 10, multiset{Shot(7, 5)}, multiset{})
  }

  /** It has been primed again, for time 10, and is still marked active from before. */
  function Primed10(): State {
    DueAt10().(wakeup := map[7 := 10], primed := multiset{Shot(7, 5), Shot(7, 10)}, op := Lock(Prime(7)))
  }

  /** The interrupt taken there has called it. */
  function CalledOnce(): State {
    Primed10().(active := {}, flag := false, op := Idle, fired := multiset{Shot(7, 10)})
  }

  /** The operation has then marked it active, ... */
  function ActiveAgain(): State {
    CalledOnce().(active := {7}, wakeupTime := 10)
  }

  /** ... so that the next interrupt calls it once more. */
  function CalledTwice(): State {
    ActiveAgain().(active := {}, wakeupTime := MAX_TIME, clock := 11, irq := InTask(11, None),
                   fired := multiset{Shot(7, 10), Shot(7, 10)})
  }

  lemma LoneMinimum(wakeup: map<Task, int>, active: set<Task>)
    requires 7 in wakeup && 0 <= wakeup[7] < MAX_TIME
    ensures MinWakeup([7], wakeup, active) == if 7 in active then wakeup[7] else MAX_TIME
  {
    assert [7][..0] == [];
    CmpTimeOrders(wakeup[7], MAX_TIME);
  }

  lemma PrimedAt5()
    ensures LoneEnd(0, 7, 0, 5) == DueAt10().(clock := 0, flag := false, wakeupTime := 5)
  {
    var s := LoneEnd(0, 7, 0, 5);
    assert Inserted(Init(0), 7, 0).order == [7];
    LoneMinimum(s.wakeup, s.active);
    assert s.wakeup == map[7 := 5] && s.active == {7};
  }

  lemma RunToDue() returns (steps: seq<Step>)
    ensures Reaches(Init(0), steps, DueAt10()) && AllProper(steps, ANY_TIME)
  {
    PrimedAt5();
    var s1 := LoneEnd(0, 7, 0, 5);
    hide LoneEnd, MinWakeup;
    var s2 := s1.(clock := 10);
    LonePrimeIsCovered(0, 7, 0, 5);
    OneStepRuns(s1, Tick(10));
    RoundRuns(s2);
    assert RoundEffect(s2) == DueAt10();
    hide Reaches;
    PrimeStepsProper(Inserted(Init(0), 7, 0), 7, 5, ANY_TIME);
    hide PrimeSteps;
    ReachAppend(s1, [Tick(10)], s2, RoundSteps(s2), DueAt10());
    ReachAppend(Init(0), LoneSteps(0, 7, 0, 5), s1, [Tick(10)] + RoundSteps(s2), DueAt10());
    steps := LoneSteps(0, 7, 0, 5) + ([Tick(10)] + RoundSteps(s2));
  }

  lemma RunInterrupt() returns (steps: seq<Step>)
    ensures Reaches(Primed10().(op := Idle, irq := Seen), steps, CalledOnce())
    ensures NoGuest(steps) && AllProper(steps, ANY_TIME)
  {
    var s := Primed10().(op := Idle, flag := false);
    var s3 := s.(irq := InTask(10, None), active := {}, fired := multiset{Shot(7, 10)});
    var s4 := s3.(irq := Visit(10, None));
    assert NextIrq(s.(irq := Visit(10, Some(7)))) == s3;
    LoneMinimum(s.wakeup, {});
    ClosingRuns(s4);
    assert Closed(s4) == CalledOnce();
    OpStepsNoGuest(6);
    OpStepsProper(6, ANY_TIME);
    hide Reaches, MinWakeup, OpSteps;
    var more := [IrqStep] + OpSteps(6);
    ReachStep(s3, IrqStep, more, CalledOnce());
    ReachStep(s.(irq := Visit(10, Some(7))), IrqStep, [IrqStep] + more, CalledOnce());
    ReachStep(s.(irq := Cleared), IrqStep, [IrqStep] + ([IrqStep] + more), CalledOnce());
    ReachStep(Primed10().(op := Idle, irq := Seen), IrqStep, [IrqStep] + ([IrqStep] + ([IrqStep] + more)),
              CalledOnce());
    steps := [IrqStep] + ([IrqStep] + ([IrqStep] + ([IrqStep] + more)));
  }

  lemma RunOperation()
    ensures Reaches(CalledOnce().(op := Lock(Prime(7))), OpSteps(6), ActiveAgain())
  {
    var s := CalledOnce().(op := Lock(Prime(7)));
    LoneMinimum(s.wakeup, {7});
    assert s.active + {7} == {7};
    LockedRuns(s);
    hide Reaches, MinWakeup, OpSteps;
  }

  lemma RunToSecondCall() returns (steps: seq<Step>)
    ensures Reaches(ActiveAgain(), steps, CalledTwice()) && AllProper(steps, ANY_TIME)
  {
    var s1 := ActiveAgain().(clock := 11);
    OneStepRuns(ActiveAgain(), Tick(11));
    RoundRuns(s1);
    var last := RunSecondInterrupt();
    hide Reaches;
    ReachAppend(s1, RoundSteps(s1), RoundEffect(s1), last, CalledTwice());
    ReachAppend(ActiveAgain(), [Tick(11)], s1, RoundSteps(s1) + last, CalledTwice());
    steps := [Tick(11)] + (RoundSteps(s1) + last);
  }

  lemma RunSecondInterrupt() returns (steps: seq<Step>)
    ensures Reaches(RoundEffect(ActiveAgain().(clock := 11)), steps, CalledTwice()) && AllProper(steps, ANY_TIME)
  {
    var s2 := RoundEffect(ActiveAgain().(clock := 11));
    var s3 := s2.(flag := false, irq := Visit(11, Some(7)));
    assert NextIrq(s3) == CalledTwice();
    hide CmpTime;
    OneStepRuns(s3, IrqStep);
    hide Reaches;
    ReachStep(s2.(flag := false, irq := Cleared), IrqStep, [IrqStep], CalledTwice());
    ReachStep(s2.(irq := Seen), IrqStep, [IrqStep, IrqStep], CalledTwice());
    ReachStep(s2, IrqStep, [IrqStep, IrqStep, IrqStep], CalledTwice());
    steps := [IrqStep] + [IrqStep, IrqStep, IrqStep];
  }

  /** The host clock is not negative, and operations are interrupted at these stages only. */
  predicate Permitted(moves: seq<Move>, stages: set<Stage>) {
    forall move | move in moves :: MayMove(move, stages)
  }

  predicate MayMove(move: Move, stages: set<Stage>) {
    match move
    case Plain(step) => Proper(step, ANY_TIME)
    case Interrupted(stage) => stage in stages
    case Resume => true
  }

  lemma PermittedBoth(a: seq<Move>, b: seq<Move>, stages: set<Stage>)
    requires Permitted(a, stages) && Permitted(b, stages)
    ensures Permitted(a + b, stages)
  {
    hide MayMove;
  }

  lemma PlainsPermitted(steps: seq<Step>, stages: set<Stage>)
    requires AllProper(steps, ANY_TIME)
    ensures Permitted(Plains(steps), stages)
  {
    hide Proper;
    forall move | move in Plains(steps)
      ensures MayMove(move, stages)
    {
      var i :| 0 <= i < |steps| && Plains(steps)[i] == move;
      assert steps[i] in steps;
    }
  }

  /** From the second PrimeTime to the interrupt's first callback, ... */
  lemma PrimedAndCalled() returns (moves: seq<Move>)
    ensures Gets(Machine(DueAt10(), Idle), moves, Machine(CalledOnce(), Lock(Prime(7))))
    ensures Permitted(moves, {BeforePrime})
  {
    var m1, m2 := Machine(DueAt10(), Idle), Machine(Primed10(), Idle);
    var m3 := Machine(Primed10().(op := Idle, irq := Seen), Lock(Prime(7)));
    var m4 := Machine(CalledOnce(), Lock(Prime(7)));
    var b := RunInterrupt();
    GetsOne(m1, Plain(PrimeBegin(7, 10)));
    assert Moved(m1, Plain(PrimeBegin(7, 10))) == m2;
    GetsOne(m2, Interrupted(BeforePrime));
    PlainRun(m3.s, b, CalledOnce(), Lock(Prime(7)));
    PlainsPermitted(b, {BeforePrime});
    hide Reaches, Plains, Gets;
    GetsOn(m2, [Interrupted(BeforePrime)], m3, Plains(b), m4);
    GetsOn(m1, [Plain(PrimeBegin(7, 10))], m2, [Interrupted(BeforePrime)] + Plains(b), m4);
    PermittedBoth([Interrupted(BeforePrime)], Plains(b), {BeforePrime});
    PermittedBoth([Plain(PrimeBegin(7, 10))], [Interrupted(BeforePrime)] + Plains(b), {BeforePrime});
    moves := [Plain(PrimeBegin(7, 10))] + ([Interrupted(BeforePrime)] + Plains(b));
  }

  /** ... and from there, with the operation resumed, to the second. */
  lemma ResumedAndCalled() returns (moves: seq<Move>)
    ensures Gets(Machine(CalledOnce(), Lock(Prime(7))), moves, Machine(CalledTwice(), Idle))
    ensures Permitted(moves, {BeforePrime})
  {
    var m4 := Machine(CalledOnce(), Lock(Prime(7)));
    var m5 := Machine(CalledOnce().(op := Lock(Prime(7))), Idle);
    var m6, m7 := Machine(ActiveAgain(), Idle), Machine(CalledTwice(), Idle);
    var c := OpSteps(6);
    var d := RunToSecondCall();
    RunOperation();
    OpStepsProper(6, ANY_TIME);
    GetsOne(m4, Resume);
    PlainRun(m5.s, c, ActiveAgain(), Idle);
    PlainRun(ActiveAgain(), d, CalledTwice(), Idle);
    PlainsPermitted(c, {BeforePrime});
    PlainsPermitted(d, {BeforePrime});
    hide Reaches, OpSteps, Plains, Gets;
    GetsOn(m5, Plains(c), m6, Plains(d), m7);
    GetsOn(m4, [Resume], m5, Plains(c) + Plains(d), m7);
    PermittedBoth(Plains(c), Plains(d), {BeforePrime});
    PermittedBoth([Resume], Plains(c) + Plains(d), {BeforePrime});
    moves := [Resume] + (Plains(c) + Plains(d));
  }

  /** That each PrimeTime leads to one callback at most does not survive all interrupts inside operations:
      one taken between setting a new wakeup time and marking the task active finds it still active
      from before, and the operation then marks it active again. */
  lemma PrimeFiresTwice() returns (moves: seq<Move>)
    ensures CanRun(Machine(Init(0), Idle), moves) && Permitted(moves, {BeforePrime})
    ensures var s := Run(Machine(Init(0), Idle), moves).s; s.primed[Shot(7, 10)] == 1 && s.fired[Shot(7, 10)] == 2
  {
    var a := RunToDue();
    PlainRun(Init(0), a, DueAt10(), Idle);
    PlainsPermitted(a, {BeforePrime});
    var b := PrimedAndCalled();
    var c := ResumedAndCalled();
    var m0, m1 := Machine(Init(0), Idle), Machine(DueAt10(), Idle);
    var m4, m7 := Machine(CalledOnce(), Lock(Prime(7))), Machine(CalledTwice(), Idle);
    hide Reaches, Plains, Permitted;
    GetsOn(m1, b, m4, c, m7);
    GetsOn(m0, Plains(a), m1, b + c, m7);
    PermittedBoth(b, c, {BeforePrime});
    PermittedBoth(Plains(a), b + c, {BeforePrime});
    moves := Plains(a) + (b + c);
  }

  // ---------- when each PrimeTime leads to one callback at most ----------

  /** What a run keeps in which no PrimeTime is interrupted before it has the semaphore. */
  ghost predicate Orderly(m: Machine) {
    && Nested(m.s) && Accounted(m.s)
    && (m.below.Lock? ==> m.below.kind.Remove?)
    && if Holding(m.below) then Stuck(m) else Exclusive(m.s)
  }

  lemma OpKeepsNested(s: State)
    requires Nested(s) && Enabled(s, OpStep)
    ensures Nested(NextOp(s))
  {
    hide Sooner, Without, WakeupOf, InRange;
  }

  lemma IrqKeepsNested(s: State)
    requires Nested(s) && Enabled(s, IrqStep)
    ensures Nested(NextIrq(s))
  {
    hide WakeupOf, CmpTime, NextOf, InRange;
  }

  lemma StepKeepsNested(s: State, step: Step)
    requires Nested(s) && Enabled(s, step) && Proper(step, ANY_TIME)
    ensures Nested(Next(s, step))
  {
    hide NextOp, NextIrq, NextThread;
    match step
    case OpStep => OpKeepsNested(s);
    case IrqStep => IrqKeepsNested(s);
    case ThreadStep => ThreadKeepsNested(s);
    case _ =>
  }

  lemma ThreadKeepsNested(s: State)
    requires Nested(s) && Enabled(s, ThreadStep)
    ensures Nested(NextThread(s))
  {
    hide InRange;
  }

  lemma OpKeepsExclusive(s: State)
    requires Exclusive(s) && Enabled(s, OpStep)
    ensures Exclusive(NextOp(s))
  {
    hide Sooner, Without, WakeupOf;
  }

  lemma IrqKeepsExclusive(s: State)
    requires Exclusive(s) && Enabled(s, IrqStep)
    ensures Exclusive(NextIrq(s))
  {
    hide WakeupOf, CmpTime, NextOf;
  }

  lemma StepKeepsExclusive(s: State, step: Step)
    requires Exclusive(s) && Enabled(s, step)
    ensures Exclusive(Next(s, step))
  {
    hide NextOp, NextIrq, NextThread;
    match step
    case OpStep => OpKeepsExclusive(s);
    case IrqStep => IrqKeepsExclusive(s);
    case ThreadStep => ThreadKeepsExclusive(s);
    case _ =>
  }

  lemma InterruptKeepsOrderly(m: Machine)
    requires Orderly(m) && CanMove(m, TakenAt(m)) && StageOf(m.s.op) != BeforePrime
    ensures Orderly(Moved(m, TakenAt(m)))
  {
    var n := Moved(m, TakenAt(m));
    forall shot: Shot
      ensures n.s.fired[shot] + Promised(n.s, shot) <= n.s.primed[shot]
    {
      assert m.s.fired[shot] + Promised(m.s, shot) <= m.s.primed[shot];
    }
    hide Promised, Accounted, InRange;
  }

  lemma ResumeKeepsOrderly(m: Machine)
    requires Orderly(m) && CanMove(m, Resume)
    ensures Orderly(Moved(m, Resume))
  {
    var n := Moved(m, Resume);
    assert !Holding(m.below);
    forall shot: Shot
      ensures n.s.fired[shot] + Promised(n.s, shot) <= n.s.primed[shot]
    {
      assert m.s.fired[shot] + Promised(m.s, shot) <= m.s.primed[shot];
    }
    hide Promised, Accounted, InRange;
  }

  lemma MoveKeepsOrderly(m: Machine, move: Move, stages: set<Stage>)
    requires Orderly(m) && CanMove(m, move) && MayMove(move, stages) && BeforePrime !in stages
    ensures Orderly(Moved(m, move))
  {
    match move
    case Interrupted(stage) => InterruptKeepsOrderly(m);
    case Resume => ResumeKeepsOrderly(m);
    case Plain(step) =>
      StepKeepsNested(m.s, step);
      StepKeepsAccounts(m.s, step);
      if Holding(m.below) {
        StaysStuck(m, move);
      } else {
        StepKeepsExclusive(m.s, step);
      }
      hide Nested, Accounted, Exclusive, Next, Stuck;
  }

  lemma {:induction false} RunKeepsOrderly(m: Machine, moves: seq<Move>, stages: set<Stage>)
    requires Orderly(m) && CanRun(m, moves) && Permitted(moves, stages) && BeforePrime !in stages
    ensures Orderly(Run(m, moves))
    decreases |moves|
  {
    if moves != [] {
      assert moves[0] in moves;
      MoveKeepsOrderly(m, moves[0], stages);
      hide Orderly, Moved, CanMove, MayMove;
      RunKeepsOrderly(Moved(m, moves[0]), moves[1..], stages);
    }
  }

  /** In this run every wakeup time is called back for no more often than PrimeTime set it. */
  ghost predicate OnceEach(clock: int, moves: seq<Move>) {
    CanRun(Machine(Init(clock), Idle), moves) ==>
      var s := Run(Machine(Init(clock), Idle), moves).s;
      forall shot: Shot :: s.fired[shot] <= s.primed[shot]
  }

  lemma OrderlyOnceEach(clock: int, moves: seq<Move>, stages: set<Stage>)
    requires InRange(clock) && Permitted(moves, stages) && BeforePrime !in stages
    ensures OnceEach(clock, moves)
  {
    var m := Machine(Init(clock), Idle);
    if CanRun(m, moves) {
      assert Orderly(m) by {
        hide Run, CanRun, Permitted;
      }
      RunKeepsOrderly(m, moves, stages);
      var s := Run(m, moves).s;
      hide Run, CanRun, Permitted, Nested, Exclusive, Stuck;
      forall shot: Shot
        ensures s.fired[shot] <= s.primed[shot]
      {
        assert s.fired[shot] + Promised(s, shot) <= s.primed[shot];
      }
    }
  }

  /** Each PrimeTime leads to one callback at most, in every run in which operations are interrupted at
      these stages only, exactly if a PrimeTime that does not have the semaphore yet is none of them. */
  lemma OncePerPrime(stages: set<Stage>)
    ensures (forall clock, moves | InRange(clock) && Permitted(moves, stages) :: OnceEach(clock, moves))
            <==> BeforePrime !in stages
  {
    if BeforePrime in stages {
      var moves := PrimeFiresTwice();
      assert Permitted(moves, stages);
      assert !OnceEach(0, moves) by {
        var s := Run(Machine(Init(0), Idle), moves).s;
        hide Run, CanRun, Permitted;
        assert s.fired[Shot(7, 10)] > s.primed[Shot(7, 10)];
      }
    } else {
      hide Permitted, OnceEach;
      forall clock, moves | InRange(clock) && Permitted(moves, stages)
        ensures OnceEach(clock, moves)
      {
        OrderlyOnceEach(clock, moves, stages);
      }
    }
  }
}
