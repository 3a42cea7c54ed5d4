/** The request/completion handshake of the serial driver: four channels (input and output of two
    ports), each with its I/O thread, the driver's Prime and KillIO calls, and the interrupt. Every
    read or write of a shared flag is a step of its own, and the steps interleave freely. */
module Serial {

  /** Prime: the pending check has passed; the flags are set and the command is sent. */
  datatype PrimePc = NoPrime | ClearDone | SetPending | Send

  /** I/O thread: waiting for a command, doing it, then aborting or completing it. */
  datatype ThreadPc = Waiting | Working | CheckKilled | Abort | AbortClearDone | AbortClearPending | SetDone | SetFlag

  /** Interrupt: the flag is cleared, then the channels are scanned in order. */
  datatype IrqPc = Idle | ClearFlag | ReadPending(k: nat) | ReadDone(k: nat)
                 | Complete(k: nat) | ResetDone(k: nat) | ResetPending(k: nat)

  datatype KillPc = NoKill | SetKilled | WaitIn | WaitOut | ClearKilled

  /** `mail` counts commands sent and not yet received; the last three fields are histories. */
  datatype Channel = Channel(pending: bool, done: bool, mail: nat, prime: PrimePc, thread: ThreadPc,
                             primed: nat, completed: nat, aborted: nat)

  datatype State = State(ch: seq<Channel>, killed: seq<bool>, kill: seq<KillPc>, flag: bool, irq: IrqPc)

  datatype Step = PrimeStep(c: nat) | ThreadStep(c: nat) | KillStep(p: nat) | IrqStep

  predicate Sized(s: State) {
    |s.ch| == 4 && |s.killed| == 2 && |s.kill| == 2 && (!s.irq.Idle? && !s.irq.ClearFlag? ==> s.irq.k < 4)
  }

  function PortOf(c: nat): nat {
    c / 2
  }

  /** Prime and KillIO of one port are taken not to overlap. */
  predicate Enabled(s: State, step: Step)
    requires Sized(s)
  {
    match step
    case PrimeStep(c) => c < 4 && s.kill[PortOf(c)].NoKill?
    case ThreadStep(c) => c < 4
    case KillStep(p) => p < 2 && s.ch[2 * p].prime.NoPrime? && s.ch[2 * p + 1].prime.NoPrime?
    case IrqStep => true
  }

  function Primed(ch: Channel): Channel {
    match ch.prime
    case NoPrime => if ch.pending then ch else ch.(prime := ClearDone)
    case ClearDone => ch.(done := false, prime := SetPending)
    case SetPending => ch.(pending := true, prime := Send, primed := ch.primed + 1)
    case Send => ch.(mail := ch.mail + 1, prime := NoPrime)
  }

  function Threaded(ch: Channel, killed: bool): Channel {
    match ch.thread
    case Waiting => if ch.mail == 0 then ch else ch.(mail := ch.mail - 1, thread := Working)
    case Working => ch.(thread := CheckKilled)
    case CheckKilled => ch.(thread := if killed then Abort else SetDone)
    case Abort => ch.(thread := AbortClearDone, aborted := ch.aborted + 1)
    case AbortClearDone => ch.(done := false, thread := AbortClearPending)
    case AbortClearPending => ch.(pending := false, thread := Waiting)
    case SetDone => ch.(done := true, thread := SetFlag)
    case SetFlag => ch.(thread := Waiting)
  }

  function Onward(k: nat): IrqPc {
    if k == 3 then Idle else ReadPending(k + 1)
  }

  function IrqNext(s: State): (r: State)
    requires Sized(s)
    ensures Sized(r)
  {
    match s.irq
    case Idle => if s.flag then s.(irq := ClearFlag) else s
    case ClearFlag => s.(flag := false, irq := ReadPending(0))
    case ReadPending(k) => s.(irq := if s.ch[k].pending then ReadDone(k) else Onward(k))
    case ReadDone(k) => s.(irq := if s.ch[k].done then Complete(k) else Onward(k))
    case Complete(k) => s.(ch := s.ch[k := s.ch[k].(completed := s.ch[k].completed + 1)], irq := ResetDone(k))
    case ResetDone(k) => s.(ch := s.ch[k := s.ch[k].(done := false)], irq := ResetPending(k))
    case ResetPending(k) => s.(ch := s.ch[k := s.ch[k].(pending := false)], irq := Onward(k))
  }

  function KillNext(s: State, p: nat): (r: State)
    requires Sized(s) && p < 2
    ensures Sized(r)
  {
    match s.kill[p]
    case NoKill => s.(kill := s.kill[p := SetKilled])
    case SetKilled => s.(killed := s.killed[p := true], kill := s.kill[p := WaitIn])
    case WaitIn => if s.ch[2 * p].pending then s else s.(kill := s.kill[p := WaitOut])
    case WaitOut => s.(kill := s.kill[p := if s.ch[2 * p + 1].pending then WaitIn else ClearKilled])
    case ClearKilled => s.(killed := s.killed[p := false], kill := s.kill[p := NoKill])
  }

  function Next(s: State, step: Step): (r: State)
    requires Sized(s) && Enabled(s, step)
    ensures Sized(r)
  {
    match step
    case PrimeStep(c) => s.(ch := s.ch[c := Primed(s.ch[c])])
    case ThreadStep(c) =>
      s.(ch := s.ch[c := Threaded(s.ch[c], s.killed[PortOf(c)])], flag := s.flag || s.ch[c].thread.SetFlag?)
    case KillStep(p) => KillNext(s, p)
    case IrqStep => IrqNext(s)
  }

  /** The thread has a request in hand. */
  predicate InHand(t: ThreadPc) {
    !t.Waiting? && !t.SetFlag?
  }

  /** The interrupt has channel `c` still to look at, or is completing it. */
  predicate ToScan(irq: IrqPc, c: nat) {
    match irq
    case Idle => false
    case ClearFlag => true
    case ReadPending(k) => k <= c
    case ReadDone(k) => k <= c
    case Complete(k) => k <= c
    case ResetDone(k) => k <= c
    case ResetPending(k) => k < c
  }

  /** Where the one outstanding request of a channel is. */
  predicate Whereabouts(ch: Channel, irq: IrqPc, c: nat) {
    && ch.mail <= 1
    && (ch.prime.ClearDone? || ch.prime.SetPending? ==> !ch.pending)
    && (ch.prime.Send? ==> ch.pending && !ch.done && ch.mail == 0 && !InHand(ch.thread))
    && (ch.mail == 1 ==> ch.pending && !ch.done && ch.prime.NoPrime? && !InHand(ch.thread))
    && (InHand(ch.thread) ==> ch.pending && !ch.done && ch.prime.NoPrime?)
    && (irq == Complete(c) || irq == ResetDone(c) ==> ch.done)
    && (irq == ResetPending(c) ==> ch.pending && !ch.done && ch.prime.NoPrime? && ch.mail == 0 && !InHand(ch.thread))
    && (ch.done ==> ch.prime.NoPrime?)
    && (ch.pending && !ch.done && ch.prime.NoPrime? && ch.mail == 0 && !InHand(ch.thread) ==> irq == ResetPending(c))
  }

  predicate DonePending(ch: Channel) {
    ch.done ==> ch.pending
  }

  /** A completed request is not forgotten: the flag is set, about to be set, or the interrupt has
      the channel still to scan. */
  predicate NotLost(ch: Channel, flag: bool, irq: IrqPc, c: nat) {
    ch.done ==> flag || ch.thread.SetFlag? || ToScan(irq, c)
  }

  /** Requests neither completed nor aborted so far. */
  function Outstanding(ch: Channel, irq: IrqPc, c: nat): nat {
    if ch.pending && irq != ResetDone(c) && irq != ResetPending(c)
       && !ch.thread.AbortClearDone? && !ch.thread.AbortClearPending? then 1 else 0
  }

  predicate Accounted(ch: Channel, irq: IrqPc, c: nat) {
    ch.primed == ch.completed + ch.aborted + Outstanding(ch, irq, c)
  }

  predicate ChannelOk(s: State, c: nat)
    requires Sized(s) && c < 4
  {
    && Whereabouts(s.ch[c], s.irq, c) && DonePending(s.ch[c]) && NotLost(s.ch[c], s.flag, s.irq, c)
    && Accounted(s.ch[c], s.irq, c)
  }

  predicate Aborting(t: ThreadPc) {
    t.Abort? || t.AbortClearDone? || t.AbortClearPending?
  }

  /** KillIO: while it is past a channel's wait, nothing is pending there; and only while it is in
      progress do threads abort. */
  predicate KillOk(s: State, p: nat)
    requires Sized(s) && p < 2
  {
    && (s.killed[p] <==> s.kill[p].WaitIn? || s.kill[p].WaitOut? || s.kill[p].ClearKilled?)
    && (!s.kill[p].NoKill? ==> s.ch[2 * p].prime.NoPrime? && s.ch[2 * p + 1].prime.NoPrime?)
    && (s.kill[p].WaitOut? || s.kill[p].ClearKilled? ==> !s.ch[2 * p].pending)
    && (s.kill[p].ClearKilled? ==> !s.ch[2 * p + 1].pending)
    && (Aborting(s.ch[2 * p].thread) || Aborting(s.ch[2 * p + 1].thread) ==> s.killed[p])
  }

  predicate Inv(s: State) {
    Sized(s) && (forall c | 0 <= c < 4 :: ChannelOk(s, c)) && KillOk(s, 0) && KillOk(s, 1)
  }

  function Init(): State {
    var ch := Channel(false, false, 0, NoPrime, Waiting, 0, 0, 0);
    State([ch, ch, ch, ch], [false, false], [NoKill, NoKill], false, Idle)
  }

  lemma InitInv()
    ensures Inv(Init())
  {
  }

  lemma PrimeKeepsChannel(s: State, c: nat)
    requires Inv(s) && c < 4 && Enabled(s, PrimeStep(c))
    ensures ChannelOk(Next(s, PrimeStep(c)), c)
  {
    assert ChannelOk(s, c);
  }

  lemma ThreadKeepsChannel(s: State, c: nat)
    requires Inv(s) && c < 4
    ensures ChannelOk(Next(s, ThreadStep(c)), c)
  {
    assert ChannelOk(s, c);
  }

  lemma OthersKeepChannel(s: State, step: Step, c: nat)
    requires Inv(s) && c < 4 && Enabled(s, step) && step != PrimeStep(c) && step != ThreadStep(c) && !step.IrqStep?
    ensures ChannelOk(Next(s, step), c)
  {
    hide Primed, Threaded;
    assert ChannelOk(s, c);
  }

  lemma IrqKeepsChannel(s: State, c: nat)
    requires Inv(s) && c < 4
    ensures ChannelOk(Next(s, IrqStep), c)
  {
    assert ChannelOk(s, c);
    if s.irq.Idle? || s.irq.ClearFlag? {
      FlagKeepsChannel(s, c);
    } else if s.irq.k == c {
      ScanKeepsOwnChannel(s);
    } else {
      ScanKeepsChannel(s, c);
    }
    hide *;
  }

  lemma FlagKeepsChannel(s: State, c: nat)
    requires Sized(s) && c < 4 && ChannelOk(s, c) && (s.irq.Idle? || s.irq.ClearFlag?)
    ensures ChannelOk(IrqNext(s), c)
  {
    hide InHand;
  }

  lemma ScanKeepsOwnChannel(s: State)
    requires Sized(s) && !s.irq.Idle? && !s.irq.ClearFlag? && ChannelOk(s, s.irq.k)
    ensures ChannelOk(IrqNext(s), s.irq.k)
  {
  }

  lemma ScanKeepsChannel(s: State, c: nat)
    requires Sized(s) && !s.irq.Idle? && !s.irq.ClearFlag? && c < 4 && c != s.irq.k && ChannelOk(s, c)
    ensures ChannelOk(IrqNext(s), c)
  {
    hide InHand;
  }

  lemma HandPends(s: State, c: nat)
    requires Inv(s) && c < 4
    ensures InHand(s.ch[c].thread) ==> s.ch[c].pending
    ensures Aborting(s.ch[c].thread) ==> s.ch[c].pending
  {
    assert ChannelOk(s, c);
  }

  lemma PrimeKeepsKill(s: State, c: nat, p: nat)
    requires Inv(s) && Enabled(s, PrimeStep(c)) && p < 2
    ensures KillOk(Next(s, PrimeStep(c)), p)
  {
    hide ChannelOk;
  }

  lemma ThreadKeepsKill(s: State, c: nat, p: nat)
    requires Inv(s) && Enabled(s, ThreadStep(c)) && p < 2
    ensures KillOk(Next(s, ThreadStep(c)), p)
  {
    HandPends(s, c);
    ThreadMoves(s.ch[c], s.killed[PortOf(c)]);
    hide ChannelOk, Threaded;
  }

  /** A thread step sets nothing pending, and starts an abort only when killed. */
  lemma ThreadMoves(ch: Channel, killed: bool)
    ensures var t := Threaded(ch, killed);
            && t.prime == ch.prime && (t.pending ==> ch.pending)
            && (Aborting(t.thread) ==> killed || Aborting(ch.thread))
  {
  }

  /** The interrupt changes no program counter but its own, and sets nothing pending. */
  lemma IrqKeepsThreads(s: State, c: nat)
    requires Sized(s) && c < 4
    ensures var t := IrqNext(s);
            && t.killed == s.killed && t.kill == s.kill
            && t.ch[c].prime == s.ch[c].prime && t.ch[c].thread == s.ch[c].thread
            && (t.ch[c].pending ==> s.ch[c].pending)
  {
  }

  lemma IrqKeepsKill(s: State, p: nat)
    requires Inv(s) && p < 2
    ensures KillOk(Next(s, IrqStep), p)
  {
    IrqKeepsThreads(s, 2 * p);
    IrqKeepsThreads(s, 2 * p + 1);
    hide ChannelOk, IrqNext;
  }

  lemma KillKeepsKill(s: State, q: nat, p: nat)
    requires Inv(s) && Enabled(s, KillStep(q)) && p < 2
    ensures KillOk(Next(s, KillStep(q)), p)
  {
    if p == q {
      OwnKillKeepsKill(s, p);
    } else {
      OtherKillKeepsKill(s, q, p);
    }
    hide *;
  }

  /** KillIO moves on in its own port ... */
  lemma OwnKillKeepsKill(s: State, p: nat)
    requires Inv(s) && Enabled(s, KillStep(p)) && p < 2
    ensures KillOk(KillNext(s, p), p)
  {
    HandPends(s, 2 * p);
    HandPends(s, 2 * p + 1);
    hide ChannelOk, InHand, ToScan, Outstanding;
  }

  /** ... and leaves the other alone. */
  lemma OtherKillKeepsKill(s: State, q: nat, p: nat)
    requires Inv(s) && q < 2 && p < 2 && p != q
    ensures KillOk(KillNext(s, q), p)
  {
    KillMovesOne(s, q);
    assert KillOk(s, p);
    hide KillNext, ChannelOk;
  }

  lemma KillMovesOne(s: State, q: nat)
    requires Sized(s) && q < 2
    ensures var t := KillNext(s, q);
            t.ch == s.ch && forall p: nat | p < 2 && p != q :: t.kill[p] == s.kill[p] && t.killed[p] == s.killed[p]
  {
  }

  lemma StepKeepsKill(s: State, step: Step, p: nat)
    requires Inv(s) && Enabled(s, step) && p < 2
    ensures KillOk(Next(s, step), p)
  {
    hide Inv, KillOk, Next;
    match step
    case PrimeStep(c) => PrimeKeepsKill(s, c, p);
    case ThreadStep(c) => ThreadKeepsKill(s, c, p);
    case KillStep(q) => KillKeepsKill(s, q, p);
    case IrqStep => IrqKeepsKill(s, p);
  }

  /** Every step, of whichever thread, keeps the invariant. */
  lemma StepKeepsInv(s: State, step: Step)
    requires Inv(s) && Enabled(s, step)
    ensures Inv(Next(s, step))
  {
    hide ChannelOk, KillOk, Primed, Threaded, KillNext;
    forall c | 0 <= c < 4
      ensures ChannelOk(Next(s, step), c)
    {
      if step == PrimeStep(c) {
        PrimeKeepsChannel(s, c);
      } else if step == ThreadStep(c) {
        ThreadKeepsChannel(s, c);
      } else if step.IrqStep? {
        IrqKeepsChannel(s, c);
      } else {
        OthersKeepChannel(s, step, c);
      }
    }
    StepKeepsKill(s, step, 0);
    StepKeepsKill(s, step, 1);
  }

  predicate Legal(s: State, steps: seq<Step>)
    requires Sized(s)
    decreases |steps|
  {
    steps == [] || (Enabled(s, steps[0]) && Legal(Next(s, steps[0]), steps[1..]))
  }

  /** The state after a run. */
  function After(s: State, steps: seq<Step>): (r: State)
    requires Sized(s) && Legal(s, steps)
    ensures Sized(r)
    decreases |steps|
  {
    if steps == [] then s else After(Next(s, steps[0]), steps[1..])
  }

  lemma {:induction false} RunKeepsInv(s: State, steps: seq<Step>)
    requires Inv(s) && Legal(s, steps)
    ensures Inv(After(s, steps))
    decreases |steps|
  {
    hide Next, Enabled, ChannelOk, KillOk;
    if steps != [] {
      StepKeepsInv(s, steps[0]);
      RunKeepsInv(Next(s, steps[0]), steps[1..]);
    }
  }

  /** In every interleaving from the start: done means pending; each request is completed or
      aborted at most once and only one is ever open; and a completed one is not lost. */
  lemma CompletionSafety(steps: seq<Step>, c: nat)
    requires Legal(Init(), steps) && c < 4
    ensures var s := After(Init(), steps);
      && DonePending(s.ch[c]) && NotLost(s.ch[c], s.flag, s.irq, c)
      && s.ch[c].completed + s.ch[c].aborted <= s.ch[c].primed <= s.ch[c].completed + s.ch[c].aborted + 1
  {
    InitInv();
    RunKeepsInv(Init(), steps);
    assert ChannelOk(After(Init(), steps), c);
  }

  /** When KillIO is done waiting, every request of its port has been completed or aborted. */
  lemma KillLeavesNothing(steps: seq<Step>, p: nat, c: nat)
    requires Legal(Init(), steps) && p < 2 && c < 4 && PortOf(c) == p
    ensures var s := After(Init(), steps);
      (s.kill[p].ClearKilled? ==> s.ch[c].primed == s.ch[c].completed + s.ch[c].aborted)
  {
    InitInv();
    RunKeepsInv(Init(), steps);
    hide Legal, After, NotLost, Whereabouts;
    assert ChannelOk(After(Init(), steps), c);
    assert c == 2 * p || c == 2 * p + 1;
  }

  /** Until the interrupt completes it, a done request stays done and is still to be scanned. */
  predicate ServedOrWaiting(s: State, c: nat, before: nat)
    requires Sized(s) && c < 4
  {
    s.ch[c].completed > before
    || (s.ch[c].completed == before && s.ch[c].done && ToScan(s.irq, c) && s.irq != ResetDone(c))
  }

  lemma InterruptServes(s: State, c: nat, before: nat)
    requires Inv(s) && c < 4 && ServedOrWaiting(s, c, before)
    ensures ServedOrWaiting(Next(s, IrqStep), c, before)
  {
    assert ChannelOk(s, c);
    assert DonePending(s.ch[c]);
    hide ChannelOk, KillOk, NotLost, Accounted;
  }

  lemma ThreadsServe(s: State, step: Step, c: nat, before: nat)
    requires Inv(s) && Enabled(s, step) && !step.IrqStep? && c < 4 && ServedOrWaiting(s, c, before)
    ensures ServedOrWaiting(Next(s, step), c, before)
  {
    if s.ch[c].done {
      OnlyInterruptClearsDone(s, step, c);
    }
    hide Inv, ToScan;
  }

  lemma {:induction false} RunServes(s: State, steps: seq<Step>, c: nat, before: nat)
    requires Inv(s) && Legal(s, steps) && c < 4 && ServedOrWaiting(s, c, before)
    ensures ServedOrWaiting(After(s, steps), c, before)
    decreases |steps|
  {
    hide Next, Enabled, ChannelOk, KillOk, ServedOrWaiting;
    if steps != [] {
      if steps[0].IrqStep? {
        InterruptServes(s, c, before);
      } else {
        ThreadsServe(s, steps[0], c, before);
      }
      StepKeepsInv(s, steps[0]);
      RunServes(Next(s, steps[0]), steps[1..], c, before);
    }
  }

  /** A request done before the interrupt's scan gets to its channel is completed by that scan,
      whatever the other threads do meanwhile. */
  lemma DoneIsServed(s: State, steps: seq<Step>, c: nat)
    requires Inv(s) && Legal(s, steps) && c < 4 && s.ch[c].done && ToScan(s.irq, c) && s.irq != ResetDone(c)
    ensures After(s, steps).irq.Idle? ==> After(s, steps).ch[c].completed > s.ch[c].completed
  {
    hide After, Legal, ChannelOk, KillOk;
    RunServes(s, steps, c, s.ch[c].completed);
  }

  /** Without interrupts a done request stays pending, ... */
  lemma OnlyInterruptClearsDone(s: State, step: Step, c: nat)
    requires Inv(s) && Enabled(s, step) && !step.IrqStep? && c < 4 && s.ch[c].done
    ensures Next(s, step).ch[c].done && Next(s, step).irq == s.irq && Next(s, step).ch[c].completed == s.ch[c].completed
  {
    assert ChannelOk(s, c);
    hide ChannelOk, KillOk, NotLost, Accounted;
  }

  /** The request is past the I/O thread's look at the kill flag: it will be completed, or is done. */
  predicate Committed(ch: Channel) {
    ch.done || ch.thread.SetDone?
  }

  predicate NoInterrupt(steps: seq<Step>) {
    forall step | step in steps :: !step.IrqStep?
  }

  lemma CommittedBlocksKill(s: State, c: nat)
    requires Inv(s) && c < 4 && Committed(s.ch[c])
    ensures s.ch[c].pending && !s.kill[PortOf(c)].ClearKilled?
  {
    assert ChannelOk(s, c);
    assert c == 2 * PortOf(c) || c == 2 * PortOf(c) + 1;
  }

  lemma StaysCommitted(s: State, step: Step, c: nat)
    requires Inv(s) && Enabled(s, step) && !step.IrqStep? && c < 4 && Committed(s.ch[c])
    ensures Committed(Next(s, step).ch[c])
  {
    assert ChannelOk(s, c);
    hide ChannelOk, KillOk, NotLost, Accounted;
  }

  /** ... so a KillIO that finds one, or one about to be done, cannot return before the interrupt has
      run: however long it waits, its wait is not over. */
  lemma {:induction false} KillNeedsInterrupt(s: State, steps: seq<Step>, c: nat)
    requires Inv(s) && Legal(s, steps) && c < 4 && Committed(s.ch[c]) && NoInterrupt(steps)
    ensures Committed(After(s, steps).ch[c]) && !After(s, steps).kill[PortOf(c)].ClearKilled?
    decreases |steps|
  {
    hide Next, Enabled, ChannelOk, KillOk, Committed;
    if steps == [] {
      CommittedBlocksKill(s, c);
    } else {
      StaysCommitted(s, steps[0], c);
      StepKeepsInv(s, steps[0]);
      KillNeedsInterrupt(Next(s, steps[0]), steps[1..], c);
    }
  }

  // ---------- when KillIO returns ----------

  /** How many steps the I/O thread is from having aborted the request. */
  function ToAbort(ch: Channel): nat {
    match ch.thread
    case SetFlag => 7
    case Waiting => if ch.pending then 6 else 0
    case Working => 5
    case CheckKilled => 4
    case Abort => 3
    case AbortClearDone => 2
    case AbortClearPending => 1
    case SetDone => 0
  }

  lemma OpenIsWithThread(s: State, c: nat)
    requires Inv(s) && c < 4 && s.irq.Idle? && s.killed[PortOf(c)] && !Committed(s.ch[c]) && s.ch[c].pending
    ensures s.ch[c].mail == 1 || (InHand(s.ch[c].thread) && !s.ch[c].thread.SetDone?)
  {
    assert ChannelOk(s, c);
    assert c == 2 * PortOf(c) || c == 2 * PortOf(c) + 1;
    hide NotLost, Accounted;
  }

  lemma AbortStep(s: State, c: nat)
    requires Inv(s) && c < 4 && s.irq.Idle? && s.killed[PortOf(c)] && !Committed(s.ch[c]) && s.ch[c].pending
    ensures var ch, t := s.ch[c], Next(s, ThreadStep(c));
            && !Committed(t.ch[c]) && ToAbort(t.ch[c]) < ToAbort(ch)
            && t == s.(ch := s.ch[c := t.ch[c]], flag := t.flag)
  {
    OpenIsWithThread(s, c);
    hide ChannelOk, KillOk;
  }

  /** Left to itself, the I/O thread of a killed port aborts a request it is not committed to. */
  lemma {:induction false} ThreadAborts(s: State, c: nat) returns (steps: seq<Step>)
    requires Inv(s) && c < 4 && s.irq.Idle? && s.killed[PortOf(c)] && !Committed(s.ch[c])
    ensures Legal(s, steps) && NoInterrupt(steps)
    ensures var t := After(s, steps);
            Inv(t) && !t.ch[c].pending && t == s.(ch := s.ch[c := t.ch[c]], flag := t.flag)
    decreases ToAbort(s.ch[c])
  {
    if s.ch[c].pending {
      AbortStep(s, c);
      StepKeepsInv(s, ThreadStep(c));
      hide Inv, Committed, ToAbort;
      var t := Next(s, ThreadStep(c));
      var more := ThreadAborts(t, c);
      steps := [ThreadStep(c)] + more;
      assert steps[1..] == more;
    } else {
      steps := [];
    }
  }

  lemma {:induction false} RunOn(s: State, a: seq<Step>, b: seq<Step>)
    requires Sized(s) && Legal(s, a) && Legal(After(s, a), b)
    ensures Legal(s, a + b) && After(s, a + b) == After(After(s, a), b)
    decreases |a|
  {
    if a == [] {
      assert a + b == b;
    } else {
      RunOn(Next(s, a[0]), a[1..], b);
      assert (a + b)[1..] == a[1..] + b;
      hide Next, Enabled;
    }
  }

  lemma KillFinishes(s: State, p: nat) returns (steps: seq<Step>)
    requires Inv(s) && p < 2 && (s.kill[p].WaitIn? || s.kill[p].WaitOut?)
    requires !s.ch[2 * p].pending && !s.ch[2 * p + 1].pending
    ensures Legal(s, steps) && NoInterrupt(steps) && After(s, steps).kill[p].ClearKilled?
  {
    hide ChannelOk, Next, Enabled;
    KillMoves(s, p);
    var t := Next(s, KillStep(p));
    if s.kill[p].WaitIn? {
      KillMoves(t, p);
      RunOne(t, KillStep(p));
      steps := [KillStep(p), KillStep(p)];
      assert steps[1..] == [KillStep(p)];
    } else {
      RunOne(s, KillStep(p));
      steps := [KillStep(p)];
    }
  }

  lemma RunOne(s: State, step: Step)
    requires Sized(s) && Enabled(s, step)
    ensures Legal(s, [step]) && After(s, [step]) == Next(s, step)
  {
    assert [step][1..] == [];
  }

  lemma KillMoves(s: State, p: nat)
    requires Inv(s) && p < 2 && (s.kill[p].WaitIn? || s.kill[p].WaitOut?)
    requires !s.ch[2 * p].pending && !s.ch[2 * p + 1].pending
    ensures Enabled(s, KillStep(p))
    ensures var t := Next(s, KillStep(p));
            && t.ch == s.ch && Inv(t)
            && t.kill[p] == if s.kill[p].WaitIn? then WaitOut else ClearKilled
  {
    hide ChannelOk;
    StepKeepsInv(s, KillStep(p));
  }

  lemma KillCanReturn(s: State, p: nat) returns (steps: seq<Step>)
    requires Inv(s) && p < 2 && s.irq.Idle? && (s.kill[p].WaitIn? || s.kill[p].WaitOut?)
    requires !Committed(s.ch[2 * p]) && !Committed(s.ch[2 * p + 1])
    ensures Legal(s, steps) && NoInterrupt(steps) && After(s, steps).kill[p].ClearKilled?
  {
    hide ChannelOk, Next, Committed, Legal, After, NoInterrupt;
    var a := ThreadAborts(s, 2 * p);
    var s1 := After(s, a);
    var b := ThreadAborts(s1, 2 * p + 1);
    var s2 := After(s1, b);
    var k := KillFinishes(s2, p);
    RunOn(s1, b, k);
    RunOn(s, a, b + k);
    steps := a + (b + k);
    assert NoInterrupt(steps) by {
      NoneAdded(b, k);
      NoneAdded(a, b + k);
    }
  }

  lemma NoneAdded(a: seq<Step>, b: seq<Step>)
    requires NoInterrupt(a) && NoInterrupt(b)
    ensures NoInterrupt(a + b)
  {
  }

  /** As long as the interrupt does not run, a waiting KillIO can return if and only if it finds no
      request committed: those the I/O threads abort, but a committed one takes the interrupt. */
  lemma KillReturnsUninterrupted(s: State, p: nat)
    requires Inv(s) && p < 2 && s.irq.Idle? && (s.kill[p].WaitIn? || s.kill[p].WaitOut?)
    ensures (exists steps | Legal(s, steps) && NoInterrupt(steps) :: After(s, steps).kill[p].ClearKilled?)
            <==> !Committed(s.ch[2 * p]) && !Committed(s.ch[2 * p + 1])
  {
    hide ChannelOk, KillOk, Committed, Legal, After, NoInterrupt;
    if !Committed(s.ch[2 * p]) && !Committed(s.ch[2 * p + 1]) {
      var steps := KillCanReturn(s, p);
    } else {
      forall steps | Legal(s, steps) && NoInterrupt(steps)
        ensures !After(s, steps).kill[p].ClearKilled?
      {
        KillNeedsInterrupt(s, steps, if Committed(s.ch[2 * p]) then 2 * p else 2 * p + 1);
      }
    }
  }

  // ---------- with the interrupt ----------

  predicate Waits(s: State, p: nat)
    requires Sized(s) && p < 2
  {
    s.kill[p].WaitIn? || s.kill[p].WaitOut?
  }

  /** How many steps the interrupt is at most from its end. */
  function IrqToGo(irq: IrqPc): nat {
    match irq
    case Idle => 0
    case ClearFlag => 21
    case ReadPending(k) => if k < 4 then 5 * (4 - k) else 0
    case ReadDone(k) => if k < 4 then 5 * (4 - k) - 1 else 0
    case Complete(k) => if k < 4 then 5 * (4 - k) - 2 else 0
    case ResetDone(k) => if k < 4 then 5 * (4 - k) - 3 else 0
    case ResetPending(k) => if k < 4 then 5 * (4 - k) - 4 else 0
  }

  /** The interrupt has left everything but the flag and the requests it completed alone. */
  predicate OnlyServed(s: State, t: State)
    requires Sized(s) && Sized(t)
  {
    && t.kill == s.kill && t.killed == s.killed
    && forall c | 0 <= c < 4 ::
         && t.ch[c].thread == s.ch[c].thread && (t.ch[c].pending ==> s.ch[c].pending)
         && t.ch[c].primed == s.ch[c].primed && t.ch[c].aborted == s.ch[c].aborted
  }

  lemma IrqOnlyServes(s: State)
    requires Sized(s)
    ensures OnlyServed(s, IrqNext(s))
    ensures !s.irq.Idle? ==> IrqToGo(IrqNext(s).irq) < IrqToGo(s.irq)
  {
  }

  /** An interrupt under way comes to its end by its own steps. */
  lemma {:induction false} IrqEnds(s: State) returns (steps: seq<Step>)
    requires Inv(s)
    ensures Legal(s, steps)
    ensures Inv(After(s, steps)) && After(s, steps).irq.Idle? && OnlyServed(s, After(s, steps))
    decreases IrqToGo(s.irq)
  {
    if s.irq.Idle? {
      steps := [];
    } else {
      var t := Next(s, IrqStep);
      IrqOnlyServes(s);
      StepKeepsInv(s, IrqStep);
      hide Inv, IrqToGo, IrqNext;
      var more := IrqEnds(t);
      steps := [IrqStep] + more;
      assert steps[1..] == more;
    }
  }

  /** The I/O thread's last steps after it has done a request: it is seen to be done, flag and all. */
  lemma {:induction false} ThreadSignals(s: State, c: nat) returns (steps: seq<Step>)
    requires Inv(s) && c < 4 && s.irq.Idle? && Committed(s.ch[c])
    ensures Legal(s, steps)
    ensures var t := After(s, steps);
            Inv(t) && t.ch[c].done && t.flag && !t.ch[c].thread.SetFlag?
            && t == s.(ch := s.ch[c := t.ch[c]], flag := t.flag)
    decreases if s.ch[c].thread.SetDone? then 2 else if s.ch[c].thread.SetFlag? then 1 else 0
  {
    assert ChannelOk(s, c);
    if s.ch[c].thread.SetDone? || s.ch[c].thread.SetFlag? {
      var t := Next(s, ThreadStep(c));
      StepKeepsInv(s, ThreadStep(c));
      hide Inv, ChannelOk;
      var more := ThreadSignals(t, c);
      steps := [ThreadStep(c)] + more;
      assert steps[1..] == more;
    } else {
      steps := [];
    }
  }

  /** A done request whose completions have gone up is no longer pending. */
  lemma ServedIsOver(s: State, t: State, c: nat)
    requires Inv(s) && Inv(t) && c < 4 && s.irq.Idle? && t.irq.Idle? && OnlyServed(s, t)
    requires s.ch[c].done && t.ch[c].completed > s.ch[c].completed
    ensures !t.ch[c].pending
  {
    assert ChannelOk(s, c) && ChannelOk(t, c);
    hide KillOk, NotLost, Inv;
  }

  /** The interrupt taken and brought to its end completes a done request. */
  lemma InterruptCompletes(s: State, c: nat) returns (steps: seq<Step>)
    requires Inv(s) && c < 4 && s.irq.Idle? && s.flag && s.ch[c].done
    ensures Legal(s, steps)
    ensures var t := After(s, steps); Inv(t) && t.irq.Idle? && OnlyServed(s, t) && !t.ch[c].pending
  {
    var t := Next(s, IrqStep);
    assert t == s.(irq := ClearFlag);
    StepKeepsInv(s, IrqStep);
    hide Inv, IrqNext;
    var more := IrqEnds(t);
    DoneIsServed(t, more, c);
    steps := [IrqStep] + more;
    assert steps[1..] == more;
    ServedIsOver(s, After(s, steps), c);
  }

  /** One channel of a killed port is brought to rest: its request is aborted by the I/O thread, or
      completed by the interrupt. */
  lemma ChannelRests(s: State, p: nat, c: nat) returns (steps: seq<Step>)
    requires Inv(s) && p < 2 && c < 4 && PortOf(c) == p && s.irq.Idle? && Waits(s, p)
    ensures Legal(s, steps)
    ensures var t := After(s, steps);
            && Inv(t) && t.irq.Idle? && t.kill == s.kill && !t.ch[c].pending
            && forall d | 0 <= d < 4 :: t.ch[d].pending ==> s.ch[d].pending
  {
    assert s.killed[p];
    hide ChannelOk, KillOk, Legal, After, NoInterrupt, Committed;
    if Committed(s.ch[c]) {
      var a := ThreadSignals(s, c);
      var t := After(s, a);
      CommittedBlocksKill(s, c);
      var b := InterruptCompletes(t, c);
      RunOn(s, a, b);
      steps := a + b;
    } else {
      steps := ThreadAborts(s, c);
    }
  }

  /** With the interrupt, a waiting KillIO can always return: from every reachable state in which it
      waits, wherever the I/O threads and the interrupt are, some run brings it to its end. */
  lemma KillReturns(s: State, p: nat) returns (steps: seq<Step>)
    requires Inv(s) && p < 2 && Waits(s, p)
    ensures Legal(s, steps) && After(s, steps).kill[p].ClearKilled?
  {
    hide ChannelOk, KillOk, Legal, After, NoInterrupt;
    var a := IrqEnds(s);
    var s1 := After(s, a);
    var b := ChannelRests(s1, p, 2 * p);
    var s2 := After(s1, b);
    var c := ChannelRests(s2, p, 2 * p + 1);
    var s3 := After(s2, c);
    var k := KillFinishes(s3, p);
    RunOn(s2, c, k);
    RunOn(s1, b, c + k);
    RunOn(s, a, b + (c + k));
    steps := a + (b + (c + k));
  }
}
