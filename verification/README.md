# SheepShear: models and proofs

SheepShear runs the classic Mac OS on a host system. Most of it is plumbing; this project models the
parts that are algorithms or protocols, and proves what they are for. The models follow the code,
branch by branch, including its integer widths and error exits; where the code does not do the
obvious thing, the exact condition under which it does is proved.

- `Lzss`: the decoder for compressed ROM images, a ring dictionary against copying from the history.
- `TimerTime`, `TaskList`, `TimerProtocol`, `TimerDeadline`, `TimerRuns`, `TimerCalls`, `TimerDrift`,
  `TimerManager`, `TimerHistory`, `TimerNested`: the Time Manager. The protocol is an interleaving
  model of the emulator thread and the timer thread (the BeOS/Haiku variant) with its safety
  properties, then its deadlines; runs and calls show what each operation does to be a run of the
  protocol; drift follows a task's wakeup time over whole sequences of calls; the manager is the
  sequential code, proved against these; the history is the guest's side; nested takes the interrupt
  inside operations.
- `ScsiTable`, `ScsiProgram`, `ScsiManager`, `ScsiBuffer`, `ScsiCommand`: the transfer instruction
  interpreter, what its instructions and its usual program do, the phase machine, the flat buffer,
  and the way of the data from end to end.
- `Rows`, `Blit`, `Paint`: QuickDraw acceleration.
- `EtherFrame`, `EtherMessage`, `EtherTransmit`, `EtherBits`, `EtherStream`, `EtherMulticast`,
  `EtherHistory`, `EtherDriver`, `EtherReceive`, `EtherDelivery`: the DLPI Ethernet driver: framing
  (section 3.2.6 of IEEE 802.3, section 3 of IEEE 802.2), message blocks on the heap, sending, the
  bind/multicast state machine, multicast lists, what a stream is bound to after any run of requests,
  distribution, and both ends together.
- `ExtFsTree`, `ExtFs`: the external file system's catalogue of ids and paths.
- `Serial`: the request/completion handshake of the serial driver, as interleaved steps.
- `PrefsText`, `Prefs`: the preferences list and its text form.
- `MacDate`: seconds since 1904.
- `Bytes`: fixed-width integers and byte sequences.

Code that updates state in place is modelled by classes and methods over heap objects and arrays,
each proved against a specification function whose properties are then proved as lemmas. Concurrent
code is modelled as a state machine whose steps are single accesses to shared state.

## Assumptions

- The host's and devices' answers, allocation failures, clocks and the content of uninitialised
  memory are parameters. So are guest callbacks, as sequences of Time Manager calls.
- Setting and clearing an interrupt flag is atomic, as `src/Haiku/main_beos.cpp:1354-1362` makes it.
- Time Manager callbacks do not remove the task whose descriptor the interrupt goes on to; the
  guest does not write a task's qType; the host clock is not negative.
- In `TimerProtocol` and what builds on it, but `TimerNested`, an operation of the emulator thread is
  not interrupted by the timer interrupt before it ends. So it is in builds that emulate the PowerPC,
  and for operations called at a higher interrupt level. In native builds the handler runs the
  interrupt inside an operation called at level 0 (`src/Haiku/main_beos.cpp:1473-1490`): `TimerNested`
  takes it there, and shows when the operation goes on and when each PrimeTime still fires once at most.
- Prime and KillIO of a port do not overlap. Builds that emulate the PowerPC keep the serial interrupt
  waiting while KillIO spins, which `KillReturnsUninterrupted` is about; native builds serve it from
  the signal handler (`src/Haiku/main_beos.cpp:1455-1471`), which `KillReturns` is about. There a
  completion routine could call Prime again; that is the overlap excluded.
- Suspending the timer thread stops it wherever it is; resuming it ends a sleep it has begun, and
  nothing else.
- Host addresses are Mac addresses plus a constant and do not wrap (real addressing).
- `int32` products that overflow wrap around.
- A request message is one protocol block in front of data blocks, with its address inside the
  block; a received packet is one block that holds a full header; duplicating a message block
  succeeds; multicast lists hold six-byte addresses.
- The host file system accepts a rename only as `extfs_rename` reports it, and its file names hold
  no slash. File name encodings take Mac names of at most 31 bytes to the host and back unchanged.
- Preference keywords are non-empty, at most 241 characters long, without whitespace and do not
  start a comment; strings are C strings.

## Model

| member | source | states |
|---|---|---|
| `Lzss.DecodeLzss` | src/rom_patches.cpp:79-119 | for every input, even one cut short inside a token, the loop terminates, reads exactly its byte budget, writes at most nine bytes per input byte, and its output spells out the tokens, each byte of a match being the one its ring cell holds then; the ring ends as the window on that output |
| `Lzss.RingIsHistory` | src/rom_patches.cpp:83-117 | every ring cell holds the output byte at that cell's distance back, or its initial content if nothing reached it yet |
| `Lzss.RingAgreesWithOutput` | src/rom_patches.cpp:83-117 | dict[(0xfee+k) & 0xfff] = out[k] for the last min(n, 4096) bytes, and every other cell is untouched |
| `Lzss.CopyExtends` | src/rom_patches.cpp:103-115 | a match only appends: what was written before is a prefix of what is written after |
| `Lzss.CopyIsPeriodic` | src/rom_patches.cpp:103-115 | a self-overlapping match writes the last d bytes over and over |
| `Lzss.CopyMatch` | src/rom_patches.cpp:103-115 | the ring copy loop with its wrapping index does the copy from the history that MatchReads describes cell by cell, whether source and target overlap or not |
| `Lzss.MatchReads` | src/rom_patches.cpp:103-115 | byte i of a match that starts in ring cell s is what cell s + i, counted around the ring, holds when it is copied: the last byte stored there, or what was there in the first place |
| `Lzss.MatchRepeats` | src/rom_patches.cpp:103-115 | a match that starts in the cell of output byte p, at most 4096 bytes back, repeats the output from p on |
| `Lzss.MatchOfInitial` | src/rom_patches.cpp:103-115 | from cells nothing has been stored in, a match copies the initial dictionary |
| `Lzss.DecodedSpells` | src/rom_patches.cpp:82-117 | the decoded output is the one output that spells out the tokens, literals as they stand and matches read from their ring cells |
| `Lzss.OutputBound` | src/rom_patches.cpp:82-117 | nine output bytes per input byte are always enough |
| `Lzss.MaskHoldsEight` | src/rom_patches.cpp:86-99 | the mask made from a flag byte and 0xff00 delivers the byte's eight flags, lowest first, and falls below 0x100 after exactly eight shifts |
| `Lzss.ParseSerialise` | src/rom_patches.cpp:82-117 | parsing the serialisation of any token list gives the list back, whatever its length modulo eight |
| `Lzss.RoundTrip` | src/rom_patches.cpp:82-117 | decoding a serialised token list writes its expansion |
| `TimerTime.CmpTimeOrders` | src/Haiku/timer_beos.cpp:92-96 | comparing by the sign of the difference orders two 64-bit times if and only if the difference does not overflow |
| `TimerTime.CmpTimeInRange` | src/Haiku/timer_beos.cpp:92-96 | non-negative times always compare in order |
| `TimerTime.Mac2HostIsExact` | src/Haiku/timer_beos.cpp:103-109 | a delay is converted to the time it stands for exactly up to 2147483 ms and for every microsecond value but the smallest |
| `TimerTime.ConversionRoundTrip` | src/Haiku/timer_beos.cpp:103-126 | a host time survives conversion to a Mac delay and back to within a millisecond exactly below 2147484000 us, and unchanged up to 2^31 - 1 |
| `TimerTime.ResumeIsExact` | src/timer.cpp:452-465 | the "continue" case reads only sixteen bits of the saved time: it restores the remaining delay exactly for 0 and 64551000 us and for nothing else |
| `TimerTime.ReprimingDoesNotDrift` | src/timer.cpp:449-476 | the arithmetic of re-priming an extended task that is marked as scheduled: the wakeup is the first one plus the sum of the non-zero delays |
| `TimerTime.PrimedWakeupInSpan` | src/timer.cpp:447-484 | which arguments make PrimeTime compute a wakeup time from -1 on: exactly those whose sum lies between -1 and the maximum, or wraps around from below |
| `TimerTime.DelayFromNow` | src/timer.cpp:471-484 | a delay counted from now never gives a time below -1, whatever the host clock up to 2^31 us before its end, if and only if its 32-bit conversion is at least -1; it gives the time meant if and only if it is at most 2147483 ms and not -2^31 us |
| `TaskList.TailOfNext` | src/timer.cpp:613-617 | following a descriptor's next pointer passes exactly that descriptor |
| `TimerProtocol.MinWakeupIsEarliest` | src/timer.cpp:502-507 | the recomputed wakeup time is the earliest of the active tasks' wakeup times, if these lie in a range that the wrapped comparison orders: from -1 on and no wider than 2^63 - 1 |
| `TimerProtocol.LoneTaskIsFound` | src/timer.cpp:502-507 | a single active task is found if and only if its wakeup time is not below -1; below, wakeup_time stays at the maximum |
| `TimerProtocol.StepKeepsInv` | src/timer.cpp:337-555 | every single step of either thread that schedules for an ordered time keeps the invariant: mutual exclusion, proper nesting, the saved descriptor in the list, coverage of all active tasks |
| `TimerProtocol.NoTaskMissed` | src/timer.cpp:337-555 | in every interleaving in which PrimeTime computes ordered times only, outside an operation, either the timer interrupt is pending or about to be raised, or wakeup_time is no later than the wakeup of every active task |
| `TimerProtocol.EachPrimeFiresOnce` | src/timer.cpp:433-638 | over every run, whatever 64-bit wakeup times are computed, each PrimeTime causes at most one callback, and none before its wakeup time |
| `TimerProtocol.DueIsNotEarly` | src/Haiku/timer_beos.cpp:92-96 | for every 64-bit wakeup time the wrapped comparison finds a task due only from that time on |
| `TimerProtocol.WalkIsSafe` | src/timer.cpp:609-638 | over every run, what the interrupt has still to visit is a tail of the list as the callbacks have left it, beginning with the saved descriptor: the next pointer never dangles; and the two threads never work on wakeup_time together |
| `TimerProtocol.WalkEnds` | src/timer.cpp:614-638 | a pass over the live list ends: whatever callbacks insert, remove or re-prime and the other thread does, it looks at no more descriptors than were ahead of it |
| `TimerDeadline.StepKeepsWatched` | src/timer.cpp:433-638 | whatever step is taken, a task past its time stays on the way to its callback, and every step of the timer thread brings the flag nearer |
| `TimerDeadline.ExpiredTaskFires` | src/timer.cpp:609-638 | a due task fires before the interrupt is over, under every interleaving that does not remove or re-prime it |
| `TimerDeadline.DeadlineIsServed` | src/emul_op.cpp:327-330 | from any reachable state outside an operation with an active task past its deadline, every interleaving in which the timer thread takes seven steps and then an interrupt is looked for and brought to its end fires the task, unless somebody re-primes, removes or re-inserts it |
| `TimerDeadline.StepKeepsMindful` | src/timer.cpp:536-541 | the thread sleeps until the wakeup time that is set; a step breaks this if and only if it resumes the thread with another time while the thread is between reading wakeup_time and falling asleep |
| `TimerDeadline.ThreadWakesInTime` | src/timer.cpp:536-541 | in a run without such a step the thread, unless the interrupt is pending, sleeps no longer than until the wakeup of every active task, and can run once one has passed |
| `TimerRuns.PrimeRuns` | src/timer.cpp:433-528 | the sequential effect of PrimeTime is a run of the two-thread model |
| `TimerRuns.RemoveRuns` | src/timer.cpp:358-426 | the sequential effect of RmvTime is a run of the two-thread model |
| `TimerRuns.PrimeStepsProper` | src/timer.cpp:433-528 | that run meets the condition of NoTaskMissed if and only if the wakeup time computed lies in the range |
| `TimerRuns.ThreadRaisesFlag` | src/timer.cpp:536-555 | one undisturbed round of the timer thread raises the interrupt flag once an active task's time has passed |
| `TimerRuns.LonePrimeIsCovered` | src/timer.cpp:433-528 | after inserting and priming one task nothing is missed if and only if PrimeTime computed a time not below -1 |
| `TimerRuns.LongDelayIsMissed` | src/Haiku/timer_beos.cpp:103-109 | a delay of 2147484 ms at host time 0 wraps to a wakeup of -2147483296, and the task is missed: active, no flag, wakeup_time at its maximum |
| `TimerRuns.IntervalIsSafe` | src/timer.cpp:433-528 | no interleaving that schedules within an interval misses a task if and only if the interval begins at -1 or later and is no wider than 2^63 - 1 |
| `TimerRuns.WakeupIsLost` | src/timer.cpp:536-541 | a wakeup can be lost: a task primed while the thread has read wakeup_time but does not sleep yet is not served, whatever the threads do, until the guest calls again |
| `TimerCalls.CallsKeepTail` | src/timer.cpp:614-638 | whatever a callback inserts, removes or re-primes, sparing the saved descriptor, that descriptor stays in the list and nothing comes to stand behind it |
| `TimerCalls.WalkRuns` | src/timer.cpp:609-638 | the walk over the live list is a run of the interrupt's steps in the two-thread model, and the callbacks recorded are those made |
| `TimerCalls.CallsMade` | src/timer.cpp:626-634 | the Time Manager calls made during a pass are those of its callbacks, in order |
| `TimerCalls.CalledAtMostOnce` | src/timer.cpp:614-638 | one pass calls each task at most once, and none that was not ahead of it |
| `TimerCalls.CalledExactly` | src/timer.cpp:614-638 | a task that no callback touches is called, once and for its own wakeup time, if and only if it is ahead, active and due |
| `TimerCalls.DispatchRuns` | src/emul_op.cpp:327-330 | dispatching the interrupt is a run of the two-thread model |
| `TimerCalls.DispatchCalls` | src/emul_op.cpp:327-330 | dispatching calls an untouched task if and only if it is in the list, active and due |
| `TimerDrift.PrimesDoNotDrift` | src/timer.cpp:449-476 | over any sequence of calls: an extended task, inserted, primed for the first time and then re-primed with non-zero delays, whenever and among whatever calls for other tasks, is due at the first wakeup plus the sum of the delays, in 64-bit arithmetic |
| `TimerDrift.LastDelayCounts` | src/timer.cpp:478-484 | a task that is not extended is due the last delay after the last prime |
| `TimerDrift.LastCallDecides` | src/timer.cpp:337-528 | the last call for a task decides whether it is active: primed it is, inserted or removed it is not |
| `TimerDrift.ContinuedFrom` | src/timer.cpp:358-465 | what PrimeTime(0) makes of a task removed and inserted again: sixteen bits of the time RmvTime saved, counted from the uninitialised wakeup time of the new descriptor |
| `TimerDrift.ContinuedExactly` | src/timer.cpp:358-465 | the delay so continued is the time that was left if and only if that was 0 or 64551000 us |
| `TimerDrift.OverdueSavesNothing` | src/timer.cpp:358-426 | RmvTime leaves no time for a task that is overdue |
| `TimerManager.TimeManager.FindDesc` | src/timer.cpp:110-120 | finds a descriptor exactly if the task has one |
| `TimerManager.TimeManager.FreeDesc` | src/timer.cpp:91-104 | unlinks exactly the task's descriptor and keeps the order of the others |
| `TimerManager.TimeManager.Recompute` | src/timer.cpp:502-507 | the min-recompute loop gives the minimum |
| `TimerManager.TimeManager.InsTime` | src/timer.cpp:337-351 | inserts a new descriptor in front, deactivates the task, sets the extended flag from the trap word |
| `TimerManager.TimeManager.RmvTime` | src/timer.cpp:358-426 | has the effect that RemoveRuns shows to be a run; leaves the remaining time of an active task in tmCount, zero for an inactive one |
| `TimerManager.TimeManager.PrimeTime` | src/timer.cpp:433-528 | has the effect that PrimeRuns shows to be a run, with the wakeup time of the drift-free rule |
| `TimerManager.TimeManager.TimerInterrupt` | src/timer.cpp:609-678 | the loop over the live list terminates, makes exactly the callbacks of the walk and leaves exactly its state, with wakeup_time recomputed |
| `TimerManager.TimeManager.Dispatch` | src/emul_op.cpp:327-330 | clears the flag first, then serves it; without the flag nothing changes |
| `TimerManager.TimeManager.ThreadRound` | src/timer.cpp:536-555 | once its sleep is over, the thread raises the flag exactly past the deadline |
| `TimerHistory.ModestGuestMissesNothing` | src/timer.cpp:337-678 | a guest that asks only for delays the conversion expresses (up to 2147483 ms, or microseconds) misses no task in any history of calls, callbacks, interrupts and thread rounds, as long as 2^31 us for each call fit below the maximum and new descriptors happen to hold no negative time |
| `TimerNested.InterruptedOpResumes` | src/Haiku/main_beos.cpp:1473-1490 | an operation set aside for the timer interrupt can go on again if and only if it was not holding the semaphore: otherwise the interrupt waits for it for ever, however the threads are scheduled and whatever callbacks do |
| `TimerNested.PrimeFiresTwice` | src/timer.cpp:447-493 | with interrupts taken inside operations one PrimeTime can lead to two callbacks: re-priming an active task sets its new wakeup time, the interrupt calls it for that time, and the operation then marks it active again |
| `TimerNested.OncePerPrime` | src/Haiku/main_beos.cpp:1473-1490 | over every run with operations interrupted at given stages, whatever callbacks do, each PrimeTime causes at most one callback if and only if these stages leave out a PrimeTime that does not have the semaphore yet |
| `ScsiTable.MergingIsFaithful` | src/scsi.cpp:115-131 | the merged table names the same bytes in the same order as the transfers one by one if and only if no merged run reaches 2^32 bytes |
| `ScsiTable.SmallTotalNeverOverflows` | src/scsi.cpp:115-131 | a total below 2^32 bytes rules that out |
| `ScsiTable.ExecBuildsTable` | src/scsi.cpp:90-162 | whatever the instruction block does and however it ends, the table holds exactly the transfers made, never exceeds 1024 entries, and the total counts their bytes modulo 2^32 |
| `ScsiTable.AddAllTotal` | src/scsi.cpp:115-131 | the lengths add up modulo 2^32 even when a merged length wraps |
| `ScsiManager.TotalFollows` | src/scsi.cpp:90-162 | the total keeps equal to the sum of the table's lengths, modulo 2^32, across every read or write |
| `ScsiManager.Manager.SCSIReset` | src/scsi.cpp:169-178 | frees the bus from any phase, keeping the invariant though the total stays stale |
| `ScsiManager.Manager.SCSIGet` | src/scsi.cpp:185-197 | only from the free phase; empties the table and the total |
| `ScsiManager.Manager.SCSISelect` | src/scsi.cpp:204-226 | only after arbitration; an absent target frees the bus |
| `ScsiManager.Manager.SCSICmd` | src/scsi.cpp:233-272 | only after selection and for lengths 6, 10 and 12; an unreachable target frees the bus |
| `ScsiManager.Manager.ExecTib` | src/scsi.cpp:90-162 | the interpreter loop over the global table refines the step-by-step execution of the instructions |
| `ScsiManager.Manager.SCSIRead` | src/scsi.cpp:279-288 | runs the block in the transfer phase only, keeping the invariant on error exits too; the table goes on standing for all transfers since the bus was got |
| `ScsiManager.Manager.SCSIWrite` | src/scsi.cpp:295-303 | the same for a write, which leaves the direction of the transfer as it was |
| `ScsiManager.Manager.SCSIComplete` | src/scsi.cpp:310-326 | sends a command only in the transfer phase; every command ever sent followed a Get, a successful Select and a successful Cmd since the last completion, failure or reset, and the status word always belongs to the phase |
| `ScsiProgram.WriteChanges` | src/scsi.cpp:115-144 | a 32-bit write to Mac memory changes its four bytes, high byte first, and no other |
| `ScsiProgram.IncAdvances` | src/scsi.cpp:115-131 | INC transfers and advances its own pointer by the length, even if the table turns out to be full, which ends the program with -108; no other byte of memory changes |
| `ScsiProgram.NoIncTransfers` | src/scsi.cpp:118-131 | NOINC transfers and leaves memory alone |
| `ScsiProgram.AddAdds` | src/scsi.cpp:133-135 | ADD adds its second operand to the word its first points to, and changes nothing else |
| `ScsiProgram.MoveCopies` | src/scsi.cpp:137-139 | MOVE copies one word to the other, and changes nothing else |
| `ScsiProgram.LoopCounts` | src/scsi.cpp:141-145 | LOOP counts down in place and jumps relative to itself, unless the count was 1 |
| `ScsiProgram.OthersEnd` | src/scsi.cpp:147-160 | NOP goes on, STOP ends with 0, COMP and unknown instructions end with their errors; nothing changes |
| `ScsiProgram.BlocksTransferred` | src/scsi.cpp:90-162 | the program INC buf n, LOOP -10 k, STOP ends well with k transfers that name the k * n bytes from buf on in order, for every n and k >= 1 whose buffer fits, if the table has a free entry |
| `ScsiProgram.ProgramFillsTable` | src/scsi.cpp:90-162 | run first, it leaves a single entry, the whole buffer |
| `ScsiBuffer.GatherThroughMerged` | src/Haiku/scsi_beos.cpp:184-194 | collecting data through the merged table is collecting it transfer by transfer |
| `ScsiBuffer.ScatterGatheredRestores` | src/Haiku/scsi_beos.cpp:184-231 | scattering what was gathered restores memory |
| `ScsiBuffer.ScatterThenGather` | src/Haiku/scsi_beos.cpp:184-231 | gathering after scattering gives the data back, for all data, if and only if no address occurs twice in the table |
| `ScsiBuffer.ScatteredAt` | src/Haiku/scsi_beos.cpp:221-231 | with distinct addresses, byte k of the data lands at address k of the table and nothing else changes |
| `ScsiBuffer.DataBuffer.TryBuffer` | src/Haiku/scsi_beos.cpp:117-129 | succeeds if the size, as an unsigned 32-bit number, fits or memory is left; keeps the old buffer whenever it can |
| `ScsiBuffer.DataBuffer.Gather` | src/Haiku/scsi_beos.cpp:184-194 | the loop with the moving pointer never leaves the buffer and collects the table's bytes in order |
| `ScsiBuffer.DataBuffer.Scatter` | src/Haiku/scsi_beos.cpp:221-231 | the loop never reads beyond the buffer and distributes the data entry by entry |
| `ScsiBuffer.DataBuffer.SendCmd` | src/Haiku/scsi_beos.cpp:174-232 | data written are those gathered before the command; data read are distributed only after it completed; a request for sense data is answered from those at hand, once; without memory nothing happens; once the buffer has grown the device no longer works on it |
| `ScsiBuffer.FitsInBuffer` | src/Haiku/scsi_beos.cpp:117-129 | the checked size, a 32-bit total, covers what the loops move if and only if the table's bytes number less than 2^32 |
| `ScsiBuffer.ScatterThroughMerged` | src/Haiku/scsi_beos.cpp:221-231 | distributing data through the merged table is distributing them transfer by transfer |
| `ScsiCommand.TableStandsForTransfers` | src/scsi.cpp:115-131 | for transfers of less than 2^32 bytes in all the merged table lies in memory, has their total, and gathers and scatters as they do |
| `ScsiCommand.Complete` | src/scsi.cpp:310-326 | end to end: in the transfer phase a write sends exactly the bytes of the transfers made since the bus was got, a read puts exactly the device's data where they point, unless the command is answered from sense data or some command has needed more than the first buffer; else nothing is sent and memory stays |
| `Blit.SafeBlitIsCorrect` | src/gfxaccel.cpp:366-393 | if no row's move hits a source row still to come, every destination row holds its source row as it was before the call and nothing else changed |
| `Blit.BlitCorrectness` | src/gfxaccel.cpp:366-393 | with equal strides the overlapping blit is right for every frame buffer content if and only if no row clobbers a later source row |
| `Blit.DirectionIsSafe` | src/gfxaccel.cpp:366-393 | top-down with dst <= src, or bottom-up with dst >= src, never clobbers when the width is at most the stride |
| `Blit.MoveRows` | src/gfxaccel.cpp:376-392 | the pointer-advancing row loop moves the rows one after the other |
| `Blit.NqdBitblt` | src/gfxaccel.cpp:343-394 | the whole operation copies the rectangle as it was before the call, pixel by pixel at the pixels' addresses, when it runs away from the overlap and the width fits 16 bits |
| `Paint.PaintRow` | src/gfxaccel.cpp:78-143 | alignment prologue, eightfold unrolled loop and tails paint every byte of [dest, dest+length) exactly once and nothing else, for every length and alignment, inverting or filling |
| `Paint.PaintWords` | src/gfxaccel.cpp:100-119 | the loop entered in its middle paints exactly the 8-byte cells of the row |
| `Paint.PaintRest` | src/gfxaccel.cpp:100-137 | unrolled loop and tails paint what the prologue left |
| `Paint.PhaseShift` | src/gfxaccel.cpp:198-264 | the fill pattern looks the same from every pixel boundary, 16-bit colours having equal halves |
| `Paint.CellIsPattern` | src/gfxaccel.cpp:201-204 | a 1-, 2-, 4- or 8-byte store of the colour writes the pixel pattern, on either byte order |
| `Paint.PrefixFits` | src/gfxaccel.cpp:86-98 | the prologue's bytes are no more than the row has, exactly if the row is not one of the few short ones |
| `Paint.ShortRowWraps` | src/gfxaccel.cpp:86-98 | for exactly those rows the unsigned length wraps to just below 2^32 |
| `Paint.PaintRect` | src/gfxaccel.cpp:146-191 | the rectangle operations paint their rows in order; 8-bit fills take the colour's low byte |
| `Paint.SetBytes` | src/gfxaccel.cpp:291-295 | fills 8-bit rows byte by byte |
| `Paint.PaintedInside` | src/gfxaccel.cpp:172-190 | every byte of the rectangle becomes what the brush makes of the original byte, once |
| `Paint.PaintedOutside` | src/gfxaccel.cpp:172-190 | a byte under no row keeps its value |
| `Paint.PixelPainted` | src/gfxaccel.cpp:172-264 | every pixel of the rectangle, at its own address, gets the bytes of the colour, for 8-bit pixels its low byte, or its complement |
| `Paint.InvertedAt` | src/gfxaccel.cpp:172-190 | inverting flips a byte once for every row that covers it |
| `Paint.InvertTwice` | src/gfxaccel.cpp:146-191 | inverting twice is the identity, even for overlapping rows |
| `Paint.WidthIsWhole` | src/gfxaccel.cpp:170-170 | the 16-bit byte width stays a whole number of pixels and is exact if and only if it is at most 32767 |
| `EtherFrame.WireForm` | src/ether.cpp:842-970 | fast path or not, and whatever the header memory held, the same frame goes out |
| `EtherFrame.RoundTrip` | src/ether.cpp:763-778 | a packet built and transmitted is classified on reception as what it was sent as if and only if the stated length and SAP conditions hold, and then loses exactly the header that was added |
| `EtherFrame.AddressesArrive` | src/ether.cpp:923-965 | destination and source address stand in the frame unchanged |
| `EtherFrame.WireBytes` | src/ether.cpp:842-970 | byte by byte: an 802.2 packet carries the low byte of the SAP addressed, its own SAP, 3, and for SNAP streams the SNAP of a 13-byte destination address or else the stream's own; the type or length field; the payload behind |
| `EtherMessage.ReuseMessageBlock` | src/ether.cpp:801-833 | in all three cases the result is a header of the needed size followed by exactly the original data; every original block is in the result or freed once; it fails only without memory, and then frees all |
| `EtherMessage.FreeMsg` | src/ether.cpp:810-823 | frees every block of a chain exactly once, in order |
| `EtherMessage.MsgDSize` | src/ether.cpp:874-874 | counts the bytes of the data blocks |
| `EtherMessage.DataSizeIs` | src/ether.cpp:874-874 | this is the number of payload bytes, with a request in front and with a header in front |
| `EtherMessage.PutBytes` | src/ether.cpp:918-942 | writing header bytes in place changes those bytes of the message and no other, because no later block shares the head's data |
| `EtherTransmit.HeaderWrites` | src/ether.cpp:918-945 | the field-by-field writes amount to the built header |
| `EtherTransmit.BuildTxPacketHeader` | src/ether.cpp:842-949 | the request becomes the built header, whose bytes WireBytes gives, followed by exactly the payload, or every block is freed |
| `EtherTransmit.TransmitPacket` | src/ether.cpp:956-970 | completes length and source address, sends the frame once, frees the chain |
| `EtherTransmit.UnitData` | src/ether.cpp:1664-1700 | on an idle stream exactly the packet of the wire form is sent, or nothing without memory; every block is freed exactly once |
| `EtherBits.MasksDisjoint` | src/ether.cpp:63-82 | within a word two different group SAPs have different bits |
| `EtherDriver.SetAdds` | src/ether.cpp:63-71 | setting or clearing a bit adds or removes exactly that group SAP |
| `EtherDriver.NoBits` | src/ether.cpp:73-77 | the cleared map is the empty set |
| `EtherDriver.Stream.SetGroupSAP` | src/ether.cpp:63-66 | adds the group SAP to the set |
| `EtherDriver.Stream.ClearGroupSAP` | src/ether.cpp:68-71 | removes it |
| `EtherDriver.Stream.TestGroupSAP` | src/ether.cpp:79-82 | is membership in the set |
| `EtherDriver.Stream.ClearAllGroupSAPs` | src/ether.cpp:73-77 | empties the set |
| `EtherMulticast.MulticastList.Find` | src/ether.cpp:113-122 | following the next pointers finds the first node with the address, exactly if it is in the list |
| `EtherMulticast.MulticastList.Add` | src/ether.cpp:84-90 | a new node in front of the linked list, which stays well linked, with the old nodes behind it |
| `EtherMulticast.MulticastList.Remove` | src/ether.cpp:92-111 | the pointer surgery, beginning at the head pointer taken for a node, unlinks the first node with the address and no other and leaves the list well linked |
| `EtherDriver.Stream.Bind` | src/ether.cpp:1339-1411 | refines the bind step, errors in the code's order |
| `EtherDriver.Stream.Unbind` | src/ether.cpp:1418-1442 | refines the unbind step |
| `EtherDriver.Stream.SubsBind` | src/ether.cpp:1449-1527 | refines the subsequent bind, which changes the stream even if the reply cannot be allocated |
| `EtherDriver.Stream.SubsUnbind` | src/ether.cpp:1534-1578 | refines the subsequent unbind, which drops the SNAP for every accepted request |
| `EtherDriver.Stream.EnableMulti` | src/ether.cpp:1585-1617 | refines adding a multicast address |
| `EtherDriver.Stream.DisableMulti` | src/ether.cpp:1624-1657 | refines removing one |
| `EtherDriver.Stream.UseFastPath` | src/ether.cpp:677-702 | DL_IOC_HDR_INFO switches the fast path on exactly if the header could be allocated |
| `EtherDriver.Stream.Close` | src/ether.cpp:516-521 | disables every registered address, in list order |
| `EtherStream.StepKeepsInv` | src/ether.cpp:1339-1657 | every request keeps the stream invariant: unbound means dlsap 0; a bound SNAP only on SAP 0xAA; the 0xFF bit exactly for 802.2 SAPs and no group bits otherwise; multicasts accepted exactly if the list is non-empty; no duplicates |
| `EtherStream.ReachableInv` | src/ether.cpp:485-490 | so does every run from a newly opened stream |
| `EtherStream.BindInvExactly` | src/ether.cpp:1359-1402 | a successful bind keeps it if and only if the 16 bits kept of the 32-bit SAP tell 802.2 from the rest as the 32 bits did |
| `EtherStream.AcceptAllIsForGood` | src/ether.cpp:1466-1474 | a stream receives all 802.2 packets if and only if it ever asked to: unbinding and rebinding do not undo it |
| `EtherStream.BindAccepts` | src/ether.cpp:1339-1372 | a bind succeeds if and only if the stream is unbound, the service connectionless, memory left, and the SAP even and 802.2, IPX or an Ethernet type |
| `EtherHistory.BindingsAreLive` | src/ether.cpp:1339-1657 | after every run a stream is bound to a SAP, a group SAP, a SNAP or a multicast address if and only if some request bound it to that and no later one undid it, or it was at first and none has |
| `EtherHistory.GroupsAreLive` | src/ether.cpp:1395-1574 | for group SAPs: every bind undoes them all; those in the memory allocated count until the first |
| `EtherHistory.SapIsLive` | src/ether.cpp:1339-1442 | for its own SAP: the 16 bits kept of the one bind not undone |
| `EtherHistory.SnapIsLive` | src/ether.cpp:1449-1578 | for the SNAP: the hierarchical bind's five bytes; any bind and any accepted subsequent unbind undoes it |
| `EtherHistory.MembersAreLive` | src/ether.cpp:1585-1657 | for multicast addresses: enabled and not disabled since |
| `EtherHistory.FastPathIsForGood` | src/ether.cpp:677-702 | a stream is on the fast path if and only if it ever asked for the header and got it |
| `EtherHistory.RepliesAreTrue` | src/ether.cpp:1339-1657 | what is acknowledged has been granted, what is refused has changed nothing, but for a subsequent bind without memory for the reply; OUT_STATE is the answer exactly in the wrong state |
| `EtherReceive.SnapsDiffer` | src/ether.cpp:1096-1101 | the collected differences are zero exactly for equal SNAPs |
| `EtherReceive.DupMsg` | src/ether.cpp:1125-1125 | a duplicate is a second view of the same data |
| `EtherReceive.Decide` | src/ether.cpp:1082-1119 | the code's decision for a stream is the bound/SAP/SNAP/group/multicast predicate |
| `EtherReceive.Handle` | src/ether.cpp:977-1054 | hands the data without the header, bare or behind the indication that TakersAreTold describes; without memory frees the block |
| `EtherReceive.TakersAre` | src/ether.cpp:1078-1129 | the takers are exactly the streams that want the frame, in order and once each |
| `EtherReceive.PacketReceived` | src/ether.cpp:1061-1138 | the streams handed a packet are exactly the takers in list order; the last gets the original, the others duplicates; without taker it is freed once |
| `EtherDelivery.PeerGetsPacket` | src/ether.cpp:842-1138 | end to end: a packet sent to a SAP and SNAP, the sender's own or those of an 8- or 13-byte address, reaches a stream bound to that SAP if and only if the stream's SNAP, if it has one, is the one addressed or it takes all 802.2 packets, multicast list permitting; as its own kind and without its header |
| `EtherDelivery.OthersGetPacket` | src/ether.cpp:1061-1119 | a stream bound to another SAP gets it if and only if it takes all 802.2 packets or has the group SAP addressed, multicast list permitting |
| `EtherDelivery.TakersAreTold` | src/ether.cpp:977-1138 | each stream handed a sent packet is told where it was sent and where it came from, in this order, each with its SAP and the SNAP, and what kind of address that was; bare data if and only if it is on the fast path and the address is of one station |
| `EtherDelivery.KindsOfAddress` | src/ether.cpp:785-795 | an address is of one station, of a group or of all exactly as its bits say |
| `ExtFsTree.StartInv` | src/extfs.cpp:412-435 | the initial catalogue satisfies the invariant |
| `ExtFsTree.LookedKeepsInv` | src/extfs.cpp:229-278 | a lookup by host or guest name, creating a node or not, keeps the invariant: ids unique and below the counter, parent ids naming the parents, (parent, name) unique |
| `ExtFsTree.LookedPaths` | src/extfs.cpp:250-278 | it moves no node, leads to the parent's path plus the name, and a second lookup finds the same node |
| `ExtFsTree.PlainNamesSurvive` | src/extfs.cpp:229-244 | a host that takes every name as it is meets the assumption on file name encodings |
| `ExtFsTree.WalkArrives` | src/extfs.cpp:923-972 | a parsed pathname leads to the node whose guest path is the start's path followed by it, for every sequence of names and parent steps |
| `ExtFsTree.WalkFails` | src/extfs.cpp:923-953 | a walk fails if and only if some step goes up from the root or the root's parent |
| `ExtFsTree.WalkSucceeds` | src/extfs.cpp:923-953 | a pathname that goes up only where at least two names are left leads somewhere |
| `ExtFsTree.SwapKeepsInv` | src/extfs.cpp:309-319 | swapping the ids of two non-root items, parent ids included, keeps the invariant |
| `ExtFsTree.SwapKeepsPaths` | src/extfs.cpp:291-302 | the path recursion ends and is unaffected although ids are permuted |
| `ExtFsTree.SwapTradesPaths` | src/extfs.cpp:2036-2041 | the two ids trade paths, every other id keeps its own |
| `ExtFsTree.SwapRenames` | src/extfs.cpp:2036-2041 | after a rename or move the old id leads to the new path |
| `ExtFsTree.ChildrenStayBehind` | src/extfs.cpp:2036-2041 | a child of a renamed directory keeps its old path and gets the other id as parent id: children never follow a real rename |
| `ExtFsTree.PathsDiffer` | src/extfs.cpp:291-302 | different items have different paths, host names holding no slash |
| `ExtFsTree.PathNames` | src/extfs.cpp:291-302 | a path names, from its end, the item, then the directories above it, down to the shared directory's slash |
| `ExtFs.Catalogue.FindById` | src/extfs.cpp:214-223 | finds the first item with the id |
| `ExtFs.Catalogue.Find` | src/extfs.cpp:250-278 | finds the item or appends a new one with the next id |
| `ExtFs.Catalogue.Create` | src/extfs.cpp:229-244 | appends one item with the next id, the parent's id and a guest name of at most 31 bytes |
| `ExtFs.Catalogue.SwapParentIds` | src/extfs.cpp:309-319 | exchanges the two ids wherever an item names its parent |
| `ExtFs.Catalogue.GetPath` | src/extfs.cpp:291-302 | climbs to the root and gives the item's path |
| `ExtFs.Catalogue.GetItemAndPath` | src/extfs.cpp:884-994 | dirNFErr for an unknown directory, bdNamErr for a walk above the root, else the item the walk leads to and its path |
| `ExtFs.Catalogue.Rename` | src/extfs.cpp:2005-2043 | on success the host was given the two items' paths, the ids are swapped, the old id leads to the new path and every other id but one where it led before |
| `ExtFs.Catalogue.CatMove` | src/extfs.cpp:2046-2090 | the same for a move to another directory under the same name |
| `Serial.StepKeepsInv` | src/Haiku/serial_beos.cpp:207-260 | every step of Prime, an I/O thread, KillIO or the interrupt keeps the handshake invariant |
| `Serial.CompletionSafety` | src/serial.cpp:288-315 | in every interleaving done implies pending, each request is completed or aborted at most once, and a completed one is not lost: the flag is set, about to be set, or the port is still to be scanned |
| `Serial.KillLeavesNothing` | src/Haiku/serial_beos.cpp:244-260 | when KillIO has finished waiting, every request of its port has been completed or aborted |
| `Serial.DoneIsServed` | src/emul_op.cpp:319-322 | a request done before the scan reaches its channel is completed by that scan, whatever the other threads do |
| `Serial.KillNeedsInterrupt` | src/Haiku/serial_beos.cpp:251-252 | a KillIO that finds a request done, or past the look at the kill flag, cannot return before the serial interrupt has run |
| `Serial.KillReturnsUninterrupted` | src/Haiku/serial_beos.cpp:245-259 | as long as the interrupt does not run, a waiting KillIO can return if and only if neither request of its port is done or past the look at the kill flag |
| `Serial.KillReturns` | src/Haiku/serial_beos.cpp:245-259 | with the interrupt it always can: from every reachable state in which KillIO waits, wherever the threads and the interrupt are, some run brings it to its end |
| `PrefsText.AtolOfDecimal` | src/prefs.cpp:405-454 | what %d prints, atol reads back |
| `PrefsText.LoadedPrinted` | src/prefs.cpp:385-390 | reading the printed text is applying its lines one after the other, given the fgets limit |
| `PrefsText.LineParses` | src/prefs.cpp:392-412 | a printed line is taken apart into its keyword and value |
| `PrefsText.LineAnswers` | src/prefs.cpp:392-432 | a line of keyword and value decides the answer about that keyword, a boolean being true for "true" only, and about no other |
| `PrefsText.CommentsSkipped` | src/prefs.cpp:392-394 | lines beginning with a hash sign or semicolon change nothing |
| `PrefsText.SaveThenLoad` | src/prefs.cpp:382-467 | loading what was saved into an empty list answers every question about every described keyword and index as before |
| `PrefsText.LoadedFromFile` | src/prefs.cpp:382-432 | whatever a file holds, loading it leaves only items that saving could have written |
| `PrefsText.RoundTripExactly` | src/prefs.cpp:382-467 | saving and loading is observationally the identity if and only if every string is readable on a line and single-valued keywords hold at most one |
| `Prefs.Preferences.FindNode` | src/prefs.cpp:273-287 | finds the index-th item of a keyword and type |
| `Prefs.Preferences.Replace` | src/prefs.cpp:299-315 | changes the first item of that keyword and type, or appends one |
| `Prefs.Preferences.ReplaceString` | src/prefs.cpp:289-297 | changes the index-th string of the keyword, or appends one |
| `Prefs.ReplacedAtValues` | src/prefs.cpp:289-297 | replacing the index-th value changes that value and nothing else; beyond the last it appends, whatever the index |
| `Prefs.Preferences.RemoveItem` | src/prefs.cpp:354-379 | removes the index-th item of the keyword, of any type, or drops the whole list |
| `Prefs.RemovalKeepsOthers` | src/prefs.cpp:354-379 | the item removed is the keyword's, with exactly index such items before it, if there are so many; removing it keeps all others if and only if it is not the first of several |
| `Prefs.NthNamedIs` | src/prefs.cpp:273-287 | the index-th item of any type is one of the keyword with index of them before it; there is none if and only if the keyword has no more than index |
| `Prefs.Preferences.PrefsFindString` | src/prefs.cpp:322-329 | answers with the index-th string of the keyword |
| `Prefs.NthIsValue` | src/prefs.cpp:273-287 | that item holds the index-th of the keyword's values |
| `Prefs.Preferences.LoadPrefsFromStream` | src/prefs.cpp:382-432 | the line loop loads the text |
| `Prefs.Preferences.WritePrefs` | src/prefs.cpp:439-461 | the nested loops print the saved text |
| `Prefs.CompactArgs` | src/prefs.cpp:111-123 | removing processed arguments in place keeps the others in order |
| `MacDate.LeapDaysCount` | src/macos_util.cpp:328-336 | the closed form counts the Gregorian leap years in [1904, year) |
| `MacDate.CountsSeconds` | src/macos_util.cpp:322-339 | the value is the number of seconds since 1904 modulo 2^32 |
| `MacDate.SecondsIncrease` | src/macos_util.cpp:337-338 | later times have more seconds |
| `MacDate.ExactUntilLimit` | src/macos_util.cpp:322-339 | the value is exact if and only if the time is before 6 February 2040, 6:28:16 |
| `MacDate.IncreasesUntilLimit` | src/macos_util.cpp:322-339 | and strictly increasing up to then |

## Left out

- TimerManager.TimeManager.FreeDesc: the descriptors are a sequence, named by their tasks; the nodes' addresses and `next` fields are not modelled.
- TimerManager.TimeManager.PrimeTime: does not model the Time Manager queue, which `TM_QUEUE` switches off.
- TimerManager.TimeManager.TimerInterrupt: a task without an address counts as called, since nothing distinguishes it afterwards.
- TimerProtocol.MinWakeupIsEarliest: for wakeup times that the comparison does not order, only single tasks and one pair are decided.
- TimerProtocol.NoTaskMissed: a callback that removes the task the interrupt goes on to is excluded, because the code then follows a freed descriptor.
- TimerHistory.ModestGuestMissesNothing: operations follow one another; interleavings inside them are the protocol's, by NoTaskMissed.
- ScsiTable.ExecBuildsTable: runs an instruction block for any number of instructions given beforehand, because blocks may modify themselves and loop for ever.
- ScsiBuffer.DataBuffer.SendCmd: what the device does with the first buffer after it has been freed is not modelled; nothing is said of the data then.
- ScsiCommand.Complete: the phase machine's Mac memory, which holds the instruction blocks and the status words, and the host memory that the data move through are modelled as separate memories.
- TimerNested.InterruptedOpResumes: one operation is set aside at a time; interrupts inside the interrupt's own callbacks are kept off by its level.
- EtherFrame.RoundTrip: bytes beyond the end of a short frame read as zero, where the code reads whatever memory follows.
- EtherTransmit.UnitData: the error indication sent for a stream that is not idle is only reported, not built.
- EtherDriver.Stream.EnableMulti: the address copy on the system heap that leaks is not modelled, and neither are the add-on's multicast calls.
- EtherDriver.Stream.DisableMulti: frees are not modelled; the code frees an address inside the node that it has just freed (src/ether.cpp:1643-1644).
- EtherReceive.Handle: the fields of the indication header other than the addresses and their type, and the statistics counters.
- ExtFsTree.LookedKeepsInv: the id counter is unbounded; the code's wraps after 2^32 items.
- ExtFsTree.SwapKeepsInv: not for the root and its parent, whose ids mark the top of every path.
- ExtFsTree.WalkArrives: parsing the pathname into components is Mac code; a parent step above the root's parent ends the walk, where the code follows a null pointer.
- ExtFs.Catalogue.FindById: the items are a sequence; their links are not modelled.
- ExtFs.Catalogue.GetItemAndPath: starts from the pathname's components; parsing the pathname and its errors are Mac code.
- ExtFs.Catalogue.GetPath: a path is its list of components, without the length limit of the path buffer.
- Serial.StepKeepsInv: both ports stay open; the data transferred and its result codes are not part of the handshake.
- Paint.PaintRow: requires the row to hold its alignment prefix; for the short rows that PrefixFits names, the length wraps (ShortRowWraps) and the code paints on out of bounds.
- Paint.PaintRect: the same, for each of its rows.
- Prefs.Preferences.FindNode: the items are a sequence; the nodes' links are not modelled.
- Prefs.Preferences.LoadPrefsFromStream: a line without whitespace is skipped, where the code would run on past its end.
- PrefsText.LoadedFromFile: the same.
- PrefsText.RoundTripExactly: the same.
- DLPI information and physical address requests, ioctl requests but the header information, stream queues and flushing.
- Command line values and usage text; copying names between Pascal and C strings.
- Drive numbers and Mac queue linking.
- The POSIX and Mach variants of the timer thread.
- ROM and resource patching, mode switching, audio, video, disk, CD-ROM and ADB drivers, user interface.
