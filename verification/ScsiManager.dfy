/** The SCSI Manager's logical phases and the command sequence they enforce. */
module ScsiManager {
  import opened Bytes
  import opened ScsiTable

  datatype Phase = Free | Arbitrated | Selected | Transfer

  /** The faked status word that goes with each phase. */
  function StatusOf(phase: Phase): int {
    match phase
    case Free => 0x0000
    case Arbitrated => 0x0040
    case Selected => 0x006a
    case Transfer => 0x006e
  }

  /** What has happened on the bus so far. */
  datatype Event =
    | Got
    | Chosen(id: int)
    | Commanded(cmd: seq<Byte>)
    | Sent(length: Word, reading: bool, table: seq<Entry>, cmd: seq<Byte>)
    | WasReset
    | Failed

  /** A sequence of commands ends with its completion, a failure or a bus reset. */
  predicate Ends(e: Event) {
    e.Sent? || e.WasReset? || e.Failed?
  }

  /** The command sent at `k` was arbitrated, selected and commanded for, in this order, since the
      last completion, failure or reset; it is the command last set, and its length is its table's. */
  ghost predicate SentProperly(log: seq<Event>, k: nat)
    requires k < |log| && log[k].Sent?
  {
    exists g: nat, s: nat, c: nat :: g < s < c < k
      && log[g].Got? && log[s].Chosen? && log[c] == Commanded(log[k].cmd)
      && (forall m | g <= m < k :: !Ends(log[m]))
      && log[k].length == Wrap32(SumLen(log[k].table)) && |log[k].table| <= TABLE_SIZE
  }

  lemma SentStays(log: seq<Event>, e: Event, k: nat)
    requires k < |log| && log[k].Sent? && SentProperly(log, k)
    ensures SentProperly(log + [e], k)
  {
    hide Wrap32, SumLen;
    var g: nat, s: nat, c: nat :| g < s < c < k
      && log[g].Got? && log[s].Chosen? && log[c] == Commanded(log[k].cmd)
      && (forall m | g <= m < k :: !Ends(log[m]));
    hide Ends;
    var after := log + [e];
    assert forall m | g <= m <= k :: after[m] == log[m];
    assert after[g].Got? && after[s].Chosen? && after[c] == Commanded(after[k].cmd);
  }

  lemma SentNow(log: seq<Event>, e: Event, g: nat, s: nat, c: nat)
    requires e.Sent? && g < s < c < |log| && log[g].Got? && log[s].Chosen? && log[c] == Commanded(e.cmd)
    requires forall m | g <= m < |log| :: !Ends(log[m])
    requires e.length == Wrap32(SumLen(e.table)) && |e.table| <= TABLE_SIZE
    ensures SentProperly(log + [e], |log|)
  {
    var after := log + [e];
    assert forall m | g <= m < |log| :: after[m] == log[m];
    assert after[g].Got? && after[s].Chosen? && after[c] == Commanded(after[|log|].cmd);
  }

  /** Every command sent so far was sent properly. */
  ghost predicate AllProper(log: seq<Event>) {
    forall k: nat | k < |log| && log[k].Sent? :: SentProperly(log, k)
  }

  class Manager {
    var phase: Phase
    var fakeStatus: int
    var targetId: int
    var reading: bool
    var sgIndex: nat
    var sgPtr: array<int>
    var sgLen: array<Word>
    var sgTotalLength: Word
    var mem: Memory
    ghost var table: seq<Entry>           // the entries in use
    ghost var log: seq<Event>
    ghost var got: nat                    // where the current sequence of calls is in the log
    ghost var chosen: nat
    ghost var commanded: nat
    var cmd: seq<Byte>                    // what the device request holds
    ghost var transfers: seq<Entry>       // the transfers made since the bus was got, one by one

    ghost predicate TableOk()
      reads `sgPtr, `sgLen, `sgIndex, `table, sgPtr, sgLen
    {
      && sgPtr.Length == TABLE_SIZE && sgLen.Length == TABLE_SIZE
      && |table| == sgIndex <= TABLE_SIZE
      && forall i | 0 <= i < sgIndex :: table[i] == Entry(sgPtr[i], sgLen[i])
    }

    ghost predicate Running()
      reads `phase, `log, `got, `chosen, `commanded, `cmd
    {
      phase != Free ==>
        && got < |log| && log[got].Got? && (forall m | got <= m < |log| :: !Ends(log[m]))
        && (phase != Arbitrated ==> got < chosen < |log| && log[chosen].Chosen?)
        && (phase == Transfer ==> chosen < commanded < |log| && log[commanded] == Commanded(cmd))
    }

    ghost predicate Counted()
      reads `phase, `sgTotalLength, `table, `transfers
    {
      phase != Free ==> sgTotalLength == Wrap32(SumLen(table)) && table == AddAll([], transfers)
    }

    /** Outside phase FREE the table holds the transfers made since the bus was got, and its lengths
        add up to the total; in phase FREE a reset may have left the total stale. */
    ghost predicate Valid()
      reads `sgPtr, `sgLen, `sgIndex, `table, sgPtr, sgLen
      reads `phase, `fakeStatus, `sgTotalLength, `transfers, `log, `got, `chosen, `commanded, `cmd
    {
      TableOk() && Running() && Counted() && fakeStatus == StatusOf(phase) && AllProper(log)
    }

    ghost function Now(): Machine
      reads `mem, `table, `sgTotalLength
    {
      Machine(mem, table, sgTotalLength)
    }

    constructor ()
      ensures Valid() && phase == Free && log == [] && fresh(sgPtr) && fresh(sgLen)
    {
      phase, fakeStatus, targetId, reading := Free, 0, 8, false;
      sgIndex, sgTotalLength, mem := 0, 0, map[];
      sgPtr := new int[1024];
      sgLen := new Word[1024];
      table, log, got, chosen, commanded, cmd, transfers := [], [], 0, 0, 0, [], [];
    }

    ghost method Note(e: Event)
      requires AllProper(log) && Running()
      requires e.Sent? ==> phase == Transfer && e.cmd == cmd
      requires e.Sent? ==> e.length == Wrap32(SumLen(e.table)) && |e.table| <= TABLE_SIZE
      modifies `log
      ensures log == old(log) + [e] && AllProper(log)
      ensures !Ends(e) ==> Running()
    {
      hide Wrap32, SumLen;
      ghost var before := log;
      log := log + [e];
      forall k: nat | k < |log| && log[k].Sent?
        ensures SentProperly(log, k)
      {
        if k < |before| {
          SentStays(before, e, k);
        } else {
          SentNow(before, e, got, chosen, commanded);
        }
        hide SentProperly;
      }
      hide SentProperly;
    }

    method SCSIReset() returns (res: int)
      requires Valid()
      modifies this
      ensures Valid() && phase == Free && res == 0 && targetId == 8
      ensures log == old(log) + [WasReset] && mem == old(mem) && table == []
      ensures sgPtr == old(sgPtr) && sgLen == old(sgLen)
    {
      hide AllProper, SumLen, Wrap32, AddAll;
      Note(WasReset);
      phase, fakeStatus, sgIndex, targetId := Free, 0x0000, 0, 8;
      table := [];
      return 0;
    }

    method SCSIGet() returns (res: int)
      requires Valid()
      modifies this
      ensures Valid() && sgPtr == old(sgPtr) && sgLen == old(sgLen) && mem == old(mem)
      ensures old(phase) != Free ==> res == SC_MGR_BUSY_ERR && unchanged(this)
      ensures old(phase) == Free ==>
                && res == 0 && phase == Arbitrated && table == [] && transfers == [] && sgTotalLength == 0 && !reading
                && log == old(log) + [Got]
    {
      hide AllProper, Counted, StatusOf, SumLen, Wrap32;
      if phase != Free {
        return SC_MGR_BUSY_ERR;
      }
      got := |log|;
      Note(Got);
      Flush();
      return 0;
    }

    /** Arbitration won: the table is emptied. */
    method Flush()
      requires TableOk() && AllProper(log) && got + 1 == |log| && log[got].Got?
      modifies `phase, `fakeStatus, `reading, `sgIndex, `sgTotalLength, `table, `transfers
      ensures Valid() && phase == Arbitrated && table == [] && transfers == [] && sgTotalLength == 0 && !reading
    {
      hide AllProper;
      phase, fakeStatus, reading, sgIndex, sgTotalLength := Arbitrated, 0x0040, false, 0, 0;
      table, transfers := [], [];
    }

    /** `present` is the host's answer for the target. */
    method SCSISelect(id: int, present: bool) returns (res: int)
      requires Valid()
      modifies this
      ensures Valid() && sgPtr == old(sgPtr) && sgLen == old(sgLen) && mem == old(mem)
      ensures table == old(table) && transfers == old(transfers)
      ensures old(phase) != Arbitrated ==> res == SC_SEQUENCE_ERR && unchanged(this)
      ensures old(phase) == Arbitrated && 0 <= id <= 7 && present ==>
                res == 0 && phase == Selected && targetId == id && log == old(log) + [Chosen(id)]
      ensures old(phase) == Arbitrated && !(0 <= id <= 7 && present) ==>
                res == SC_COMM_ERR && phase == Free && log == old(log) + [Failed]
    {
      hide AllProper, SumLen, Wrap32, AddAll, TableOk;
      if phase != Arbitrated {
        return SC_SEQUENCE_ERR;
      }
      if 0 <= id <= 7 {
        targetId := id;
        if present {
          chosen := |log|;
          Note(Chosen(id));
          phase, fakeStatus := Selected, 0x006a;
          return 0;
        }
      }
      Note(Failed);
      phase, fakeStatus := Free, 0x0000;
      return SC_COMM_ERR;
    }

    /** `reachable` is the host's answer for the target and the logical unit in the command. */
    method SCSICmd(bytes: seq<Byte>, reachable: bool) returns (res: int)
      requires Valid()
      modifies this
      ensures Valid() && sgPtr == old(sgPtr) && sgLen == old(sgLen) && mem == old(mem)
      ensures table == old(table) && transfers == old(transfers)
      ensures old(phase) != Selected ==> res == SC_PHASE_ERR && unchanged(this)
      ensures old(phase) == Selected && |bytes| !in {6, 10, 12} ==> res == SC_BAD_PARMS_ERR && unchanged(this)
      ensures old(phase) == Selected && |bytes| in {6, 10, 12} && reachable ==>
                res == 0 && phase == Transfer && cmd == bytes && log == old(log) + [Commanded(bytes)]
      ensures old(phase) == Selected && |bytes| in {6, 10, 12} && !reachable ==>
                res == SC_COMM_ERR && phase == Free && log == old(log) + [Failed]
    {
      hide AllProper, SumLen, Wrap32, AddAll, TableOk;
      if phase != Selected {
        return SC_PHASE_ERR;
      }
      if |bytes| != 6 && |bytes| != 10 && |bytes| != 12 {
        return SC_BAD_PARMS_ERR;
      }
      if !reachable {
        Note(Failed);
        phase, fakeStatus := Free, 0x0000;
        return SC_COMM_ERR;
      }
      commanded, cmd := |log|, bytes;
      Note(Commanded(bytes));
      phase, fakeStatus := Transfer, 0x006e;
      return 0;
    }

    /** Enters one transfer into the table. */
    method AddTransfer(ptr: int, len: Word) returns (ok: bool)
      requires TableOk()
      modifies `sgIndex, `table, `sgTotalLength, sgPtr, sgLen
      ensures TableOk() && ok == HasRoom(old(table), ptr)
      ensures table == if ok then Add(old(table), Entry(ptr, len)) else old(table)
      ensures sgTotalLength == if ok then Wrap32(old(sgTotalLength) + len) else old(sgTotalLength)
    {
      hide Wrap32;
      if sgIndex > 0 && ptr == sgPtr[sgIndex - 1] + sgLen[sgIndex - 1] {
        sgLen[sgIndex - 1] := Wrap32(sgLen[sgIndex - 1] + len);
      } else {
        if sgIndex == 1024 {
          return false;
        }
        sgPtr[sgIndex] := ptr;
        sgLen[sgIndex] := len;
        sgIndex := sgIndex + 1;
      }
      table := Add(table, Entry(ptr, len));
      sgTotalLength := Wrap32(sgTotalLength + len);
      return true;
    }

    /** Runs up to `fuel` instructions of the block at `start`. */
    method ExecTib(start: Word, fuel: nat) returns (code: Option<int>)
      requires TableOk()
      modifies `mem, `sgIndex, `table, `sgTotalLength, sgPtr, sgLen
      ensures TableOk()
      ensures (Now(), code) == (Exec(old(Now()), start, fuel).0, Exec(old(Now()), start, fuel).1)
    {
      hide ReadMac16, ReadMac32, WriteMac32, Wrap32, Add;
      var tib: int, left := start, fuel;
      ghost var goal := Exec(Now(), start, fuel);
      while left > 0
        invariant TableOk() && 0 <= tib < 0x1_0000_0000
        invariant (goal.0, goal.1) == (Exec(Now(), tib, left).0, Exec(Now(), tib, left).1)
      {
        ghost var m := Now();
        var here := tib;
        var op, ptr, len := ReadMac16(mem, tib), ReadMac32(mem, tib + 2), ReadMac32(mem, tib + 6);
        left := left - 1;
        tib := Wrap32(tib + 10);
        match op {
          case 1 =>
            mem := WriteMac32(mem, here + 2, Wrap32(ptr + len));
            var ok := AddTransfer(ptr, len);
            if !ok {
              return Some(MEM_FULL_ERR);
            }
          case 2 =>
            var ok := AddTransfer(ptr, len);
            if !ok {
              return Some(MEM_FULL_ERR);
            }
          case 3 => mem := WriteMac32(mem, ptr, Wrap32(ReadMac32(mem, ptr) + len));
          case 4 => mem := WriteMac32(mem, len, ReadMac32(mem, ptr));
          case 5 =>
            mem := WriteMac32(mem, here + 6, Wrap32(len - 1));
            if Wrap32(len - 1) > 0 {
              tib := Wrap32(here + ptr);
            }
          case 6 =>
          case 7 => return Some(0);
          case 8 => return Some(SC_COMPARE_ERR);
          case _ => return Some(SC_BAD_PARMS_ERR);
        }
        assert (Now(), Next(tib)) == ExecOp(m, here);
      }
      return None;
    }

    method RunBlock(tib: Word, fuel: nat) returns (res: Option<int>)
      requires TableOk() && Counted() && phase == Transfer
      modifies `mem, `sgIndex, `table, `sgTotalLength, `transfers, sgPtr, sgLen
      ensures TableOk() && Counted()
      ensures (Now(), res) == (Exec(old(Now()), tib, fuel).0, Exec(old(Now()), tib, fuel).1)
      ensures transfers == old(transfers) + Exec(old(Now()), tib, fuel).2
    {
      TotalFollows(Now(), tib, fuel);
      TableFollows(Now(), tib, fuel, transfers);
      hide AddAll, Exec, Wrap32, SumLen, TableOk;
      transfers := transfers + Exec(Now(), tib, fuel).2;
      res := ExecTib(tib, fuel);
    }

    /** Runs the block and keeps account of its transfers. */
    method RunTib(tib: Word, fuel: nat) returns (res: Option<int>)
      requires Valid() && phase == Transfer
      modifies `mem, `sgIndex, `table, `sgTotalLength, `transfers, sgPtr, sgLen
      ensures Valid()
      ensures (Now(), res) == (Exec(old(Now()), tib, fuel).0, Exec(old(Now()), tib, fuel).1)
      ensures transfers == old(transfers) + Exec(old(Now()), tib, fuel).2
    {
      hide AllProper, Running, Counted, TableOk, StatusOf, Exec;
      res := RunBlock(tib, fuel);
    }

    method SCSIRead(tib: Word, fuel: nat) returns (res: Option<int>)
      requires Valid()
      modifies this, sgPtr, sgLen
      ensures Valid() && phase == old(phase) && log == old(log) && sgPtr == old(sgPtr) && sgLen == old(sgLen)
      ensures old(phase) != Transfer ==> res == Some(SC_PHASE_ERR) && table == old(table) && mem == old(mem)
      ensures old(phase) == Transfer ==>
                reading && (Now(), res) == (Exec(old(Now()), tib, fuel).0, Exec(old(Now()), tib, fuel).1)
      ensures transfers ==
              if old(phase) == Transfer then old(transfers) + Exec(old(Now()), tib, fuel).2 else old(transfers)
    {
      if phase != Transfer {
        return Some(SC_PHASE_ERR);
      }
      hide Valid, Exec;
      reading := true;
      res := RunTib(tib, fuel);
    }

    method SCSIWrite(tib: Word, fuel: nat) returns (res: Option<int>)
      requires Valid()
      modifies this, sgPtr, sgLen
      ensures Valid() && phase == old(phase) && log == old(log) && sgPtr == old(sgPtr) && sgLen == old(sgLen)
      ensures old(phase) != Transfer ==> res == Some(SC_PHASE_ERR) && table == old(table) && mem == old(mem)
      ensures old(phase) == Transfer ==>
                && reading == old(reading)
                && (Now(), res) == (Exec(old(Now()), tib, fuel).0, Exec(old(Now()), tib, fuel).1)
      ensures transfers ==
              if old(phase) == Transfer then old(transfers) + Exec(old(Now()), tib, fuel).2 else old(transfers)
    {
      if phase != Transfer {
        return Some(SC_PHASE_ERR);
      }
      hide Valid, Exec;
      res := RunTib(tib, fuel);
    }

    /** The entries in use, read from the two arrays. */
    method CurrentTable() returns (entries: seq<Entry>)
      requires TableOk()
      ensures entries == table
    {
      entries := [];
      for i := 0 to sgIndex
        invariant entries == table[..i]
      {
        entries := entries + [Entry(sgPtr[i], sgLen[i])];
      }
    }

    /** Sends the command; `success` and `status` are the device's answer. */
    method SCSIComplete(message: Word, stat: Word, success: bool, status: int) returns (res: int)
      requires Valid()
      modifies this
      ensures Valid() && sgPtr == old(sgPtr) && sgLen == old(sgLen)
      ensures old(phase) != Transfer ==>
                res == SC_PHASE_ERR && phase == old(phase) && log == old(log) && mem == WriteMac16(old(mem), message, 0)
      ensures old(phase) == Transfer ==>
                && phase == Free && res == (if success then 0 else SC_COMM_ERR)
                && log == old(log) + [Sent(Wrap32(SumLen(old(table))), old(reading), old(table), old(cmd))]
                && mem == WriteMac16(WriteMac16(old(mem), message, 0), stat, status)
    {
      hide WriteMac16, Wrap32, AllProper, SumLen, AddAll;
      mem := WriteMac16(mem, message, 0);
      if phase != Transfer {
        return SC_PHASE_ERR;
      }
      Note(Sent(sgTotalLength, reading, table, cmd));
      mem := WriteMac16(mem, stat, status);
      phase, fakeStatus := Free, 0x0000;
      return if success then 0 else SC_COMM_ERR;
    }
  }

  /** Running a block keeps the total equal to the table's lengths modulo 2^32. */
  lemma TotalFollows(m: Machine, tib: Word, fuel: nat)
    requires |m.table| <= TABLE_SIZE && m.total == Wrap32(SumLen(m.table))
    ensures var m' := Exec(m, tib, fuel).0;
            |m'.table| <= TABLE_SIZE && m'.total == Wrap32(SumLen(m'.table))
  {
    hide Exec, AddAll, SumLen, Wrap32;
    ExecBuildsTable(m, tib, fuel);
    var transfers := Exec(m, tib, fuel).2;
    AddAllTotal(m.table, transfers);
    WrapSum(SumLen(m.table), SumLen(transfers));
  }

  /** Running a block adds its transfers to those made before. */
  lemma TableFollows(m: Machine, tib: Word, fuel: nat, before: seq<Entry>)
    requires |m.table| <= TABLE_SIZE && m.table == AddAll([], before)
    ensures Exec(m, tib, fuel).0.table == AddAll([], before + Exec(m, tib, fuel).2)
  {
    hide Exec, AddAll;
    ExecBuildsTable(m, tib, fuel);
    AddAllAppend([], before, Exec(m, tib, fuel).2);
  }
}
