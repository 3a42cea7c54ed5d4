/** A SCSI command from its transfers to the device and back: the phase machine's table handed to the
    data buffer. */
module ScsiCommand {
  import opened Bytes
  import opened ScsiTable
  import opened ScsiManager
  import opened ScsiBuffer

  /** The transfers made lie in memory and number fewer than 2^32 bytes. */
  predicate Moves(transfers: seq<Entry>, size: nat) {
    AllInMemory(transfers, size) && SumLen(transfers) < 0x1_0000_0000
  }

  /** Through the merged table the same data are collected, and distributed, as by the transfers. */
  lemma TableStandsForTransfers(mem: seq<Byte>, transfers: seq<Entry>)
    requires Moves(transfers, |mem|)
    ensures var table := AddAll([], transfers);
      && AllInMemory(table, |mem|) && SumLen(table) == SumLen(transfers)
      && Gathered(mem, table) == Gathered(mem, transfers)
      && forall data | |data| == SumLen(table) :: Scattered(mem, table, data) == Scattered(mem, transfers, data)
  {
    SmallTotalNeverOverflows([], transfers);
    MergedInMemory(transfers, |mem|);
    AddAllSum([], transfers);
    GatherThroughMerged(mem, transfers);
    var table := AddAll([], transfers);
    hide AddAll, Gathered, Scattered, AllInMemory, NoneOverflows;
    forall data: seq<Byte> | |data| == SumLen(table)
      ensures Scattered(mem, table, data) == Scattered(mem, transfers, data)
    {
      ScatterThroughMerged(mem, transfers, data);
    }
  }

  /** What the command does to memory and to the device, in terms of the transfers made since the bus
      was got. */
  ghost predicate Delivered(reading: bool, ran: bool, faked: bool, linked: bool, completed: bool, mem: seq<Byte>,
                            transfers: seq<Entry>, answer: seq<Byte>, after: seq<Byte>, sent: Option<seq<Byte>>)
    requires Moves(transfers, |mem|) && |answer| == SumLen(transfers)
  {
    && (!reading || !ran || !completed ==> after == mem)
    && (ran && !faked && linked && !reading ==> sent == Some(Gathered(mem, transfers)))
    && (ran && !faked && linked && reading && completed ==> after == Scattered(mem, transfers, answer))
  }

  /** The command sent, for a table that holds these transfers. */
  method Execute(b: DataBuffer, host: array<Byte>, table: seq<Entry>, ghost transfers: seq<Entry>, reading: bool,
                 command: seq<Byte>, gotMemory: bool, reply: Reply)
    returns (success: bool, stat: Option<int>, sent: Option<seq<Byte>>)
    requires b.Valid() && ShortSense(reply.cam) && host != b.buffer && host != b.requested
    requires Moves(transfers, host.Length) && table == AddAll([], transfers) && |reply.answer| == SumLen(transfers)
    modifies b, b.buffer, host
    ensures b.Valid()
    ensures var ran := SumLen(transfers) <= old(b.buffer.Length) || gotMemory;
      var faked := Faked(old(b.cam), command);
      && success == (ran && (faked || reply.made))
      && (ran && old(b.Linked()) ==> (b.Linked() <==> SumLen(transfers) <= old(b.buffer.Length)))
      && Delivered(reading, ran, faked, b.Linked(), b.cam.Completed?, old(host[..]), transfers, reply.answer,
                   host[..], sent)
  {
    TableStandsForTransfers(host[..], transfers);
    hide AddAll, Gathered, Scattered, AllInMemory, SumLen, Faked;
    ghost var data;
    success, stat, sent, data := b.SendCmd(host, table, reading, command, gotMemory, reply);
  }

  /** `SCSIComplete` down to the device.  Unless the command is answered from the sense data at hand, a
      write sends exactly the bytes of the transfers made since the bus was got, one after the other,
      and a read puts exactly the device's data where these transfers point - as long as no command
      has needed more than the first buffer. */
  method Complete(m: Manager, b: DataBuffer, host: array<Byte>, message: Word, stat: Word, gotMemory: bool,
                  reply: Reply)
    returns (res: int, sent: Option<seq<Byte>>)
    requires m.Valid() && b.Valid() && ShortSense(reply.cam) && host != b.buffer && host != b.requested
    requires m.phase == Transfer ==> Moves(m.transfers, host.Length) && |reply.answer| == SumLen(m.transfers)
    modifies m, b, b.buffer, host
    ensures m.Valid() && b.Valid()
    ensures old(m.phase) != Transfer ==> res == SC_PHASE_ERR && sent == None && host[..] == old(host[..])
    ensures old(m.phase) == Transfer ==>
      var ran := SumLen(old(m.transfers)) <= old(b.buffer.Length) || gotMemory;
      var faked := Faked(old(b.cam), old(m.cmd));
      && m.phase == Free && res == (if ran && (faked || reply.made) then 0 else SC_COMM_ERR)
      && (ran && old(b.Linked()) ==> (b.Linked() <==> SumLen(old(m.transfers)) <= old(b.buffer.Length)))
      && Delivered(old(m.reading), ran, faked, b.Linked(), b.cam.Completed?, old(host[..]), old(m.transfers),
                   reply.answer, host[..], sent)
  {
    if m.phase != Transfer {
      res := m.SCSIComplete(message, stat, false, 0);
      return res, None;
    }
    var table := m.CurrentTable();
    hide AddAll, Moves, SumLen, Delivered, Faked;
    var success, status;
    success, status, sent := Execute(b, host, table, m.transfers, m.reading, m.cmd, gotMemory, reply);
    res := m.SCSIComplete(message, stat, success, if status.Some? then status.value else 0);
  }
}
