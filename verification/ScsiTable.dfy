/** The scatter/gather table of the SCSI Manager and the little interpreter that fills it. */
module ScsiTable {
  import opened Bytes

  const TABLE_SIZE := 1024

  /** A contiguous piece of host memory. */
  datatype Entry = Entry(ptr: int, len: Word)

  // ---------- what a table stands for ----------

  function Range(ptr: int, len: nat): (r: seq<int>)
    ensures |r| == len
  {
    seq(len, i => ptr + i)
  }

  /** The addresses a list of entries names, in order. */
  function Addresses(entries: seq<Entry>): seq<int> {
    if entries == [] then [] else
    var n := |entries| - 1;
    Addresses(entries[..n]) + Range(entries[n].ptr, entries[n].len)
  }

  function SumLen(entries: seq<Entry>): nat {
    if entries == [] then 0 else SumLen(entries[..|entries| - 1]) + entries[|entries| - 1].len
  }

  lemma {:induction false} AddressCount(entries: seq<Entry>)
    ensures |Addresses(entries)| == SumLen(entries)
  {
    if entries != [] {
      AddressCount(entries[..|entries| - 1]);
    }
  }

  lemma {:induction false} AddressesAppend(a: seq<Entry>, b: seq<Entry>)
    ensures Addresses(a + b) == Addresses(a) + Addresses(b)
    ensures SumLen(a + b) == SumLen(a) + SumLen(b)
    decreases |b|
  {
    hide Range;
    if b == [] {
      assert a + b == a;
    } else {
      var n := |b| - 1;
      AddressesAppend(a, b[..n]);
      assert (a + b)[..|a| + n] == a + b[..n] && (a + b)[|a| + n] == b[n];
    }
  }

  lemma FrontAndLast(table: seq<Entry>, e: Entry)
    ensures table + [e] != [] && (table + [e])[..|table|] == table && (table + [e])[|table|] == e
  {
  }

  // ---------- adding a transfer ----------

  /** The transfer continues the last entry. */
  predicate Continues(table: seq<Entry>, ptr: int) {
    table != [] && ptr == table[|table| - 1].ptr + table[|table| - 1].len
  }

  predicate HasRoom(table: seq<Entry>, ptr: int) {
    Continues(table, ptr) || |table| != TABLE_SIZE
  }

  /** Merges the transfer into the last entry, or appends it.  A merged length is a 32-bit sum. */
  function Add(table: seq<Entry>, t: Entry): (r: seq<Entry>)
    ensures |r| <= |table| + 1
  {
    if Continues(table, t.ptr) then
      var n := |table| - 1;
      table[..n] + [Entry(table[n].ptr, Wrap32(table[n].len + t.len))]
    else
      table + [t]
  }

  function AddAll(table: seq<Entry>, transfers: seq<Entry>): seq<Entry> {
    if transfers == [] then table else
    Add(AddAll(table, transfers[..|transfers| - 1]), transfers[|transfers| - 1])
  }

  /** Merging this transfer overflows the 32-bit length of the entry. */
  predicate Overflows(table: seq<Entry>, t: Entry) {
    Continues(table, t.ptr) && table[|table| - 1].len + t.len >= 0x1_0000_0000
  }

  predicate NoneOverflows(table: seq<Entry>, transfers: seq<Entry>) {
    transfers == [] || (
      var n := |transfers| - 1;
      NoneOverflows(table, transfers[..n]) && !Overflows(AddAll(table, transfers[..n]), transfers[n]))
  }

  lemma RangeSplit(ptr: int, a: nat, b: nat)
    ensures Range(ptr, a) + Range(ptr + a, b) == Range(ptr, a + b)
  {
  }

  lemma WrapOnce(x: int)
    requires 0 <= x < 0x2_0000_0000
    ensures Wrap32(x) == if x < 0x1_0000_0000 then x else x - 0x1_0000_0000
  {
  }

  /** One transfer adds its addresses and its length, unless the merged length wraps; then 2^32
      bytes are lost. */
  lemma AddDenotes(table: seq<Entry>, t: Entry)
    ensures SumLen(Add(table, t)) == SumLen(table) + t.len - (if Overflows(table, t) then 0x1_0000_0000 else 0)
    ensures !Overflows(table, t) ==> Addresses(Add(table, t)) == Addresses(table) + Range(t.ptr, t.len)
  {
    hide Range;
    var r := Add(table, t);
    if Continues(table, t.ptr) {
      var n := |table| - 1;
      assert r[..n] == table[..n];
      WrapOnce(table[n].len + t.len);
      hide Wrap32;
      if !Overflows(table, t) {
        RangeSplit(table[n].ptr, table[n].len, t.len);
        assert Addresses(table) + Range(t.ptr, t.len)
            == Addresses(table[..n]) + (Range(table[n].ptr, table[n].len) + Range(t.ptr, t.len));
      }
    } else {
      assert r[..|table|] == table;
    }
  }

  lemma {:induction false} AddAllSum(table: seq<Entry>, transfers: seq<Entry>)
    ensures SumLen(AddAll(table, transfers)) <= SumLen(table) + SumLen(transfers)
    ensures SumLen(AddAll(table, transfers)) == SumLen(table) + SumLen(transfers) <==> NoneOverflows(table, transfers)
  {
    hide Overflows, Add, Wrap32;
    if transfers != [] {
      var n := |transfers| - 1;
      AddAllSum(table, transfers[..n]);
      AddDenotes(AddAll(table, transfers[..n]), transfers[n]);
    }
  }

  /** Whether or not merging overflows, the lengths add up modulo 2^32. */
  lemma {:induction false} AddAllTotal(table: seq<Entry>, transfers: seq<Entry>)
    ensures Wrap32(SumLen(AddAll(table, transfers))) == Wrap32(SumLen(table) + SumLen(transfers))
  {
    hide Overflows, Add, Wrap32;
    if transfers != [] {
      var n := |transfers| - 1;
      var before := SumLen(AddAll(table, transfers[..n]));
      AddAllTotal(table, transfers[..n]);
      AddDenotes(AddAll(table, transfers[..n]), transfers[n]);
      WrapSum(before, transfers[n].len);
      WrapSum(SumLen(table) + SumLen(transfers[..n]), transfers[n].len);
      WrapShift(before + transfers[n].len);
    }
  }

  lemma WrapSum(a: int, b: int)
    ensures Wrap32(Wrap32(a) + b) == Wrap32(a + b)
  {
  }

  lemma WrapShift(a: int)
    ensures Wrap32(a - 0x1_0000_0000) == Wrap32(a)
  {
  }

  lemma {:induction false} AddAllAddresses(table: seq<Entry>, transfers: seq<Entry>)
    requires NoneOverflows(table, transfers)
    ensures Addresses(AddAll(table, transfers)) == Addresses(table) + Addresses(transfers)
  {
    hide Range, Add, Overflows;
    if transfers != [] {
      var n := |transfers| - 1;
      AddAllAddresses(table, transfers[..n]);
      AddDenotes(AddAll(table, transfers[..n]), transfers[n]);
      assert Addresses(transfers) == Addresses(transfers[..n]) + Range(transfers[n].ptr, transfers[n].len);
      assert AddAll(table, transfers) == Add(AddAll(table, transfers[..n]), transfers[n]);
      hide *;
      assert Addresses(table) + Addresses(transfers)
          == (Addresses(table) + Addresses(transfers[..n])) + Range(transfers[n].ptr, transfers[n].len);
    } else {
      assert Addresses(table) + [] == Addresses(table);
    }
  }

  /** The merged table names the same bytes in the same order as the transfers one by one, exactly
      when no merged run of adjacent transfers reaches 2^32 bytes. */
  lemma MergingIsFaithful(table: seq<Entry>, transfers: seq<Entry>)
    ensures Addresses(AddAll(table, transfers)) == Addresses(table) + Addresses(transfers)
       <==> NoneOverflows(table, transfers)
  {
    AddAllSum(table, transfers);
    AddressCount(AddAll(table, transfers));
    AddressCount(table);
    AddressCount(transfers);
    if NoneOverflows(table, transfers) {
      AddAllAddresses(table, transfers);
    }
  }

  /** A total below 2^32 bytes rules every overflow out. */
  lemma {:induction false} SmallTotalNeverOverflows(table: seq<Entry>, transfers: seq<Entry>)
    requires SumLen(table) + SumLen(transfers) < 0x1_0000_0000
    ensures NoneOverflows(table, transfers)
  {
    if transfers != [] {
      var n := |transfers| - 1;
      SmallTotalNeverOverflows(table, transfers[..n]);
      AddAllSum(table, transfers[..n]);
      AddDenotes(AddAll(table, transfers[..n]), transfers[n]);
    }
  }

  // ---------- Mac memory ----------

  type Memory = map<int, Byte>

  function Peek(mem: Memory, a: int): Byte {
    if Wrap32(a) in mem then mem[Wrap32(a)] else 0
  }

  function Poke(mem: Memory, a: int, b: Byte): Memory {
    mem[Wrap32(a) := b]
  }

  function ReadMac16(mem: Memory, a: int): int {
    Peek(mem, a) as int * 0x100 + Peek(mem, a + 1)
  }

  function ReadMac32(mem: Memory, a: int): Word {
    ReadMac16(mem, a) * 0x1_0000 + ReadMac16(mem, a + 2)
  }

  function WriteMac16(mem: Memory, a: int, v: int): Memory {
    Poke(Poke(mem, a, v / 0x100 % 0x100), a + 1, v % 0x100)
  }

  function WriteMac32(mem: Memory, a: int, v: Word): Memory {
    WriteMac16(WriteMac16(mem, a, v / 0x1_0000), a + 2, v % 0x1_0000)
  }

  // ---------- the interpreter ----------

  const SC_COMM_ERR := 2
  const SC_BAD_PARMS_ERR := 4
  const SC_PHASE_ERR := 5
  const SC_COMPARE_ERR := 6
  const SC_MGR_BUSY_ERR := 7
  const SC_SEQUENCE_ERR := 8
  const MEM_FULL_ERR := -108

  datatype Machine = Machine(mem: Memory, table: seq<Entry>, total: Word)

  datatype Outcome = Next(tib: Word) | Halt(code: int)

  /** A transfer instruction: extends the table, or gives up when it is full. */
  function ExecTransfer(m: Machine, tib: Word, t: Entry): (Machine, Outcome) {
    if HasRoom(m.table, t.ptr) then
      (m.(table := Add(m.table, t), total := Wrap32(m.total + t.len)), Next(Wrap32(tib + 10)))
    else
      (m, Halt(MEM_FULL_ERR))
  }

  function Operand(mem: Memory, tib: Word): Entry {
    Entry(ReadMac32(mem, tib + 2), ReadMac32(mem, tib + 6))
  }

  /** One instruction of a transfer instruction block at `tib`. */
  function ExecOp(m: Machine, tib: Word): (Machine, Outcome) {
    var t := Operand(m.mem, tib);
    var (ptr, len) := (t.ptr, t.len);
    var next := Next(Wrap32(tib + 10));
    match ReadMac16(m.mem, tib)
    case 1 => ExecTransfer(m.(mem := WriteMac32(m.mem, tib + 2, Wrap32(ptr + len))), tib, t)
    case 2 => ExecTransfer(m, tib, t)
    case 3 => (m.(mem := WriteMac32(m.mem, ptr, Wrap32(ReadMac32(m.mem, ptr) + len))), next)
    case 4 => (m.(mem := WriteMac32(m.mem, len, ReadMac32(m.mem, ptr))), next)
    case 5 => (m.(mem := WriteMac32(m.mem, tib + 6, Wrap32(len - 1))),
               if Wrap32(len - 1) > 0 then Next(Wrap32(tib + ptr)) else next)
    case 6 => (m, next)
    case 7 => (m, Halt(0))
    case 8 => (m, Halt(SC_COMPARE_ERR))
    case _ => (m, Halt(SC_BAD_PARMS_ERR))
  }

  /** The transfer an instruction makes, if any. */
  function Transferred(m: Machine, tib: Word): seq<Entry> {
    var op, t := ReadMac16(m.mem, tib), Operand(m.mem, tib);
    if (op == 1 || op == 2) && HasRoom(m.table, t.ptr) then [t] else []
  }

  /** Up to `fuel` instructions: the final machine, the result code if the program ended, and the
      transfers made, one by one. */
  function Exec(m: Machine, tib: Word, fuel: nat): (Machine, Option<int>, seq<Entry>)
    decreases fuel
  {
    if fuel == 0 then (m, None, []) else
    var (m', outcome) := ExecOp(m, tib);
    var transfers := Transferred(m, tib);
    match outcome
    case Halt(code) => (m', Some(code), transfers)
    case Next(tib') =>
      var (m'', code, more) := Exec(m', tib', fuel - 1);
      (m'', code, transfers + more)
  }

  lemma ExecOpAdds(m: Machine, tib: Word)
    requires |m.table| <= TABLE_SIZE
    ensures var m' := ExecOp(m, tib).0;
            && m'.table == AddAll(m.table, Transferred(m, tib)) && |m'.table| <= TABLE_SIZE
            && m'.total == Wrap32(m.total + SumLen(Transferred(m, tib)))
  {
    hide ReadMac16, ReadMac32, WriteMac32;
    var t := Operand(m.mem, tib);
    assert [t][..0] == [];
    assert AddAll(m.table, [t]) == Add(m.table, t) && SumLen([t]) == t.len;
  }

  lemma {:induction false} AddAllAppend(table: seq<Entry>, a: seq<Entry>, b: seq<Entry>)
    ensures AddAll(table, a + b) == AddAll(AddAll(table, a), b)
    decreases |b|
  {
    hide Add;
    if b == [] {
      assert a + b == a;
    } else {
      var n := |b| - 1;
      AddAllAppend(table, a, b[..n]);
      assert (a + b)[..|a| + n] == a + b[..n];
    }
  }

  /** Whatever the program does, and even if it ends in an error, the table holds exactly its
      transfers, stays within its 1024 entries, and the total counts their bytes modulo 2^32. */
  lemma {:induction false} ExecBuildsTable(m: Machine, tib: Word, fuel: nat)
    requires |m.table| <= TABLE_SIZE
    ensures var (m', code, transfers) := Exec(m, tib, fuel);
            && m'.table == AddAll(m.table, transfers) && |m'.table| <= TABLE_SIZE
            && m'.total == Wrap32(m.total + SumLen(transfers))
    decreases fuel
  {
    NothingAdds(m);
    hide ExecOp, Transferred, AddAll, SumLen, Wrap32;
    if fuel > 0 {
      var (m', outcome) := ExecOp(m, tib);
      ExecOpAdds(m, tib);
      if outcome.Next? {
        var transfers := Transferred(m, tib);
        var (m'', code, more) := Exec(m', outcome.tib, fuel - 1);
        ExecBuildsTable(m', outcome.tib, fuel - 1);
        assert Exec(m, tib, fuel) == (m'', code, transfers + more);
        hide Exec;
        AddAllAppend(m.table, transfers, more);
        AddressesAppend(transfers, more);
        WrapSum(m.total + SumLen(transfers), SumLen(more));
      }
    }
  }

  lemma NothingAdds(m: Machine)
    ensures AddAll(m.table, []) == m.table && m.total == Wrap32(m.total + SumLen([]))
  {
  }
}
