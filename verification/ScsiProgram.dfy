/** What the instructions of a transfer instruction block do to Mac memory and to the table, and what
    the usual program for reading or writing blocks amounts to. */
module ScsiProgram {
  import opened Bytes
  import opened ScsiTable

  // ---------- Mac memory ----------

  /** Byte `i` of a big-endian 32-bit word. */
  function ByteOf(v: Word, i: nat): Byte
    requires i < 4
  {
    if i == 0 then v / 0x100_0000 else if i == 1 then v / 0x1_0000 % 0x100 else if i == 2 then v / 0x100 % 0x100
    else v % 0x100
  }

  /** Addresses count modulo 2^32. */
  lemma PeekPoke(mem: Memory, a: int, v: Byte, b: int)
    ensures Peek(Poke(mem, a, v), b) == if Wrap32(b - a) == 0 then v else Peek(mem, b)
  {
    SameAddress(a, b);
    hide Wrap32;
  }

  lemma SameAddress(a: int, b: int)
    ensures Wrap32(a) == Wrap32(b) <==> Wrap32(b - a) == 0
  {
  }

  lemma OffsetIs(a: int, b: int, i: nat)
    requires i < 4
    ensures Wrap32(b - (a + i)) == 0 <==> Wrap32(b - a) == i
  {
  }

  lemma UpperHalf(v: Word)
    ensures v / 0x1_0000 / 0x100 == v / 0x100_0000
  {
  }

  lemma LowerHalf(v: Word)
    ensures v % 0x1_0000 / 0x100 % 0x100 == v / 0x100 % 0x100
  {
    SplitHalf(v / 0x1_0000, v % 0x1_0000);
    DropMultiple(v / 0x1_0000, v % 0x1_0000 / 0x100);
  }

  lemma SplitHalf(q: int, r: int)
    requires 0 <= r < 0x1_0000
    ensures (0x1_0000 * q + r) / 0x100 == 0x100 * q + r / 0x100
  {
  }

  lemma DropMultiple(q: int, x: int)
    requires 0 <= x < 0x100
    ensures (0x100 * q + x) % 0x100 == x
  {
  }

  lemma LowByte(v: Word)
    ensures v % 0x1_0000 % 0x100 == v % 0x100
  {
  }

  lemma HalvesOf(v: Word)
    ensures v / 0x1_0000 / 0x100 % 0x100 == ByteOf(v, 0) && v / 0x1_0000 % 0x100 == ByteOf(v, 1)
    ensures v % 0x1_0000 / 0x100 % 0x100 == ByteOf(v, 2) && v % 0x1_0000 % 0x100 == ByteOf(v, 3)
  {
    UpperHalf(v);
    LowerHalf(v);
    LowByte(v);
  }

  /** The bytes make up the word. */
  lemma BytesMakeWord(v: Word)
    ensures (ByteOf(v, 0) as int * 0x100 + ByteOf(v, 1)) * 0x1_0000 + (ByteOf(v, 2) as int * 0x100 + ByteOf(v, 3)) == v
  {
    assert v / 0x1_0000 == ByteOf(v, 0) as int * 0x100 + ByteOf(v, 1) by {
      UpperHalf(v);
    }
    assert v % 0x1_0000 == ByteOf(v, 2) as int * 0x100 + ByteOf(v, 3) by {
      LowerHalf(v);
      LowByte(v);
    }
  }

  /** A 32-bit write changes four bytes, high byte first, and no other. */
  lemma WriteChanges(mem: Memory, a: int, v: Word, b: int)
    ensures Peek(WriteMac32(mem, a, v), b) == if Wrap32(b - a) < 4 then ByteOf(v, Wrap32(b - a)) else Peek(mem, b)
  {
    HalvesOf(v);
    var m1 := Poke(mem, a, v / 0x1_0000 / 0x100 % 0x100);
    var m2 := Poke(m1, a + 1, v / 0x1_0000 % 0x100);
    var m3 := Poke(m2, a + 2, v % 0x1_0000 / 0x100 % 0x100);
    assert WriteMac32(mem, a, v) == Poke(m3, a + 2 + 1, v % 0x1_0000 % 0x100);
    PeekPoke(mem, a, v / 0x1_0000 / 0x100 % 0x100, b);
    PeekPoke(m1, a + 1, v / 0x1_0000 % 0x100, b);
    PeekPoke(m2, a + 2, v % 0x1_0000 / 0x100 % 0x100, b);
    PeekPoke(m3, a + 2 + 1, v % 0x1_0000 % 0x100, b);
    OffsetIs(a, b, 1);
    OffsetIs(a, b, 2);
    OffsetIs(a, b, 3);
    hide Wrap32, Peek, Poke, WriteMac32;
  }

  /** The word at `a` is `v` afterwards, and no other byte has changed. */
  ghost predicate OnlyWord(before: Memory, after: Memory, a: int, v: Word) {
    ReadMac32(after, a) == v && forall b: int | Wrap32(b - a) >= 4 :: Peek(after, b) == Peek(before, b)
  }

  lemma WrittenWord(mem: Memory, a: int, v: Word)
    ensures ReadMac32(WriteMac32(mem, a, v), a) == v
  {
    hide WriteMac32, Peek, Wrap32, ByteOf;
    Offsets(a);
    WriteChanges(mem, a, v, a);
    WriteChanges(mem, a, v, a + 1);
    WriteChanges(mem, a, v, a + 2);
    WriteChanges(mem, a, v, a + 2 + 1);
    BytesMakeWord(v);
  }

  lemma Offsets(a: int)
    ensures Wrap32(a - a) == 0 && Wrap32(a + 1 - a) == 1 && Wrap32(a + 2 - a) == 2 && Wrap32(a + 2 + 1 - a) == 3
  {
  }

  lemma WritesOnly(mem: Memory, a: int, v: Word)
    ensures OnlyWord(mem, WriteMac32(mem, a, v), a, v)
  {
    WrittenWord(mem, a, v);
    forall b: int | Wrap32(b - a) >= 4
      ensures Peek(WriteMac32(mem, a, v), b) == Peek(mem, b)
    {
      WriteChanges(mem, a, v, b);
    }
    hide WriteMac32, Peek, Wrap32, ReadMac32, ByteOf;
  }

  lemma ReadsApart(before: Memory, after: Memory, a: int, v: Word, b: int)
    requires OnlyWord(before, after, a, v) && 4 <= Wrap32(b - a)
    ensures Wrap32(b - a) <= 0xffff_fffe ==> ReadMac16(after, b) == ReadMac16(before, b)
    ensures Wrap32(b - a) <= 0xffff_fffc ==> ReadMac32(after, b) == ReadMac32(before, b)
  {
    hide Peek, Wrap32;
    WrapFurther(b, a, 1);
    WrapFurther(b, a, 2);
    WrapFurther(b, a, 3);
    assert Peek(after, b) == Peek(before, b);
    if Wrap32(b - a) <= 0xffff_fffe {
      assert Peek(after, b + 1) == Peek(before, b + 1);
    }
    if Wrap32(b - a) <= 0xffff_fffc {
      assert Peek(after, b + 2) == Peek(before, b + 2) && Peek(after, b + 2 + 1) == Peek(before, b + 2 + 1);
    }
  }

  lemma WrapFurther(b: int, a: int, d: nat)
    requires d < 4
    ensures Wrap32(b - a) + d < 0x1_0000_0000 ==> Wrap32(b + d - a) == Wrap32(b - a) + d
  {
    var x := b - a;
    assert (x % 0x1_0000_0000 + d < 0x1_0000_0000) ==> (x + d) % 0x1_0000_0000 == x % 0x1_0000_0000 + d;
  }

  lemma ReadsWrap(mem: Memory, a: int, d: int)
    ensures ReadMac16(mem, Wrap32(a) + d) == ReadMac16(mem, a + d)
    ensures ReadMac32(mem, Wrap32(a) + d) == ReadMac32(mem, a + d)
  {
    PeekWraps(mem, a, d);
    PeekWraps(mem, a, d + 1);
    PeekWraps(mem, a, d + 2);
    PeekWraps(mem, a, d + 3);
    hide Peek, Wrap32;
  }

  lemma PeekWraps(mem: Memory, a: int, d: int)
    ensures Peek(mem, Wrap32(a) + d) == Peek(mem, a + d)
  {
    WrapSum(a, d);
    hide Wrap32;
  }

  // ---------- the instructions ----------

  /** The transfer is made if the table has room, and ends the program otherwise. */
  ghost predicate Transfers(m: Machine, tib: Word, t: Entry) {
    var (m', outcome) := ExecOp(m, tib);
    if Continues(m.table, t.ptr) || |m.table| != 1024 then
      && outcome == Next(Wrap32(tib + 10)) && Transferred(m, tib) == [t]
      && m'.table == Add(m.table, t) && m'.total == Wrap32(m.total + t.len)
    else
      && outcome == Halt(-108) && Transferred(m, tib) == [] && m'.table == m.table && m'.total == m.total
  }

  /** Nothing is transferred. */
  ghost predicate Continued(m: Machine, tib: Word, outcome: Outcome) {
    var m' := ExecOp(m, tib).0;
    ExecOp(m, tib).1 == outcome && Transferred(m, tib) == [] && m'.table == m.table && m'.total == m.total
  }

  /** INC transfers and advances its pointer by the length, even if the table turns out to be full. */
  lemma IncAdvances(m: Machine, tib: Word)
    requires ReadMac16(m.mem, tib) == 1
    ensures var ptr, len := ReadMac32(m.mem, tib + 2), ReadMac32(m.mem, tib + 6);
      && Transfers(m, tib, Entry(ptr, len))
      && OnlyWord(m.mem, ExecOp(m, tib).0.mem, tib + 2, Wrap32(ptr + len))
  {
    hide ReadMac16, ReadMac32, WriteMac32, OnlyWord, Add, Wrap32;
    var ptr: int, len: int := ReadMac32(m.mem, tib + 2), ReadMac32(m.mem, tib + 6);
    WritesOnly(m.mem, tib + 2, Wrap32(ptr + len));
  }

  /** NOINC transfers and leaves memory alone. */
  lemma NoIncTransfers(m: Machine, tib: Word)
    requires ReadMac16(m.mem, tib) == 2
    ensures Transfers(m, tib, Entry(ReadMac32(m.mem, tib + 2), ReadMac32(m.mem, tib + 6)))
    ensures ExecOp(m, tib).0.mem == m.mem
  {
    hide ReadMac16, ReadMac32, WriteMac32, Add, Wrap32;
  }

  /** ADD adds its second operand to the word that its first points to. */
  lemma AddAdds(m: Machine, tib: Word)
    requires ReadMac16(m.mem, tib) == 3
    ensures var to, n := ReadMac32(m.mem, tib + 2), ReadMac32(m.mem, tib + 6);
      && Continued(m, tib, Next(Wrap32(tib + 10)))
      && OnlyWord(m.mem, ExecOp(m, tib).0.mem, to, Wrap32(ReadMac32(m.mem, to) + n))
  {
    hide ReadMac16, ReadMac32, WriteMac32, OnlyWord, Wrap32;
    var to, n := ReadMac32(m.mem, tib + 2), ReadMac32(m.mem, tib + 6);
    WritesOnly(m.mem, to, Wrap32(ReadMac32(m.mem, to) + n));
  }

  /** MOVE copies the word that its first operand points to, to where the second points. */
  lemma MoveCopies(m: Machine, tib: Word)
    requires ReadMac16(m.mem, tib) == 4
    ensures var from, to := ReadMac32(m.mem, tib + 2), ReadMac32(m.mem, tib + 6);
      && Continued(m, tib, Next(Wrap32(tib + 10)))
      && OnlyWord(m.mem, ExecOp(m, tib).0.mem, to, ReadMac32(m.mem, from))
  {
    hide ReadMac16, ReadMac32, WriteMac32, OnlyWord, Wrap32;
    var from, to := ReadMac32(m.mem, tib + 2), ReadMac32(m.mem, tib + 6);
    WritesOnly(m.mem, to, ReadMac32(m.mem, from));
  }

  lemma CountDown(count: Word)
    ensures Wrap32(count - 1) > 0 <==> count != 1
  {
  }

  /** LOOP counts its second operand down and jumps by the first, unless the count was 1. */
  lemma LoopCounts(m: Machine, tib: Word)
    requires ReadMac16(m.mem, tib) == 5
    ensures var jump, count := ReadMac32(m.mem, tib + 2), ReadMac32(m.mem, tib + 6);
      && Continued(m, tib, Next(Wrap32(if count == 1 then tib + 10 else tib + jump)))
      && OnlyWord(m.mem, ExecOp(m, tib).0.mem, tib + 6, Wrap32(count - 1))
  {
    hide ReadMac16, ReadMac32, WriteMac32, OnlyWord, Wrap32;
    var count: int := ReadMac32(m.mem, tib + 6);
    CountDown(count);
    WritesOnly(m.mem, tib + 6, Wrap32(count - 1));
  }

  /** The other instructions change nothing: NOP goes on; STOP ends well, COMP and whatever else in an
      error. */
  lemma OthersEnd(m: Machine, tib: Word)
    requires var op := ReadMac16(m.mem, tib); op < 1 || op > 5
    ensures var op := ReadMac16(m.mem, tib);
      && ExecOp(m, tib).0 == m
      && Continued(m, tib, if op == 6 then Next(Wrap32(tib + 10))
                           else Halt(if op == 7 then 0 else if op == 8 then 6 else 4))
  {
    hide ReadMac16, ReadMac32, WriteMac32, Wrap32;
  }

  // ---------- the program that transfers blocks ----------

  /** The program at `tib`: INC buf n, LOOP -10 k, STOP. */
  predicate ReadsBlocks(mem: Memory, tib: Word, buf: Word, n: Word, k: Word) {
    && ReadMac16(mem, tib) == 1 && ReadMac32(mem, tib + 2) == buf && ReadMac32(mem, tib + 6) == n
    && ReadMac16(mem, tib + 10) == 5 && ReadMac32(mem, tib + 12) == 0xffff_fff6 && ReadMac32(mem, tib + 16) == k
    && ReadMac16(mem, tib + 20) == 7
  }

  /** INC changes its own pointer, and nothing else of the program. */
  lemma IncKeepsProgram(before: Memory, after: Memory, tib: Word, buf: Word, n: Word, k: Word, v: Word)
    requires ReadsBlocks(before, tib, buf, n, k) && OnlyWord(before, after, tib + 2, v)
    ensures ReadsBlocks(after, tib, v, n, k)
  {
    ProgramOffsets(tib);
    ReadsApart(before, after, tib + 2, v, tib);
    ReadsApart(before, after, tib + 2, v, tib + 6);
    ReadsApart(before, after, tib + 2, v, tib + 10);
    ReadsApart(before, after, tib + 2, v, tib + 12);
    ReadsApart(before, after, tib + 2, v, tib + 16);
    ReadsApart(before, after, tib + 2, v, tib + 20);
    assert ReadMac32(after, tib + 2) == v;
    hide ReadMac16, ReadMac32, Wrap32, OnlyWord;
  }

  lemma ProgramOffsets(tib: int)
    ensures Wrap32(tib - (tib + 2)) == 0xffff_fffe && Wrap32(tib + 6 - (tib + 2)) == 4
    ensures Wrap32(tib + 10 - (tib + 2)) == 8 && Wrap32(tib + 12 - (tib + 2)) == 10
    ensures Wrap32(tib + 16 - (tib + 2)) == 14 && Wrap32(tib + 20 - (tib + 2)) == 18
    ensures Wrap32(tib - (tib + 16)) == 0xffff_fff0 && Wrap32(tib + 2 - (tib + 16)) == 0xffff_fff2
    ensures Wrap32(tib + 6 - (tib + 16)) == 0xffff_fff6 && Wrap32(tib + 10 - (tib + 16)) == 0xffff_fffa
    ensures Wrap32(tib + 12 - (tib + 16)) == 0xffff_fffc && Wrap32(tib + 20 - (tib + 16)) == 4
  {
  }

  /** LOOP changes its own count, and nothing else of the program. */
  lemma LoopKeepsProgram(before: Memory, after: Memory, tib: Word, buf: Word, n: Word, k: Word, v: Word)
    requires ReadsBlocks(before, tib, buf, n, k) && OnlyWord(before, after, tib + 16, v)
    ensures ReadsBlocks(after, tib, buf, n, v)
  {
    ProgramOffsets(tib);
    ReadsApart(before, after, tib + 16, v, tib);
    ReadsApart(before, after, tib + 16, v, tib + 2);
    ReadsApart(before, after, tib + 16, v, tib + 6);
    ReadsApart(before, after, tib + 16, v, tib + 10);
    ReadsApart(before, after, tib + 16, v, tib + 12);
    ReadsApart(before, after, tib + 16, v, tib + 20);
    assert ReadMac32(after, tib + 16) == v;
    hide ReadMac16, ReadMac32, Wrap32, OnlyWord;
  }

  /** The program's transfers can go into the table from here on: there is a free entry, or the last
      entry ends where they begin and does not overflow. */
  predicate Accepts(table: seq<Entry>, buf: int, size: nat) {
    |table| < 1024 || (|table| == 1024 && Continues(table, buf) && table[1023].len + size < 0x1_0000_0000)
  }

  lemma AddAccepts(table: seq<Entry>, buf: int, n: Word, size: nat)
    requires Accepts(table, buf, n + size) && n + size < 0x1_0000_0000
    ensures HasRoom(table, buf) && Accepts(Add(table, Entry(buf, n)), buf + n, size)
  {
    var r := Add(table, Entry(buf, n));
    if Continues(table, buf) {
      WrapOnce(table[|table| - 1].len + n);
    }
    hide Wrap32;
  }

  /** The transfers of `k` blocks of `n` bytes one after the other. */
  function Blocks(buf: int, n: Word, k: nat): (r: seq<Entry>)
    ensures |r| == k
    decreases k
  {
    if k == 0 then [] else [Entry(buf, n)] + Blocks(buf + n, n, k - 1)
  }

  lemma {:induction false} BlocksAre(buf: int, n: Word, k: nat, i: nat)
    requires i < k
    ensures Blocks(buf, n, k)[i] == Entry(buf + i * n, n)
    decreases k
  {
    if i > 0 {
      BlocksAre(buf + n, n, k - 1, i - 1);
    }
  }

  lemma {:induction false} BlocksName(buf: int, n: Word, k: nat)
    ensures Addresses(Blocks(buf, n, k)) == Range(buf, k * n)
    decreases k
  {
    if k > 0 {
      BlocksName(buf + n, n, k - 1);
      AddressesAppend([Entry(buf, n)], Blocks(buf + n, n, k - 1));
      OneEntryNames(buf, n);
      assert k * n == n + (k - 1) * n;
      RangeSplit(buf, n, (k - 1) * n);
    }
  }

  lemma OneEntryNames(buf: int, n: Word)
    ensures Addresses([Entry(buf, n)]) == Range(buf, n)
  {
    assert [Entry(buf, n)][..0] == [];
  }

  /** Two instructions: one block transferred, one less to go. */
  lemma OneRound(m: Machine, tib: Word, buf: Word, n: Word, k: Word, size: nat) returns (m2: Machine)
    requires ReadsBlocks(m.mem, tib, buf, n, k) && k >= 1
    requires Accepts(m.table, buf, n + size) && n + size < 0x1_0000_0000
    ensures ExecOp(m, tib).1 == Next(Wrap32(tib + 10)) && Transferred(m, tib) == [Entry(buf, n)]
    ensures var m1 := ExecOp(m, tib).0;
      && ExecOp(m1, Wrap32(tib + 10)) == (m2, Next(if k == 1 then Wrap32(tib + 20) else tib))
      && Transferred(m1, Wrap32(tib + 10)) == []
    ensures ReadsBlocks(m2.mem, tib, Wrap32(buf + n), n, k - 1) && Accepts(m2.table, buf + n, size)
  {
    hide ReadMac16, ReadMac32, Wrap32, OnlyWord, Add, Accepts;
    var m1 := ExecOp(m, tib).0;
    IncAdvances(m, tib);
    AddAccepts(m.table, buf, n, size);
    IncKeepsProgram(m.mem, m1.mem, tib, buf, n, k, Wrap32(buf as int + n as int));
    m2 := LoopRound(m1, tib, Wrap32(buf as int + n as int), n, k);
  }

  lemma LoopRound(m: Machine, tib: Word, buf: Word, n: Word, k: Word) returns (m2: Machine)
    requires ReadsBlocks(m.mem, tib, buf, n, k) && k >= 1
    ensures ExecOp(m, Wrap32(tib + 10)) == (m2, Next(if k == 1 then Wrap32(tib + 20) else tib))
    ensures Transferred(m, Wrap32(tib + 10)) == []
    ensures ReadsBlocks(m2.mem, tib, buf, n, k - 1) && m2.table == m.table
  {
    hide ReadMac16, ReadMac32, Wrap32, OnlyWord;
    var here := Wrap32(tib + 10);
    ReadsWrap(m.mem, tib + 10, 0);
    ReadsWrap(m.mem, tib + 10, 2);
    ReadsWrap(m.mem, tib + 10, 6);
    LoopCounts(m, here);
    m2 := ExecOp(m, here).0;
    LoopJumps(tib, k);
    OnlyWordWraps(m.mem, m2.mem, tib + 10, 6, k - 1);
    LoopKeepsProgram(m.mem, m2.mem, tib, buf, n, k, k - 1);
  }

  lemma LoopJumps(tib: Word, k: Word)
    requires k >= 1
    ensures Wrap32(Wrap32(tib + 10) + 10) == Wrap32(tib + 20) && Wrap32(Wrap32(tib + 10) + 0xffff_fff6) == tib
    ensures Wrap32(k - 1) == k - 1
  {
  }

  lemma OnlyWordWraps(before: Memory, after: Memory, a: int, d: int, v: Word)
    requires OnlyWord(before, after, Wrap32(a) + d, v)
    ensures OnlyWord(before, after, a + d, v)
  {
    ReadsWrap(after, a, d);
    hide ReadMac32, Peek, Wrap32;
    forall b: int | Wrap32(b - (a + d)) >= 4
      ensures Peek(after, b) == Peek(before, b)
    {
      WrapDifference(b, a, d);
    }
  }

  lemma WrapDifference(b: int, a: int, d: int)
    ensures Wrap32(b - (Wrap32(a) + d)) == Wrap32(b - (a + d))
  {
  }

  /** The size of `k` blocks. */
  function SizeOf(n: Word, k: nat): (size: nat)
    decreases k
  {
    if k == 0 then 0 else n + SizeOf(n, k - 1)
  }

  lemma {:induction false} SizeIsProduct(n: Word, k: nat)
    ensures SizeOf(n, k) == k * n
    decreases k
  {
    if k > 0 {
      SizeIsProduct(n, k - 1);
    }
  }

  lemma ExecNext(m: Machine, tib: Word, fuel: nat)
    requires fuel > 0 && ExecOp(m, tib).1.Next?
    ensures var (m', o) := ExecOp(m, tib);
      && Exec(m, tib, fuel).1 == Exec(m', o.tib, fuel - 1).1
      && Exec(m, tib, fuel).2 == Transferred(m, tib) + Exec(m', o.tib, fuel - 1).2
  {
    hide ExecOp, Transferred;
  }

  lemma RoundRuns(m: Machine, tib: Word, buf: Word, n: Word, k: Word, size: nat, fuel: nat) returns (m2: Machine)
    requires ReadsBlocks(m.mem, tib, buf, n, k) && k >= 1 && fuel >= 2
    requires Accepts(m.table, buf, n + size) && n + size < 0x1_0000_0000
    ensures var next := if k == 1 then Wrap32(tib + 20) else tib;
      && Exec(m, tib, fuel).1 == Exec(m2, next, fuel - 2).1
      && Exec(m, tib, fuel).2 == [Entry(buf, n)] + Exec(m2, next, fuel - 2).2
    ensures ReadsBlocks(m2.mem, tib, Wrap32(buf + n), n, k - 1) && Accepts(m2.table, buf + n, size)
  {
    hide ReadsBlocks, Accepts, ExecOp, Transferred, Exec, Wrap32;
    m2 := OneRound(m, tib, buf, n, k, size);
    ExecNext(m, tib, fuel);
    ExecNext(ExecOp(m, tib).0, Wrap32(tib + 10), fuel - 1);
  }

  lemma {:induction false} BlocksRun(m: Machine, tib: Word, buf: Word, n: Word, k: Word, fuel: nat)
    requires ReadsBlocks(m.mem, tib, buf, n, k) && k >= 1 && fuel > 2 * k
    requires Accepts(m.table, buf, SizeOf(n, k)) && SizeOf(n, k) < 0x1_0000_0000
    requires buf + SizeOf(n, k) <= 0x1_0000_0000
    ensures Exec(m, tib, fuel).1 == Some(0) && Exec(m, tib, fuel).2 == Blocks(buf, n, k)
    decreases k
  {
    hide ReadsBlocks, Accepts, Exec, Wrap32, Range;
    var m2 := RoundRuns(m, tib, buf, n, k, SizeOf(n, k - 1), fuel);
    if k == 1 {
      StopsThere(m2, tib, Wrap32(buf as int + n as int), n, fuel - 2);
      assert Blocks(buf as int + n as int, n, 0) == [];
    } else {
      NoWrap(buf as int + n as int, n, k - 1);
      BlocksRun(m2, tib, Wrap32(buf as int + n as int), n, k - 1, fuel - 2);
    }
  }

  lemma NoWrap(x: nat, n: Word, k: nat)
    requires k >= 1 && x + SizeOf(n, k) <= 0x1_0000_0000
    ensures x == 0x1_0000_0000 ==> SizeOf(n, k) == 0
    ensures x < 0x1_0000_0000 ==> Wrap32(x) == x
  {
  }

  lemma StopsThere(m: Machine, tib: Word, buf: Word, n: Word, fuel: nat)
    requires ReadsBlocks(m.mem, tib, buf, n, 0) && fuel > 0
    ensures Exec(m, Wrap32(tib + 20), fuel) == (m, Some(0), [])
  {
    hide ReadMac16, ReadMac32, Exec, Wrap32;
    ProgramStops(m, tib, fuel);
  }

  lemma ProgramStops(m: Machine, tib: Word, fuel: nat)
    requires ReadMac16(m.mem, tib + 20) == 7 && fuel > 0
    ensures Exec(m, Wrap32(tib + 20), fuel) == (m, Some(0), [])
  {
    ReadsWrap(m.mem, tib + 20, 0);
    OthersEnd(m, Wrap32(tib + 20));
    hide ReadMac16, ReadMac32, WriteMac32, Wrap32;
  }

  /** INC buf n, LOOP -10 k, STOP: whatever the table holds already, if it has a free entry, the program
      ends well, having made `k` transfers of `n` bytes, one behind the other from `buf` on. */
  lemma BlocksTransferred(m: Machine, tib: Word, buf: Word, n: Word, k: Word, size: Word, fuel: nat)
    requires ReadsBlocks(m.mem, tib, buf, n, k) && k >= 1 && fuel > 2 * k && |m.table| < 1024
    requires size == k * n && buf + size <= 0x1_0000_0000
    ensures Exec(m, tib, fuel).1 == Some(0)
    ensures var transfers := Exec(m, tib, fuel).2;
      && |transfers| == k && (forall i | 0 <= i < k :: transfers[i] == Entry(buf + i * n, n))
      && Addresses(transfers) == Range(buf, size)
  {
    hide ReadsBlocks, Exec, Range;
    SizeIsProduct(n, k);
    BlocksRun(m, tib, buf, n, k, fuel);
    BlocksName(buf, n, k);
    forall i | 0 <= i < k
      ensures Blocks(buf, n, k)[i] == Entry(buf + i * n, n)
    {
      BlocksAre(buf, n, k, i);
    }
  }

  lemma {:induction false} LastBlock(buf: int, n: Word, k: nat)
    requires k >= 1
    ensures Blocks(buf, n, k) == Blocks(buf, n, k - 1) + [Entry(buf + SizeOf(n, k - 1), n)]
    decreases k
  {
    if k > 1 {
      LastBlock(buf + n, n, k - 1);
    }
  }

  lemma {:induction false} BlocksMerge(buf: int, n: Word, k: nat)
    requires k >= 1 && SizeOf(n, k) < 0x1_0000_0000
    ensures AddAll([], Blocks(buf, n, k)) == [Entry(buf, SizeOf(n, k))]
    decreases k
  {
    hide Blocks, Add, AddAll, Wrap32;
    LastBlock(buf, n, k);
    AddAllLast(Blocks(buf, n, k - 1), Entry(buf + SizeOf(n, k - 1), n));
    if k == 1 {
      NoBlocks(buf, n);
    } else {
      SizeGrows(n, k - 1);
      BlocksMerge(buf, n, k - 1);
      AddMerges(buf, SizeOf(n, k - 1), n);
    }
  }

  lemma NoBlocks(buf: int, n: Word)
    ensures Blocks(buf, n, 0) == [] && AddAll([], []) == [] && Add([], Entry(buf, n)) == [Entry(buf, n)]
  {
  }

  lemma AddMerges(buf: int, size: Word, n: Word)
    requires size + n < 0x1_0000_0000
    ensures Add([Entry(buf, size)], Entry(buf + size, n)) == [Entry(buf, size + n)]
  {
  }

  lemma AddAllLast(a: seq<Entry>, e: Entry)
    ensures AddAll([], a + [e]) == Add(AddAll([], a), e)
  {
    FrontAndLast(a, e);
    hide Add;
  }

  lemma {:induction false} SizeGrows(n: Word, k: nat)
    ensures SizeOf(n, k + 1) == SizeOf(n, k) + n
    decreases k
  {
    if k > 0 {
      SizeGrows(n, k - 1);
    }
  }

  /** Run first after the bus was got, the program leaves one entry in the table: the whole buffer. */
  lemma ProgramFillsTable(m: Machine, tib: Word, buf: Word, n: Word, k: Word, size: Word, fuel: nat)
    requires ReadsBlocks(m.mem, tib, buf, n, k) && k >= 1 && fuel > 2 * k && m.table == []
    requires size == k * n && buf + size <= 0x1_0000_0000
    ensures Exec(m, tib, fuel).0.table == [Entry(buf, size)]
  {
    hide ReadsBlocks, Exec, AddAll, Range;
    SizeIsProduct(n, k);
    BlocksRun(m, tib, buf, n, k, fuel);
    BlocksMerge(buf, n, k);
    ExecBuildsTable(m, tib, fuel);
  }
}
