/** Gathering scattered host memory into the flat SCSI data buffer, and scattering it back. */
module ScsiBuffer {
  import opened Bytes
  import opened ScsiTable

  predicate InMemory(e: Entry, size: nat) {
    0 <= e.ptr && e.ptr + e.len <= size
  }

  predicate AllInMemory(table: seq<Entry>, size: nat) {
    forall i | 0 <= i < |table| :: InMemory(table[i], size)
  }

  /** The buffer content that writing a command's data collects from memory. */
  function Gathered(mem: seq<Byte>, table: seq<Entry>): (r: seq<Byte>)
    requires AllInMemory(table, |mem|)
    ensures |r| == SumLen(table)
  {
    if table == [] then [] else
    var n := |table| - 1;
    Gathered(mem, table[..n]) + mem[table[n].ptr..table[n].ptr + table[n].len]
  }

  /** Memory after a command's data has been distributed, entry by entry. */
  function Scattered(mem: seq<Byte>, table: seq<Entry>, data: seq<Byte>): (r: seq<Byte>)
    requires AllInMemory(table, |mem|) && |data| == SumLen(table)
    ensures |r| == |mem|
    decreases |table|
  {
    if table == [] then mem else
    var n := |table| - 1;
    var m := SumLen(table[..n]);
    Overwrite(Scattered(mem, table[..n], data[..m]), table[n].ptr, data[m..])
  }

  /** Byte `k` of the buffer comes from the table's address `k`. */
  lemma {:induction false} GatheredAt(mem: seq<Byte>, table: seq<Entry>, k: nat)
    requires AllInMemory(table, |mem|) && k < SumLen(table)
    ensures |Addresses(table)| == SumLen(table) && 0 <= Addresses(table)[k] < |mem|
    ensures Gathered(mem, table)[k] == mem[Addresses(table)[k]]
    decreases |table|
  {
    GatheredParts(mem, table);
    var n := |table| - 1;
    var front, e := table[..n], table[n];
    hide *;
    if k < SumLen(front) {
      GatheredAt(mem, front, k);
    }
    LastPart(mem, e, Gathered(mem, front), Addresses(front), k);
  }

  lemma GatheredParts(mem: seq<Byte>, table: seq<Entry>)
    requires AllInMemory(table, |mem|) && SumLen(table) > 0
    ensures table != [] && var n := |table| - 1;
            var front, e := table[..n], table[n];
            && AllInMemory(front, |mem|) && 0 <= e.ptr && e.ptr + e.len <= |mem|
            && SumLen(table) == SumLen(front) + e.len
            && |Addresses(table)| == SumLen(table) && |Addresses(front)| == SumLen(front)
            && Addresses(table) == Addresses(front) + Range(e.ptr, e.len)
            && Gathered(mem, table) == Gathered(mem, front) + mem[e.ptr..e.ptr + e.len]
  {
    var n := |table| - 1;
    PrefixInMemory(table, n, |mem|);
    InMemoryAt(table, n, |mem|);
    AddressCount(table);
    AddressCount(table[..n]);
    hide AllInMemory, InMemory, Range;
  }

  lemma LastPart(mem: seq<Byte>, e: Entry, data: seq<Byte>, addrs: seq<int>, k: nat)
    requires 0 <= e.ptr && e.ptr + e.len <= |mem| && |data| == |addrs| && k < |data| + e.len
    requires k < |data| ==> 0 <= addrs[k] < |mem| && data[k] == mem[addrs[k]]
    ensures |Range(e.ptr, e.len)| == e.len
    ensures var a := (addrs + Range(e.ptr, e.len))[k]; 0 <= a < |mem| && (data + mem[e.ptr..e.ptr + e.len])[k] == mem[a]
  {
  }

  /** Equal addresses, equal data: gathering through the merged table is gathering the transfers
      one by one. */
  lemma GatherThroughMerged(mem: seq<Byte>, transfers: seq<Entry>)
    requires AllInMemory(transfers, |mem|) && AllInMemory(AddAll([], transfers), |mem|)
    requires NoneOverflows([], transfers)
    ensures Gathered(mem, AddAll([], transfers)) == Gathered(mem, transfers)
  {
    var table := AddAll([], transfers);
    AddAllAddresses([], transfers);
    AddAllSum([], transfers);
    assert Addresses(table) == Addresses(transfers);
    hide Gathered, AddAll, Addresses, SumLen, NoneOverflows, AllInMemory;
    forall k | 0 <= k < SumLen(transfers)
      ensures Gathered(mem, table)[k] == Gathered(mem, transfers)[k]
    {
      GatheredAt(mem, table, k);
      GatheredAt(mem, transfers, k);
    }
  }

  predicate Within(addrs: seq<int>, size: nat) {
    forall i | 0 <= i < |addrs| :: 0 <= addrs[i] < size
  }

  /** Memory with byte `k` of the data put at address `k`, one after the other. */
  function Placed(mem: seq<Byte>, addrs: seq<int>, data: seq<Byte>): (r: seq<Byte>)
    requires |addrs| == |data| && Within(addrs, |mem|)
    ensures |r| == |mem|
  {
    if addrs == [] then mem else
    var n := |addrs| - 1;
    Placed(mem, addrs[..n], data[..n])[addrs[n] := data[n]]
  }

  lemma {:induction false} PlacedAppend(mem: seq<Byte>, a: seq<int>, x: seq<Byte>, b: seq<int>, y: seq<Byte>)
    requires |a| == |x| && |b| == |y| && Within(a, |mem|) && Within(b, |mem|)
    ensures Placed(mem, a + b, x + y) == Placed(Placed(mem, a, x), b, y)
    decreases |b|
  {
    if b == [] {
      assert a + b == a && x + y == x;
    } else {
      var n := |b| - 1;
      PlacedAppend(mem, a, x, b[..n], y[..n]);
      assert (a + b)[..|a| + n] == a + b[..n] && (x + y)[..|x| + n] == x + y[..n];
      assert (a + b)[|a| + n] == b[n] && (x + y)[|x| + n] == y[n];
    }
  }

  /** A contiguous write is one byte after the other. */
  lemma {:induction false} OverwritePlaces(mem: seq<Byte>, at: nat, data: seq<Byte>)
    requires at + |data| <= |mem|
    ensures Within(Range(at, |data|), |mem|)
    ensures Overwrite(mem, at, data) == Placed(mem, Range(at, |data|), data)
    decreases |data|
  {
    var addrs := Range(at, |data|);
    if data == [] {
      assert Overwrite(mem, at, data) == mem;
    } else {
      var n := |data| - 1;
      OverwritePlaces(mem, at, data[..n]);
      OverwriteNext(mem, at, data[..n], data[n]);
      assert data == data[..n] + [data[n]] && addrs[..n] == Range(at, n) && addrs[n] == at + n;
      hide Overwrite, Range;
    }
  }

  lemma AddressesWithin(mem: seq<Byte>, table: seq<Entry>)
    requires AllInMemory(table, |mem|)
    ensures |Addresses(table)| == SumLen(table) && Within(Addresses(table), |mem|)
  {
    AddressCount(table);
    hide Addresses, SumLen, AllInMemory, Gathered;
    forall k | 0 <= k < |Addresses(table)|
      ensures 0 <= Addresses(table)[k] < |mem|
    {
      GatheredAt(mem, table, k);
    }
  }

  /** Scattering entry by entry is placing byte by byte at the table's addresses. */
  lemma {:induction false} ScatteredPlaces(mem: seq<Byte>, table: seq<Entry>, data: seq<Byte>)
    requires AllInMemory(table, |mem|) && |data| == SumLen(table)
    ensures |Addresses(table)| == |data| && Within(Addresses(table), |mem|)
    ensures Scattered(mem, table, data) == Placed(mem, Addresses(table), data)
    decreases |table|
  {
    AddressesWithin(mem, table);
    if table != [] {
      var n := |table| - 1;
      var front, e := table[..n], table[n];
      var m := SumLen(front);
      PrefixInMemory(table, n, |mem|);
      InMemoryAt(table, n, |mem|);
      AddressesWithin(mem, front);
      assert Addresses(table) == Addresses(front) + Range(e.ptr, e.len);
      assert Scattered(mem, table, data) == Overwrite(Scattered(mem, front, data[..m]), e.ptr, data[m..]);
      hide Addresses, SumLen, AllInMemory, InMemory, Scattered, Overwrite, Range, Placed;
      ScatteredPlaces(mem, front, data[..m]);
      OverwritePlaces(Scattered(mem, front, data[..m]), e.ptr, data[m..]);
      PlacedAppend(mem, Addresses(front), data[..m], Range(e.ptr, e.len), data[m..]);
      assert data == data[..m] + data[m..];
    }
  }

  /** Distributing data through the merged table is distributing it transfer by transfer, also where
      transfers overlap. */
  lemma ScatterThroughMerged(mem: seq<Byte>, transfers: seq<Entry>, data: seq<Byte>)
    requires AllInMemory(transfers, |mem|) && AllInMemory(AddAll([], transfers), |mem|)
    requires NoneOverflows([], transfers) && |data| == SumLen(transfers)
    ensures SumLen(AddAll([], transfers)) == |data|
    ensures Scattered(mem, AddAll([], transfers), data) == Scattered(mem, transfers, data)
  {
    var table := AddAll([], transfers);
    AddAllSum([], transfers);
    AddAllAddresses([], transfers);
    assert Addresses(table) == Addresses(transfers);
    hide Addresses, AddAll, NoneOverflows, AllInMemory, Scattered, Placed, Within;
    ScatteredPlaces(mem, table, data);
    ScatteredPlaces(mem, transfers, data);
  }

  /** The merged table lies in memory where the transfers do. */
  lemma {:induction false} MergedInMemory(transfers: seq<Entry>, size: nat)
    requires AllInMemory(transfers, size) && NoneOverflows([], transfers)
    ensures AllInMemory(AddAll([], transfers), size)
  {
    if transfers != [] {
      var n := |transfers| - 1;
      PrefixInMemory(transfers, n, size);
      MergedInMemory(transfers[..n], size);
      InMemoryAt(transfers, n, size);
      AddInMemory(AddAll([], transfers[..n]), transfers[n], size);
    }
    hide AllInMemory, Overflows, Add;
  }

  lemma AddInMemory(table: seq<Entry>, t: Entry, size: nat)
    requires AllInMemory(table, size) && 0 <= t.ptr && t.ptr + t.len <= size && !Overflows(table, t)
    ensures AllInMemory(Add(table, t), size)
  {
    if Continues(table, t.ptr) {
      InMemoryAt(table, |table| - 1, size);
      WrapOnce(table[|table| - 1].len + t.len);
    }
    hide Wrap32;
  }

  /** Scattering what was gathered restores memory, overlapping entries included. */
  lemma {:induction false} ScatterGatheredRestores(mem: seq<Byte>, table: seq<Entry>)
    requires AllInMemory(table, |mem|)
    ensures Scattered(mem, table, Gathered(mem, table)) == mem
    decreases |table|
  {
    if table != [] {
      var n := |table| - 1;
      var g := Gathered(mem, table);
      var m := SumLen(table[..n]);
      ScatterGatheredRestores(mem, table[..n]);
      assert g[..m] == Gathered(mem, table[..n]);
      assert g[m..] == mem[table[n].ptr..table[n].ptr + table[n].len];
    }
  }

  lemma RangeHas(ptr: int, len: nat, a: int)
    ensures a in Range(ptr, len) <==> ptr <= a < ptr + len
  {
    if ptr <= a < ptr + len {
      assert Range(ptr, len)[a - ptr] == a;
    }
  }

  lemma DistinctTail(before: seq<int>, tail: seq<int>, k: nat)
    requires NoDuplicates(before + tail) && k < |before|
    ensures before[k] !in tail
  {
    forall j | 0 <= j < |tail|
      ensures tail[j] != before[k]
    {
      assert (before + tail)[k] != (before + tail)[|before| + j];
    }
  }

  /** With distinct addresses, scattering puts byte `k` at address `k` and leaves the rest. */
  lemma {:induction false} ScatteredAt(mem: seq<Byte>, table: seq<Entry>, data: seq<Byte>)
    requires AllInMemory(table, |mem|) && |data| == SumLen(table) && NoDuplicates(Addresses(table))
    ensures |Addresses(table)| == |data|
    ensures forall k | 0 <= k < |data| :: 0 <= Addresses(table)[k] < |mem|
    ensures forall k | 0 <= k < |data| :: Scattered(mem, table, data)[Addresses(table)[k]] == data[k]
    ensures forall a | 0 <= a < |mem| && a !in Addresses(table) :: Scattered(mem, table, data)[a] == mem[a]
    decreases |table|
  {
    AddressCount(table);
    if table != [] {
      var n := |table| - 1;
      var front, e := table[..n], table[n];
      var m := SumLen(front);
      AddressCount(front);
      var all, before := Addresses(table), Addresses(front);
      assert all == before + Range(e.ptr, e.len);
      assert NoDuplicates(before) by {
        assert forall i | 0 <= i < |before| :: all[i] == before[i];
      }
      ScatteredAt(mem, front, data[..m]);
      var mid := Scattered(mem, front, data[..m]);
      forall k | 0 <= k < |data|
        ensures 0 <= all[k] < |mem| && Overwrite(mid, e.ptr, data[m..])[all[k]] == data[k]
      {
        if k < m {
          assert all[k] == before[k] && 0 <= before[k] < |mem|;
          DistinctTail(before, Range(e.ptr, e.len), k);
          RangeHas(e.ptr, e.len, before[k]);
        } else {
          assert all[k] == e.ptr + (k - m);
        }
      }
      forall a | 0 <= a < |mem| && a !in all
        ensures Overwrite(mid, e.ptr, data[m..])[a] == mem[a]
      {
        RangeHas(e.ptr, e.len, a);
        assert a !in before && a !in Range(e.ptr, e.len);
      }
    }
  }

  lemma DistinctGathersBack(mem: seq<Byte>, table: seq<Entry>, data: seq<Byte>)
    requires AllInMemory(table, |mem|) && |data| == SumLen(table) && NoDuplicates(Addresses(table))
    ensures GathersBack(mem, table, data)
  {
    ScatteredAt(mem, table, data);
    var after := Scattered(mem, table, data);
    hide Scattered, NoDuplicates;
    forall k | 0 <= k < |data|
      ensures Gathered(after, table)[k] == data[k]
    {
      GatheredAt(after, table, k);
    }
  }

  lemma SharedAddressLosesData(mem: seq<Byte>, table: seq<Entry>, i: nat, j: nat, data: seq<Byte>)
    requires AllInMemory(table, |mem|) && |data| == SumLen(table)
    requires i < j < |Addresses(table)| == |data| && Addresses(table)[i] == Addresses(table)[j] && data[i] != data[j]
    ensures !GathersBack(mem, table, data)
  {
    var after := Scattered(mem, table, data);
    hide Scattered;
    GatheredAt(after, table, i);
    GatheredAt(after, table, j);
  }

  /** Gathering again gives back whatever was scattered, for all data, exactly when no address
      occurs twice in the table. */
  lemma ScatterThenGather(mem: seq<Byte>, table: seq<Entry>)
    requires AllInMemory(table, |mem|)
    ensures (forall data | |data| == SumLen(table) :: GathersBack(mem, table, data))
       <==> NoDuplicates(Addresses(table))
  {
    AddressCount(table);
    hide GathersBack, Addresses, SumLen;
    if NoDuplicates(Addresses(table)) {
      forall data: seq<Byte> | |data| == SumLen(table)
        ensures GathersBack(mem, table, data)
      {
        DistinctGathersBack(mem, table, data);
      }
    } else {
      var i, j :| 0 <= i < j < |Addresses(table)| && Addresses(table)[i] == Addresses(table)[j];
      var data: seq<Byte> := seq(SumLen(table), k => if k == i then 1 else 0);
      SharedAddressLosesData(mem, table, i, j, data);
    }
  }

  ghost predicate GathersBack(mem: seq<Byte>, table: seq<Entry>, data: seq<Byte>)
    requires AllInMemory(table, |mem|) && |data| == SumLen(table)
  {
    Gathered(Scattered(mem, table, data), table) == data
  }

  // ---------- the copying loops ----------

  /** `memcpy` between two different arrays. */
  method CopyBytes(dst: array<Byte>, to: nat, src: array<Byte>, from: nat, len: nat)
    requires dst != src && to + len <= dst.Length && from + len <= src.Length
    modifies dst
    ensures dst[..] == Overwrite(old(dst[..]), to, src[from..from + len])
  {
    ghost var mem := dst[..];
    assert dst[..] == Overwrite(mem, to, []);
    hide Overwrite;
    for i := 0 to len
      invariant dst[..] == Overwrite(mem, to, src[from..from + i])
    {
      ghost var data := src[from..from + i];
      OverwriteNext(mem, to, data, src[from + i]);
      dst[to + i] := src[from + i];
      assert src[from..from + i + 1] == data + [src[from + i]];
    }
  }

  lemma OverwriteNext(mem: seq<Byte>, at: nat, data: seq<Byte>, b: Byte)
    requires at + |data| < |mem|
    ensures Overwrite(mem, at, data + [b]) == Overwrite(mem, at, data)[at + |data| := b]
  {
  }

  lemma OverwriteParts(mem: seq<Byte>, at: nat, data: seq<Byte>)
    requires at + |data| <= |mem|
    ensures var r, end := Overwrite(mem, at, data), at + |data|;
            r[..end] == mem[..at] + data && r[end..] == mem[at..][|data|..]
  {
  }

  lemma InMemoryAt(table: seq<Entry>, i: nat, size: nat)
    requires AllInMemory(table, size) && i < |table|
    ensures 0 <= table[i].ptr && table[i].ptr + table[i].len <= size
  {
    assert InMemory(table[i], size);
  }

  lemma NextSum(table: seq<Entry>, i: nat)
    requires i < |table|
    ensures SumLen(table[..i + 1]) == SumLen(table[..i]) + table[i].len
  {
    assert table[..i + 1][..i] == table[..i];
  }

  lemma PrefixInMemory(table: seq<Entry>, i: nat, size: nat)
    requires AllInMemory(table, size) && i <= |table|
    ensures AllInMemory(table[..i], size)
  {
    hide InMemory;
  }

  lemma GatheredUnfolds(mem: seq<Byte>, table: seq<Entry>)
    requires AllInMemory(table, |mem|) && table != []
    ensures var n := |table| - 1;
      && AllInMemory(table[..n], |mem|) && 0 <= table[n].ptr && table[n].ptr + table[n].len <= |mem|
      && Gathered(mem, table) == Gathered(mem, table[..n]) + mem[table[n].ptr..table[n].ptr + table[n].len]
  {
    var n := |table| - 1;
    InMemoryAt(table, n, |mem|);
    PrefixInMemory(table, n, |mem|);
    hide InMemory, AllInMemory, SumLen;
  }

  lemma GatheredLast(mem: seq<Byte>, table: seq<Entry>, e: Entry)
    requires AllInMemory(table, |mem|) && AllInMemory(table + [e], |mem|)
    ensures 0 <= e.ptr && e.ptr + e.len <= |mem|
    ensures Gathered(mem, table + [e]) == Gathered(mem, table) + mem[e.ptr..e.ptr + e.len]
  {
    hide *;
    FrontAndLast(table, e);
    GatheredUnfolds(mem, table + [e]);
  }

  lemma LastOfPrefix(table: seq<Entry>, i: nat)
    requires i < |table|
    ensures table[..i + 1] == table[..i] + [table[i]]
  {
  }

  lemma PrefixGathered(mem: seq<Byte>, table: seq<Entry>, i: nat)
    requires AllInMemory(table, |mem|) && i < |table|
    ensures AllInMemory(table[..i], |mem|) && AllInMemory(table[..i + 1], |mem|)
    ensures 0 <= table[i].ptr && table[i].ptr + table[i].len <= |mem|
    ensures Gathered(mem, table[..i + 1]) == Gathered(mem, table[..i]) + mem[table[i].ptr..table[i].ptr + table[i].len]
  {
    hide *;
    var t, e := table[..i], table[i];
    PrefixInMemory(table, i, |mem|);
    PrefixInMemory(table, i + 1, |mem|);
    LastOfPrefix(table, i);
    GatheredLast(mem, t, e);
  }

  /** The status of the last device request: completed, or not, perhaps with sense data. */
  datatype Cam = Completed | Incomplete(sense: Option<seq<Byte>>)

  /** The device's answer to a request: the data it transfers, whether the request could be made, and
      its status. */
  datatype Reply = Reply(answer: seq<Byte>, made: bool, status: int, cam: Cam)

  /** The request for sense data that is answered from what the last request left. */
  predicate Faked(cam: Cam, command: seq<Byte>) {
    command != [] && command[0] == 3 && cam.Incomplete? && cam.sense.Some?
  }

  predicate ShortSense(cam: Cam) {
    cam.Incomplete? && cam.sense.Some? ==> |cam.sense.value| <= 256
  }

  class DataBuffer {
    var buffer: array<Byte>
    const requested: array<Byte>     // what the device request points to, set once and for all
    var cam: Cam

    predicate Valid()
      reads this
    {
      buffer.Length >= 256 && ShortSense(cam)
    }

    /** The device works on the buffer that the loops work on. */
    predicate Linked()
      reads this
    {
      buffer == requested
    }

    constructor ()
      ensures Valid() && Linked() && fresh(buffer) && buffer.Length == 0x1_0000 && cam == Incomplete(None)
    {
      var b := new Byte[0x1_0000];
      buffer, requested, cam := b, b, Incomplete(None);
    }

    /** Selecting another target clears the sense data. */
    method SetTarget(other: bool)
      requires Valid()
      modifies `cam
      ensures Valid() && cam == if other && old(cam).Incomplete? then Incomplete(None) else old(cam)
    {
      if other && cam.Incomplete? {
        cam := Incomplete(None);
      }
    }

    /** Makes sure `size` bytes fit; `gotMemory` says whether new memory could be had.  The size is
        compared as an unsigned 32-bit number. */
    method TryBuffer(size: Word, gotMemory: bool) returns (ok: bool)
      modifies `buffer
      ensures ok <==> size <= old(buffer.Length) || gotMemory
      ensures ok ==> size <= buffer.Length
      ensures size <= old(buffer.Length) || !ok ==> buffer == old(buffer)
      ensures !(size <= old(buffer.Length) || !ok) ==> fresh(buffer) && buffer.Length == size
    {
      if size <= buffer.Length {
        return true;
      }
      if !gotMemory {
        return false;
      }
      buffer := new Byte[size];
      return true;
    }

    /** Collects the data to be written; never leaves the buffer. */
    method Gather(host: array<Byte>, table: seq<Entry>)
      requires host != buffer && AllInMemory(table, host.Length) && SumLen(table) <= buffer.Length
      modifies buffer
      ensures buffer[..SumLen(table)] == Gathered(host[..], table)
      ensures buffer[SumLen(table)..] == old(buffer[..])[SumLen(table)..]
    {
      var pos := 0;
      ghost var mem, before := host[..], buffer[..];
      assert Gathered(mem, table[..0]) == [] && SumLen(table[..0]) == 0;
      hide InMemory, Overwrite, Gathered, AllInMemory, SumLen;
      for i := 0 to |table|
        invariant pos == SumLen(table[..i]) <= SumLen(table) && AllInMemory(table[..i], |mem|)
        invariant buffer[..pos] == Gathered(mem, table[..i]) && buffer[pos..] == before[pos..]
      {
        PrefixSum(table, i + 1);
        NextSum(table, i);
        GatherOne(host, table, i, pos);
        pos := pos + table[i].len;
      }
      assert table[..|table|] == table;
    }

    method GatherOne(host: array<Byte>, table: seq<Entry>, i: nat, pos: nat)
      requires host != buffer && AllInMemory(table, host.Length) && i < |table| && pos + table[i].len <= buffer.Length
      requires AllInMemory(table[..i], host.Length) && buffer[..pos] == Gathered(host[..], table[..i])
      modifies buffer
      ensures AllInMemory(table[..i + 1], host.Length)
      ensures buffer[..pos + table[i].len] == Gathered(host[..], table[..i + 1])
      ensures buffer[pos + table[i].len..] == old(buffer[pos..])[table[i].len..]
    {
      hide InMemory, Overwrite, Gathered, AllInMemory, SumLen;
      var e := table[i];
      PrefixGathered(host[..], table, i);
      OverwriteParts(buffer[..], pos, host[e.ptr..e.ptr + e.len]);
      CopyBytes(buffer, pos, host, e.ptr, e.len);
    }

    /** Distributes the data that was read; never reads beyond the buffer. */
    method Scatter(host: array<Byte>, table: seq<Entry>)
      requires host != buffer && AllInMemory(table, host.Length) && SumLen(table) <= buffer.Length
      modifies host
      ensures host[..] == Scattered(old(host[..]), table, buffer[..SumLen(table)])
    {
      hide Overwrite, InMemory;
      var pos := 0;
      ghost var mem := host[..];
      for i := 0 to |table|
        invariant pos == SumLen(table[..i]) <= SumLen(table)
        invariant AllInMemory(table[..i], |mem|)
        invariant host[..] == Scattered(mem, table[..i], buffer[..pos])
      {
        var e := table[i];
        InMemoryAt(table, i, |mem|);
        assert table[..i + 1][..i] == table[..i];
        PrefixSum(table, i + 1);
        assert buffer[..pos + e.len][..pos] == buffer[..pos];
        assert buffer[..pos + e.len][pos..] == buffer[pos..pos + e.len];
        CopyBytes(host, e.ptr, buffer, pos, e.len);
        pos := pos + e.len;
      }
      assert table[..|table|] == table;
    }

    /** `scsi_send_cmd` for a table whose bytes number less than 2^32.  Data to be written are
        collected before, data read are distributed after the command.  `sent` is what the device gets,
        if it gets something; `data` what is distributed, if it is.  The device request keeps pointing
        to the first buffer, so that once a command has needed a larger one the device neither gets
        what was collected nor fills what is distributed. */
    method SendCmd(host: array<Byte>, table: seq<Entry>, reading: bool, command: seq<Byte>,
                   gotMemory: bool, reply: Reply)
      returns (success: bool, stat: Option<int>, sent: Option<seq<Byte>>, ghost data: seq<Byte>)
      requires Valid() && ShortSense(reply.cam) && host != buffer && host != requested
      requires AllInMemory(table, host.Length) && SumLen(table) < 0x1_0000_0000 && |reply.answer| == SumLen(table)
      modifies this, buffer, host
      ensures Valid() && (buffer == old(buffer) || fresh(buffer))
      ensures var ran, faked := SumLen(table) <= old(buffer.Length) || gotMemory, Faked(old(cam), command);
        && success == (ran && (faked || reply.made))
        && stat == (if ran && !faked then Some(reply.status) else None)
        && cam == (if !ran then old(cam) else if faked then Completed else reply.cam)
        && (ran && old(Linked()) ==> (Linked() <==> SumLen(table) <= old(buffer.Length)))
        && (ran && !faked && !reading && Linked() ==> sent == Some(Gathered(old(host[..]), table)))
        && host[..] == (if ran && reading && cam.Completed? && |data| == SumLen(table)
                        then Scattered(old(host[..]), table, data) else old(host[..]))
        && |data| == SumLen(table)
        && (ran && reading && !faked && Linked() ==> data == reply.answer)
        && (ran && reading && faked ==>
              forall k | 0 <= k < |data| && k < |old(cam).sense.value| :: data[k] == old(cam).sense.value[k])
    {
      hide Gathered, Scattered, Overwrite, InMemory, SumLen, AllInMemory;
      stat, sent, data := None, None, reply.answer;
      FitsInBuffer(table);
      ghost var before := host[..];
      var ok := TryBuffer(TotalOf(table), gotMemory);
      if !ok {
        return false, None, None, data;
      }
      if !reading {
        Gather(host, table);
      }
      success, stat, sent := Request(reading, command, SumLen(table), reply);
      if reading && cam.Completed? {
        data := buffer[..SumLen(table)];
        Scatter(host, table);
      }
    }

    /** The command itself, or its answer from the sense data at hand. */
    method Request(reading: bool, command: seq<Byte>, n: nat, reply: Reply)
      returns (success: bool, stat: Option<int>, sent: Option<seq<Byte>>)
      requires Valid() && ShortSense(reply.cam) && n <= buffer.Length && |reply.answer| == n
      modifies `cam, buffer
      ensures Valid()
      ensures var faked := Faked(old(cam), command);
        && success == (faked || reply.made) && stat == (if faked then None else Some(reply.status))
        && cam == (if faked then Completed else reply.cam)
        && (!faked && !reading && Linked() ==> sent == Some(old(buffer[..n])))
        && (!faked && reading && Linked() ==> buffer[..n] == reply.answer)
        && (faked ==> forall k | 0 <= k < n && k < |old(cam).sense.value| :: buffer[k] == old(cam).sense.value[k])
    {
      sent := None;
      if Faked(cam, command) {
        Receive(cam.sense.value);
        cam := Completed;
        return true, None, None;
      }
      if buffer == requested {
        if reading {
          Receive(reply.answer);
        } else {
          sent := Some(buffer[..n]);
        }
      }
      cam := reply.cam;
      return reply.made, Some(reply.status), sent;
    }

    /** The device's transfer into the buffer. */
    method Receive(answer: seq<Byte>)
      requires |answer| <= buffer.Length
      modifies buffer
      ensures buffer[..|answer|] == answer
    {
      for i := 0 to |answer|
        invariant forall j | 0 <= j < i :: buffer[j] == answer[j]
      {
        buffer[i] := answer[i];
      }
    }
  }

  lemma {:induction false} PrefixSum(table: seq<Entry>, i: nat)
    requires i <= |table|
    ensures SumLen(table[..i]) <= SumLen(table)
    decreases |table| - i
  {
    if i < |table| {
      assert table[..i + 1][..i] == table[..i];
      PrefixSum(table, i + 1);
    } else {
      assert table[..i] == table;
    }
  }

  /** The 32-bit total of the table's lengths. */
  function TotalOf(table: seq<Entry>): Word {
    Wrap32(SumLen(table))
  }

  /** The size the buffer is checked against, a 32-bit total, covers what the loops will move exactly
      when that is less than 2^32 bytes. */
  lemma FitsInBuffer(table: seq<Entry>)
    ensures SumLen(table) <= TotalOf(table) <==> SumLen(table) < 0x1_0000_0000
    ensures SumLen(table) < 0x1_0000_0000 ==> TotalOf(table) == SumLen(table)
  {
    WrapIsSmall(SumLen(table));
  }

  lemma WrapIsSmall(n: nat)
    ensures n <= Wrap32(n) <==> n < 0x1_0000_0000
    ensures n < 0x1_0000_0000 ==> Wrap32(n) == n
  {
  }
}
