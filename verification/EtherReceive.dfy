/** Distribution of a received packet to the streams that want it. */
module EtherReceive {
  import opened Bytes
  import opened EtherBits
  import opened EtherFrame
  import opened EtherStream
  import opened EtherDriver
  import opened EtherMessage

  function Bits(b: Byte): bv8 {
    b as bv8
  }

  function Octet(frame: seq<Byte>, i: nat): bv8 {
    Bits(At(frame, i))
  }

  function LowOctet(sap: int): bv8 {
    (sap % 256) as bv8
  }

  /** The destination hardware address. */
  function Target(frame: seq<Byte>): (mac: seq<bv8>)
    ensures |mac| == 6
  {
    [Octet(frame, 0), Octet(frame, 1), Octet(frame, 2), Octet(frame, 3), Octet(frame, 4), Octet(frame, 5)]
  }

  /** The SNAP of the frame. */
  function SnapOf(frame: seq<Byte>): (snap: seq<bv8>)
    ensures |snap| == 5
  {
    [Octet(frame, 17), Octet(frame, 18), Octet(frame, 19), Octet(frame, 20), Octet(frame, 21)]
  }

  /** The stream is bound to what the frame is addressed to. */
  predicate Addressed(st: Dlpi, frame: seq<Byte>) {
    var sap, kind := FrameDestSap(frame), ReceivedType(frame);
    || (st.acceptAll && sap <= 0xff)
    || (if sap == st.dlsap then !st.snapStream || st.snap == SnapOf(frame)
        else (kind.Sap? || kind.Snap?) && Odd(LowOctet(sap)) && LowOctet(sap) in st.groups)
  }

  /** The stream gets the frame. */
  predicate Wants(st: Dlpi, frame: seq<Byte>) {
    && st.bound
    && Addressed(st, frame)
    && (AddressTypeOf(Target(frame)).Multicast? && st.acceptMulticasts ==> Target(frame) in st.multicasts)
  }

  lemma OrIsZero(a: bv8, b: bv8)
    ensures a | b == 0 <==> a == 0 && b == 0
  {
  }

  lemma XorIsZero(a: bv8, b: bv8)
    ensures a ^ b == 0 <==> a == b
  {
  }

  function Or(a: bv8, b: bv8): bv8 {
    a | b
  }

  function Xor(a: bv8, b: bv8): bv8 {
    a ^ b
  }

  /** Comparing two SNAPs byte by byte, differences collected in one byte. */
  method SnapsDiffer(a: seq<bv8>, b: seq<bv8>) returns (sum: bv8)
    requires |a| == 5 && |b| == 5
    ensures sum == 0 <==> a == b
  {
    hide Or, Xor;
    sum := Xor(a[0], b[0]);
    XorFacts(a[0], b[0]);
    for i := 1 to 5
      invariant sum == 0 <==> forall j | 0 <= j < i :: a[j] == b[j]
    {
      XorFacts(a[i], b[i]);
      OrFacts(sum, Xor(a[i], b[i]));
      sum := Or(sum, Xor(a[i], b[i]));
    }
  }

  lemma XorFacts(a: bv8, b: bv8)
    ensures Xor(a, b) == 0 <==> a == b
  {
    XorIsZero(a, b);
  }

  lemma OrFacts(a: bv8, b: bv8)
    ensures Or(a, b) == 0 <==> a == 0 && b == 0
  {
    OrIsZero(a, b);
  }

  /** The decision for one stream, in the order of the code. */
  method Decide(stream: Stream, frame: seq<Byte>) returns (wanted: bool)
    requires stream.Valid() && |stream.snap| == 5
    ensures wanted <==> Wants(stream.Abs(), frame)
  {
    hide Has, AddressTypeOf, Groups, Odd, LowOctet, Octet, Classify, Field16, At;
    if stream.dlpiState == DL_UNBOUND {
      return false;
    }
    var sap := FrameDestSap(frame);
    var found := Has(stream.flags, ACCEPT_ALL_8022) && sap <= 0xff;
    if !found {
      if sap == stream.dlsap {
        if Has(stream.flags, SNAP_STREAM) {
          var sum := SnapsDiffer(SnapOf(frame), stream.snap);
          found := sum == 0;
        } else {
          found := true;
        }
      } else if (ReceivedType(frame).Sap? || ReceivedType(frame).Snap?) && Odd(LowOctet(sap)) {
        found := stream.TestGroupSAP(LowOctet(sap));
      }
    }
    if !found {
      return false;
    }
    if AddressTypeOf(Target(frame)).Multicast? && Has(stream.flags, ACCEPT_MULTICASTS) {
      var node, _ := stream.multicasts.Find(Target(frame));
      wanted := node != null;
    } else {
      wanted := true;
    }
  }

  /** What a stream is given: the bare data, or the data behind a DL_UNITDATA_IND, or nothing when
      the indication could not be allocated. */
  datatype Outcome = Bare | Indication(dest: seq<Byte>, source: seq<Byte>, kind: AddressType) | NoMemory

  datatype Handed = Handed(stream: Stream, block: Block, outcome: Outcome)

  function AddressField(frame: seq<Byte>, mac: nat, sap: nat): seq<Byte>
    requires mac + 6 <= |frame|
  {
    frame[mac..mac + 6] + [0, At(frame, sap)]
    + if ReceivedType(frame).Snap? && 22 <= |frame| then frame[17..22] else []
  }

  /** What `handle_received_packet` does for a stream, given whether memory is left. */
  function OutcomeFor(fast: bool, frame: seq<Byte>, gotMemory: bool): Outcome
    requires |frame| >= 22
  {
    var kind := AddressTypeOf(Target(frame));
    if fast && kind.Standard? then Bare
    else if !gotMemory then NoMemory
    else Indication(AddressField(frame, 0, 14), AddressField(frame, 6, 15), kind)
  }

  /** `dupmsg`: a second view of the same data. */
  method DupMsg(mp: Block) returns (dup: Block)
    requires Ok(mp)
    modifies mp.data`refs
    ensures fresh(dup) && dup.data == mp.data && Ok(dup) && dup.rptr == mp.rptr && dup.wptr == mp.wptr
    ensures mp.data.refs == old(mp.data.refs) + 1
  {
    dup := new Block(mp.data);
    dup.rptr, dup.wptr := mp.rptr, mp.wptr;
    mp.data.refs := mp.data.refs + 1;
  }

  /** `handle_received_packet`. */
  method Handle(pool: Pool, stream: Stream, mp: Block, gotMemory: bool) returns (outcome: Outcome)
    requires Ok(mp) && |Text(mp)| >= 22
    modifies pool`freed, mp`rptr, mp.data`refs
    ensures outcome == OutcomeFor(Has(stream.flags, FAST_PATH), old(Text(mp)), gotMemory)
    ensures !outcome.NoMemory? ==> Ok(mp) && Text(mp) == Stripped(old(Text(mp)))
                                   && pool.freed == old(pool.freed) && mp.data.refs == old(mp.data.refs)
    ensures outcome.NoMemory? ==> pool.freed == old(pool.freed) + [mp] && mp.rptr == old(mp.rptr)
  {
    hide Has, AddressTypeOf, Classify, Field16, At, AddressField, Target;
    var frame := mp.data.bytes[mp.rptr..mp.wptr];
    var t := ReceivedType(frame);
    var kind := AddressTypeOf(Target(frame));
    if Has(stream.flags, FAST_PATH) && kind.Standard? {
      mp.rptr := mp.rptr + HeaderLen(t);
      return Bare;
    }
    if !gotMemory {
      FreeB(pool, mp);
      return NoMemory;
    }
    outcome := Indication(AddressField(frame, 0, 14), AddressField(frame, 6, 15), kind);
    mp.rptr := mp.rptr + HeaderLen(t);
  }

  /** The streams with their bitmaps and multicast lists. */
  ghost function Parts(streams: seq<Stream>): set<object>
    reads set i | 0 <= i < |streams| :: streams[i].multicasts
  {
    (set i | 0 <= i < |streams| :: streams[i]) + (set i | 0 <= i < |streams| :: streams[i].groupSap)
    + (set i | 0 <= i < |streams| :: streams[i].multicasts)
    + (set i, n | 0 <= i < |streams| && n in streams[i].multicasts.repr :: n)
  }

  ghost predicate AllValid(streams: seq<Stream>)
    reads Parts(streams)
  {
    forall i | 0 <= i < |streams| :: streams[i].Valid() && |streams[i].snap| == 5
  }

  ghost function States(streams: seq<Stream>): (sts: seq<Dlpi>)
    requires AllValid(streams)
    reads Parts(streams)
    ensures |sts| == |streams|
  {
    seq(|streams|, i requires 0 <= i < |streams|
                     reads Parts(streams)
                     requires AllValid(streams) => streams[i].Abs())
  }

  /** The positions of the streams that want the frame, in list order. */
  function Takers(sts: seq<Dlpi>, frame: seq<Byte>): (r: seq<nat>)
    ensures forall k | 0 <= k < |r| :: r[k] < |sts|
  {
    if sts == [] then [] else
    var n := |sts| - 1;
    Takers(sts[..n], frame) + if Wants(sts[n], frame) then [n] else []
  }

  /** The takers are exactly the streams that want the frame, in order and once each. */
  lemma {:induction false} TakersAre(sts: seq<Dlpi>, frame: seq<Byte>)
    ensures var r := Takers(sts, frame);
      && (forall i | 0 <= i < |sts| :: i in r <==> Wants(sts[i], frame))
      && (forall j, k | 0 <= j < k < |r| :: r[j] < r[k])
    decreases |sts|
  {
    hide Wants;
    if sts != [] {
      var n := |sts| - 1;
      TakersAre(sts[..n], frame);
      assert forall i | 0 <= i < n :: sts[..n][i] == sts[i];
    }
  }

  /** The blocks given up for lack of memory. */
  ghost function Lost(handed: seq<Handed>): seq<Block> {
    if handed == [] then [] else
    var n := |handed| - 1;
    Lost(handed[..n]) + if handed[n].outcome.NoMemory? then [handed[n].block] else []
  }

  /** A stream was served: its own view of the data, minus the header. */
  ghost predicate Served(h: Handed, data: DataBlock, frame: seq<Byte>)
    reads h.block`data, h.block`rptr, h.block`wptr, h.block.data`bytes
  {
    h.block.data == data && (!h.outcome.NoMemory? ==> Ok(h.block) && Text(h.block) == Stripped(frame))
  }

  ghost function Blocks(handed: seq<Handed>): set<Block> {
    set i | 0 <= i < |handed| :: handed[i].block
  }

  ghost predicate AllServed(handed: seq<Handed>, data: DataBlock, frame: seq<Byte>)
    reads Blocks(handed)`data, Blocks(handed)`rptr, Blocks(handed)`wptr, data`bytes
  {
    forall i | 0 <= i < |handed| :: handed[i].block.data == data && Served(handed[i], data, frame)
  }

  ghost predicate DifferentBlocks(handed: seq<Handed>) {
    forall i, j | 0 <= i < j < |handed| :: handed[i].block != handed[j].block
  }

  /** The streams at the positions `order`, in that order, got what they are due. */
  ghost predicate HandedTo(handed: seq<Handed>, streams: seq<Stream>, order: seq<nat>, sts: seq<Dlpi>,
                           memory: seq<bool>, frame: seq<Byte>)
    requires |frame| >= 22 && |sts| == |streams| == |memory|
    requires forall k | 0 <= k < |order| :: order[k] < |streams|
  {
    |handed| == |order|
    && forall k | 0 <= k < |handed| ::
      handed[k].stream == streams[order[k]]
      && handed[k].outcome == OutcomeFor(sts[order[k]].fastPath, frame, memory[order[k]])
  }

  /** Duplicating a message leaves the streams alone. */
  method DupBeside(ghost streams: seq<Stream>, mp: Block) returns (dup: Block)
    requires AllValid(streams) && Ok(mp)
    modifies mp.data`refs
    ensures fresh(dup) && dup.data == mp.data && Ok(dup) && Ok(mp) && Text(dup) == Text(mp) == old(Text(mp))
    ensures AllValid(streams) && States(streams) == old(States(streams))
  {
    ghost var before := States(streams);
    dup := DupMsg(mp);
    assert forall i | 0 <= i < |streams| :: streams[i].Valid() && |streams[i].snap| == 5;
    assert forall i | 0 <= i < |streams| :: States(streams)[i] == before[i];
  }

  /** So does serving one. */
  method HandleBeside(ghost streams: seq<Stream>, pool: Pool, stream: Stream, mp: Block, gotMemory: bool)
    returns (outcome: Outcome)
    requires AllValid(streams)
    requires Ok(mp) && |Text(mp)| >= 22
    modifies pool`freed, mp`rptr, mp.data`refs
    ensures outcome == OutcomeFor(Has(stream.flags, FAST_PATH), old(Text(mp)), gotMemory)
    ensures !outcome.NoMemory? ==> Ok(mp) && Text(mp) == Stripped(old(Text(mp)))
                                   && pool.freed == old(pool.freed) && mp.data.refs == old(mp.data.refs)
    ensures outcome.NoMemory? ==> pool.freed == old(pool.freed) + [mp] && mp.rptr == old(mp.rptr)
    ensures AllValid(streams) && States(streams) == old(States(streams))
  {
    hide OutcomeFor, Stripped;
    ghost var before := States(streams);
    outcome := Handle(pool, stream, mp, gotMemory);
    assert forall i | 0 <= i < |streams| :: streams[i].Valid() && |streams[i].snap| == 5;
    assert forall i | 0 <= i < |streams| :: States(streams)[i] == before[i];
  }

  /** Handing one more stream its view. */
  method HandOver(pool: Pool, streams: seq<Stream>, ghost sts: seq<Dlpi>, at: nat, view: Block, memory: seq<bool>,
                  ghost before: seq<Handed>, ghost order: seq<nat>, ghost frame: seq<Byte>)
    returns (ghost handed: seq<Handed>)
    requires at < |streams| == |memory| && AllValid(streams) && sts == States(streams)
    requires Ok(view) && Text(view) == frame && |frame| >= 22
    requires forall k | 0 <= k < |order| :: order[k] < |streams|
    requires HandedTo(before, streams, order, sts, memory, frame)
    requires AllServed(before, view.data, frame) && view !in Blocks(before) && DifferentBlocks(before)
    modifies pool`freed, view`rptr, view.data`refs
    ensures AllValid(streams) && sts == States(streams)
    ensures |handed| == |before| + 1 && handed[|before|].block == view
    ensures forall k | 0 <= k < |before| :: handed[k] == before[k]
    ensures HandedTo(handed, streams, order + [at], sts, memory, frame)
    ensures AllServed(handed, view.data, frame) && DifferentBlocks(handed)
    ensures var lost := if handed[|before|].outcome.NoMemory? then [view] else [];
      pool.freed == old(pool.freed) + lost && Lost(handed) == Lost(before) + lost
  {
    hide OutcomeFor, Stripped, States, Has, AllValid, Parts;
    StateAt(streams, at);
    var outcome := HandleBeside(streams, pool, streams[at], view, memory[at]);
    handed := before + [Handed(streams[at], view, outcome)];
    assert handed[..|before|] == before;
  }

  /** Handing a stream a duplicate; the original stays as it is. */
  method HandDuplicate(pool: Pool, streams: seq<Stream>, ghost sts: seq<Dlpi>, at: nat, mp: Block, memory: seq<bool>,
                       ghost before: seq<Handed>, ghost order: seq<nat>, ghost frame: seq<Byte>)
    returns (ghost handed: seq<Handed>, ghost lost: seq<Block>)
    requires at < |streams| == |memory| && AllValid(streams) && sts == States(streams)
    requires Ok(mp) && Text(mp) == frame && |frame| >= 22
    requires forall k | 0 <= k < |order| :: order[k] < |streams|
    requires HandedTo(before, streams, order, sts, memory, frame)
    requires AllServed(before, mp.data, frame) && DifferentBlocks(before)
    modifies pool`freed, mp.data`refs
    ensures |handed| == |before| + 1 && fresh(handed[|before|].block)
    ensures forall k | 0 <= k < |before| :: handed[k] == before[k]
    ensures AllValid(streams) && sts == States(streams) && Ok(mp) && Text(mp) == frame
    ensures HandedTo(handed, streams, order + [at], sts, memory, frame)
    ensures AllServed(handed, mp.data, frame) && DifferentBlocks(handed)
    ensures pool.freed == old(pool.freed) + lost && Lost(handed) == Lost(before) + lost
  {
    hide HandedTo, Lost, States, AllValid, DifferentBlocks, Parts;
    var dup := DupBeside(streams, mp);
    assert Text(dup) == frame;
    NotAmong(before, dup);
    handed := HandOver(pool, streams, sts, at, dup, memory, before, order, frame);
    lost := if handed[|before|].outcome.NoMemory? then [dup] else [];
  }

  /** Deciding about a stream leaves the streams and what the others got alone. */
  method DecideBetween(ghost streams: seq<Stream>, stream: Stream, frame: seq<Byte>, ghost handed: seq<Handed>,
                       ghost data: DataBlock)
    returns (wanted: bool)
    requires AllValid(streams) && stream in streams && AllServed(handed, data, frame)
    ensures AllServed(handed, data, frame) && stream.Valid() && (wanted <==> Wants(stream.Abs(), frame))
    ensures AllValid(streams) && States(streams) == old(States(streams))
  {
    hide Wants, Stripped;
    ghost var before := States(streams);
    wanted := Decide(stream, frame);
    assert forall i | 0 <= i < |streams| :: States(streams)[i] == before[i];
  }

  lemma StateAt(streams: seq<Stream>, at: nat)
    requires AllValid(streams) && at < |streams|
    ensures streams[at].Valid() && |streams[at].snap| == 5
    ensures States(streams)[at] == streams[at].Abs()
    ensures States(streams)[at].fastPath == Has(streams[at].flags, FAST_PATH)
  {
  }

  lemma TakersStep(sts: seq<Dlpi>, frame: seq<Byte>, i: nat)
    requires i < |sts|
    ensures Takers(sts[..i + 1], frame) == Takers(sts[..i], frame) + if Wants(sts[i], frame) then [i] else []
  {
    assert sts[..i + 1][..i] == sts[..i];
  }

  lemma NotAmong(handed: seq<Handed>, b: Block)
    requires forall k | 0 <= k < |handed| :: handed[k].block != b
    ensures b !in Blocks(handed)
  {
  }

  lemma NothingHanded(streams: seq<Stream>, sts: seq<Dlpi>, memory: seq<bool>, data: DataBlock, frame: seq<Byte>)
    requires |frame| >= 22 && |sts| == |streams| == |memory|
    ensures Takers(sts[..0], frame) == [] && HandedTo([], streams, [], sts, memory, frame)
    ensures AllServed([], data, frame) && DifferentBlocks([]) && Lost([]) == [] && Blocks([]) == {}
  {
  }

  /** The next stream of the list: if it wants the frame, the taker before it gets a duplicate. */
  method Consider(pool: Pool, streams: seq<Stream>, ghost sts: seq<Dlpi>, at: nat, mp: Block, memory: seq<bool>,
                  frame: seq<Byte>, ghost before: seq<Handed>, ghost passed: seq<nat>, pending: int)
    returns (ghost handed: seq<Handed>, ghost order: seq<nat>, last: int, ghost lost: seq<Block>)
    requires AllValid(streams) && States(streams) == sts && at < |streams| == |memory|
    requires Ok(mp) && Text(mp) == frame && |frame| >= 22
    requires -1 <= pending < at && Takers(sts[..at], frame) == passed + if pending == -1 then [] else [pending]
    requires (forall k | 0 <= k < |passed| :: passed[k] < |streams|) && (pending == -1 ==> passed == [])
    requires HandedTo(before, streams, passed, sts, memory, frame)
    requires AllServed(before, mp.data, frame) && DifferentBlocks(before) && |before| == |passed|
    modifies pool`freed, mp.data`refs
    ensures AllValid(streams) && States(streams) == sts && Ok(mp) && Text(mp) == frame
    ensures -1 <= last <= at && Takers(sts[..at + 1], frame) == order + if last == -1 then [] else [last]
    ensures (forall k | 0 <= k < |order| :: order[k] < |streams|) && (last == -1 ==> order == [])
    ensures HandedTo(handed, streams, order, sts, memory, frame)
    ensures AllServed(handed, mp.data, frame) && DifferentBlocks(handed) && |handed| == |order|
    ensures before <= handed && forall k | |before| <= k < |handed| :: fresh(handed[k].block)
    ensures pool.freed == old(pool.freed) + lost && Lost(handed) == Lost(before) + lost
  {
    hide Takers, Wants, HandedTo, AllServed, States, AllValid, Lost, DifferentBlocks, Blocks, OutcomeFor, Parts;
    handed, order, last, lost := before, passed, pending, [];
    StateAt(streams, at);
    TakersStep(sts, frame, at);
    var wanted := DecideBetween(streams, streams[at], frame, handed, mp.data);
    if wanted {
      if last != -1 {
        handed, lost := HandDuplicate(pool, streams, sts, last, mp, memory, handed, order, frame);
        order := order + [last];
      }
      last := at;
    }
  }

  lemma Associate<T>(a: seq<T>, b: seq<T>, c: seq<T>)
    ensures (a + b) + c == a + (b + c)
  {
  }

  lemma AllOf<T>(s: seq<T>)
    ensures s[..|s|] == s
  {
  }

  /** The loop over the streams: every taker but the last gets a duplicate. */
  method Distribute(pool: Pool, streams: seq<Stream>, mp: Block, memory: seq<bool>, frame: seq<Byte>)
    returns (ghost handed: seq<Handed>, ghost order: seq<nat>, last: int)
    requires AllValid(streams) && |memory| == |streams|
    requires Ok(mp) && Text(mp) == frame && |frame| >= 22
    modifies pool`freed, mp.data`refs
    ensures AllValid(streams) && States(streams) == old(States(streams))
    ensures Ok(mp) && Text(mp) == frame
    ensures -1 <= last < |streams| && (last == -1 ==> order == [])
    ensures forall k | 0 <= k < |order| :: order[k] < |streams|
    ensures Takers(States(streams), frame) == order + if last == -1 then [] else [last]
    ensures HandedTo(handed, streams, order, States(streams), memory, frame)
    ensures AllServed(handed, mp.data, frame) && DifferentBlocks(handed)
    ensures |handed| == |order| && forall k | 0 <= k < |handed| :: fresh(handed[k].block)
    ensures pool.freed == old(pool.freed) + Lost(handed)
  {
    hide *;
    ghost var sts := States(streams);
    order, last, handed := [], -1, [];
    NothingHanded(streams, sts, memory, mp.data, frame);
    for i := 0 to |streams|
      invariant AllValid(streams) && States(streams) == sts
      invariant Ok(mp) && Text(mp) == frame
      invariant -1 <= last < i && Takers(sts[..i], frame) == order + if last == -1 then [] else [last]
      invariant (forall k | 0 <= k < |order| :: order[k] < |streams|) && (last == -1 ==> order == [])
      invariant HandedTo(handed, streams, order, sts, memory, frame)
      invariant AllServed(handed, mp.data, frame) && DifferentBlocks(handed)
      invariant |handed| == |order| && forall k | 0 <= k < |handed| :: fresh(handed[k].block)
      invariant pool.freed == old(pool.freed) + Lost(handed)
    {
      ghost var before, lost := handed, [];
      handed, order, last, lost := Consider(pool, streams, sts, i, mp, memory, frame, handed, order, last);
      Associate(old(pool.freed), Lost(before), lost);
    }
    AllOf(sts);
  }

  /** `ether_packet_received`: the streams handed the packet are exactly those that want it, in list
      order and once each; the last gets the original message, every other one a duplicate; if
      there is none, the message is freed. Each sees the same data with its own header hidden. */
  method PacketReceived(pool: Pool, streams: seq<Stream>, mp: Block, memory: seq<bool>)
    returns (ghost handed: seq<Handed>)
    requires AllValid(streams) && |memory| == |streams|
    requires Ok(mp) && |Text(mp)| >= 22
    modifies pool`freed, mp`rptr, mp.data`refs
    ensures var sts, frame := old(States(streams)), old(Text(mp));
      && HandedTo(handed, streams, Takers(sts, frame), sts, memory, frame)
      && AllServed(handed, mp.data, frame)
    ensures DifferentBlocks(handed)
    ensures forall k | 0 <= k < |handed| :: if k == |handed| - 1 then handed[k].block == mp else fresh(handed[k].block)
    ensures pool.freed == old(pool.freed) + if handed == [] then [mp] else Lost(handed)
  {
    hide Takers, Wants, HandedTo, AllServed, States, AllValid, Lost, DifferentBlocks, Blocks, OutcomeFor, Parts;
    var frame := mp.data.bytes[mp.rptr..mp.wptr];
    ghost var sts := States(streams);
    ghost var order: seq<nat>;
    var last;
    handed, order, last := Distribute(pool, streams, mp, memory, frame);
    if last != -1 {
      NotAmong(handed, mp);
      handed := HandOver(pool, streams, sts, last, mp, memory, handed, order, frame);
    } else {
      NothingHanded(streams, sts, memory, mp.data, frame);
      assert handed == [] by {
        HandedNone(handed, streams, sts, memory, frame);
      }
      FreeB(pool, mp);
    }
  }

  lemma HandedNone(handed: seq<Handed>, streams: seq<Stream>, sts: seq<Dlpi>, memory: seq<bool>, frame: seq<Byte>)
    requires |frame| >= 22 && |sts| == |streams| == |memory| && HandedTo(handed, streams, [], sts, memory, frame)
    ensures handed == []
  {
  }
}
