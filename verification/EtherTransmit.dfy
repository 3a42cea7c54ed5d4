/** Turning a DL_UNITDATA_REQ message into a packet in place, and transmitting it. */
module EtherTransmit {
  import opened Bytes
  import opened EtherFrame
  import opened EtherMessage

  const DL_UNITDATA_REQ := 7
  const REQUEST_SIZE := 20

  function Long(text: seq<Byte>, i: nat): (w: Word)
    requires i + 4 <= |text|
  {
    text[i] as int * 0x100_0000 + text[i + 1] as int * 0x1_0000 + text[i + 2] as int * 0x100 + text[i + 3]
  }

  /** The request block holds a primitive, then length and offset of the destination address. */
  ghost predicate Requests(mp: Block)
    requires Ok(mp)
    reads mp`data, mp`rptr, mp`wptr, mp.data`bytes
  {
    var from := mp.data.bytes[mp.rptr..];
    && |Text(mp)| >= REQUEST_SIZE
    && (Long(from, 0) == DL_UNITDATA_REQ ==>
      && 6 <= Long(from, 4) <= 13
      && Long(from, 8) + Long(from, 4) <= |from|)
  }

  ghost function Destination(mp: Block): (addr: seq<Byte>)
    requires Ok(mp) && Requests(mp) && IsUnitData(mp)
    reads mp`data, mp`rptr, mp`wptr, mp.data`bytes
    ensures IsAddress(addr)
  {
    var from := mp.data.bytes[mp.rptr..];
    from[Long(from, 8)..Long(from, 8) + Long(from, 4)]
  }

  ghost predicate IsUnitData(mp: Block)
    requires Ok(mp) && Requests(mp)
    reads mp`data, mp`rptr, mp`wptr, mp.data`bytes
  {
    Long(mp.data.bytes[mp.rptr..], 0) == DL_UNITDATA_REQ
  }

  /** The header writes, in the order of the code, amount to the built header. */
  lemma HeaderWrites(t: seq<Byte>, s: Sender, addr: seq<Byte>, n: nat, fast: bool)
    requires s.Ok() && IsAddress(addr) && |t| >= HeaderLen(SentType(s, addr))
    ensures var proto := Be16(FirstProto(SentType(s, addr), DestSap(s, addr), n, fast));
      Overwrite(Overwrite(Overwrite(t, 12, proto), 0, addr[..6]), 14, LinkPart(s, addr))
      == Built(s, addr, n, fast, t[6..12]) + t[HeaderLen(SentType(s, addr))..]
  {
    hide LinkPart, Be16, FirstProto, DestSap, SentType;
  }

  lemma HeadIs(first: Block?, bs: seq<Block>)
    requires Message(first, bs) && first != null
    ensures bs != [] && bs[0] == first && AllOk(bs) && Ok(first)
    ensures |Texts(bs)| >= first.wptr - first.rptr
  {
  }

  lemma RequestNotCounted(mp: Block, bs: seq<Block>)
    requires Message(mp, bs) && bs != [] && AllOk(bs[1..]) && AllData(bs[1..]) && !mp.data.isData
    ensures AllOk(bs) && DataSize(bs) == |Texts(bs[1..])|
  {
    DataSizeIs(bs);
  }

  method CountPayload(mp: Block, ghost bs: seq<Block>) returns (size: nat)
    requires Message(mp, bs) && bs != [] && AllOk(bs[1..]) && AllData(bs[1..]) && !mp.data.isData
    ensures Message(mp, bs) && Datas(bs) == old(Datas(bs)) && AllOk(bs[1..]) && AllData(bs[1..])
    ensures Texts(bs[1..]) == old(Texts(bs[1..])) && size == |Texts(bs[1..])|
  {
    hide Users, Texts, AllData;
    RequestNotCounted(mp, bs);
    size := MsgDSize(mp, bs);
    assert Datas(bs) == old(Datas(bs)) && Datas(bs[1..]) == old(Datas(bs[1..]));
    assert Linked(mp, bs);
    assert AllOk(bs);
    assert Counted(bs);
  }

  method WriteHeader(r: Block, s: Sender, addr: seq<Byte>, size: nat, fast: bool, ghost rs: seq<Block>)
    returns (ghost gap: seq<Byte>)
    requires Message(r, rs) && HeadAlone(rs) && r == rs[0] && s.Ok() && IsAddress(addr)
    requires r.wptr - r.rptr >= HeaderLen(SentType(s, addr))
    modifies r.data`bytes
    ensures Message(r, rs) && HeadAlone(rs) && (old(AllData(rs)) ==> AllData(rs)) && |gap| == 6
    ensures |old(Texts(rs))| >= HeaderLen(SentType(s, addr))
    ensures Texts(rs) == Built(s, addr, size, fast, gap) + old(Texts(rs))[HeaderLen(SentType(s, addr))..]
  {
    hide Texts, AllData, HeadAlone, Message, Overwrite, Built, LinkPart, SentType, DestSap, FirstProto;
    HeadIs(r, rs);
    ghost var before := Texts(rs);
    gap := before[6..12];
    PutBytes(r, 12, Be16(FirstProto(SentType(s, addr), DestSap(s, addr), size, fast)), rs);
    PutBytes(r, 0, addr[..6], rs);
    PutBytes(r, 14, LinkPart(s, addr), rs);
    HeaderWrites(before, s, addr, size, fast);
  }

  /** `build_tx_packet_header`. */
  method BuildTxPacketHeader(pool: Pool, s: Sender, mp: Block, fast: bool, gotMemory: bool, ghost bs: seq<Block>)
    returns (r: Block?, ghost rs: seq<Block>, ghost gone: seq<Block>, ghost gap: seq<Byte>)
    requires Message(mp, bs) && bs != [] && AllOk(bs[1..]) && AllData(bs[1..]) && !mp.data.isData
    requires s.Ok() && Ok(mp) && Requests(mp)
    modifies pool`freed, bs`rptr, bs`wptr, bs`cont, Datas(bs)`refs, Datas(bs)`isData, Datas(bs)`bytes
    ensures pool.freed == old(pool.freed) + gone
    ensures r == null ==> gone == bs
    ensures r == null ==> !gotMemory || !old(IsUnitData(mp))
    ensures forall d | d in Datas(rs) :: fresh(d) || d in old(Datas(bs))
    ensures r != null ==> Replaces(bs, rs, gone) && Message(r, rs) && HeadAlone(rs) && r == rs[0] && AllData(rs)
    ensures r != null ==>
      && old(IsUnitData(mp)) && |gap| == 6
      && r.wptr - r.rptr >= HeaderLen(SentType(s, old(Destination(mp))))
      && Texts(rs) == Built(s, old(Destination(mp)), |old(Texts(bs[1..]))|, fast, gap) + old(Texts(bs[1..]))
  {
    hide Linked, Counted, NoDuplicates, Users, Texts, AllData, Replaces, HeadAlone, AllOk, Overwrite, Built;
    hide LinkPart, Message;
    r, rs, gone, gap := null, [], bs, [];
    HeadIs(mp, bs);
    var from := mp.data.bytes[mp.rptr..];
    if Long(from, 0) != DL_UNITDATA_REQ {
      FreeMsg(pool, mp, bs);
      return;
    }
    var addr := from[Long(from, 8)..Long(from, 8) + Long(from, 4)];
    var dlsap := DestSap(s, addr);
    var size := CountPayload(mp, bs);
    var t := Classify(s.dlsap, dlsap);
    assert addr == old(Destination(mp)) && t == SentType(s, addr) && old(IsUnitData(mp));
    hide *;
    r, rs, gone := ReuseMessageBlock(pool, mp, HeaderLen(t), gotMemory, bs);
    if r == null {
      return;
    }
    HeadIs(r, rs);
    DataIn(rs, 0);
    gap := WriteHeader(r, s, addr, size, fast, rs);
  }

  function Filled(frame: seq<Byte>): (f: seq<Byte>)
    requires |frame| >= 14
    ensures |f| == |frame|
  {
    if frame[12] == 0 && frame[13] == 0 then Overwrite(frame, 12, Be16(Wrap16(|frame| - 14))) else frame
  }

  /** A zero protocol field becomes the length of what follows the header. */
  method FillLength(mp: Block, ghost bs: seq<Block>)
    requires Message(mp, bs) && HeadAlone(bs) && mp == bs[0] && AllData(bs) && mp.wptr - mp.rptr >= 14
    modifies mp.data`bytes
    ensures Message(mp, bs) && HeadAlone(bs)
    ensures |old(Texts(bs))| >= 14 && Texts(bs) == Filled(old(Texts(bs)))
  {
    hide Linked, Counted, NoDuplicates, Users, Texts, AllData, HeadAlone, Overwrite, Be16;
    HeadIs(mp, bs);
    HeadText(bs);
    if mp.data.bytes[mp.rptr + 12] == 0 && mp.data.bytes[mp.rptr + 13] == 0 {
      DataSizeIs(bs);
      var size := MsgDSize(mp, bs);
      assert Datas(bs) == old(Datas(bs));
      PutBytes(mp, 12, Be16(Wrap16(size - 14)), bs);
    }
  }

  /** `transmit_packet`: completes the frame in place, hands it to the network, frees it. */
  method TransmitPacket(pool: Pool, mp: Block, hardware: seq<Byte>, ghost bs: seq<Block>)
    requires Message(mp, bs) && HeadAlone(bs) && mp == bs[0] && AllData(bs) && mp.wptr - mp.rptr >= 14
    requires |hardware| == 6
    modifies pool, mp.data`bytes, Datas(bs)`refs
    ensures old(AllOk(bs)) && |old(Texts(bs))| >= 14
    ensures pool.sent == old(pool.sent) + [Transmitted(old(Texts(bs)), hardware)]
    ensures pool.freed == old(pool.freed) + bs
  {
    hide Texts, AllData, HeadAlone, Overwrite, Message, Filled, Datas;
    HeadIs(mp, bs);
    ghost var before := Texts(bs);
    FillLength(mp, bs);
    PutBytes(mp, 6, hardware, bs);
    HeadIs(mp, bs);
    Completed(before, hardware);
    pool.sent := pool.sent + [Texts(bs)];
    FreeMsg(pool, mp, bs);
  }

  lemma HeadText(bs: seq<Block>)
    requires AllOk(bs) && bs != [] && bs[0].wptr - bs[0].rptr >= 14
    ensures Ok(bs[0]) && |Texts(bs)| >= 14
    ensures Texts(bs)[12] == bs[0].data.bytes[bs[0].rptr + 12] && Texts(bs)[13] == bs[0].data.bytes[bs[0].rptr + 13]
  {
    TextsSplit(bs);
  }

  lemma Completed(frame: seq<Byte>, hardware: seq<Byte>)
    requires |frame| >= 14 && |hardware| == 6
    ensures Transmitted(frame, hardware) == Overwrite(Filled(frame), 6, hardware)
  {
    hide Be16;
    var filled := Filled(frame);
    assert filled[..6] == frame[..6] && filled[14..] == frame[14..];
  }

  /** `DLPI_unit_data`: a request on an idle stream puts exactly its packet on the wire, or nothing
      when no memory is left; every block of the request is freed exactly once, together with the
      header block that may have been added. */
  method UnitData(pool: Pool, idle: bool, s: Sender, mp: Block, gotMemory: bool, hardware: seq<Byte>,
                  ghost bs: seq<Block>)
    returns (refused: bool, ghost rs: seq<Block>, ghost gone: seq<Block>, ghost gap: seq<Byte>)
    requires Message(mp, bs) && bs != [] && AllOk(bs[1..]) && AllData(bs[1..]) && !mp.data.isData
    requires s.Ok() && Ok(mp) && Requests(mp) && IsUnitData(mp) && |hardware| == 6
    modifies pool, bs`rptr, bs`wptr, bs`cont, Datas(bs)`refs, Datas(bs)`isData, Datas(bs)`bytes
    ensures refused <==> !idle
    ensures pool.freed == old(pool.freed) + gone + rs
    ensures rs == [] ==> gone == bs && pool.sent == old(pool.sent) && (!idle || !gotMemory)
    ensures rs != [] ==>
      && Replaces(bs, rs, gone) && |gap| == 6
      && pool.sent == old(pool.sent) + [Wire(s, old(Destination(mp)), old(Texts(bs[1..])), false, gap, hardware)]
  {
    hide Linked, Counted, NoDuplicates, Users, Texts, AllData, HeadAlone, Message, Built, Transmitted, Replaces;
    refused, rs, gone, gap := !idle, [], bs, [];
    if !idle {
      FreeMsg(pool, mp, bs);
      return;
    }
    var r;
    ghost var chain;
    r, chain, gone, gap := BuildTxPacketHeader(pool, s, mp, false, gotMemory, bs);
    if r != null {
      rs := chain;
      HeadIs(r, rs);
      DataIn(rs, 0);
      TransmitPacket(pool, r, hardware, rs);
    }
  }
}
