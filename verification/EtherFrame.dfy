/** Ethernet framing: headers built for outgoing packets, and how a received frame is taken apart. */
module EtherFrame {
  import opened Bytes

  const SNAP_SAP := 0xaa

  datatype PacketType = Dix | Sap | Snap | Ipx | Unknown

  predicate IsWord16(x: int) {
    0 <= x < 0x1_0000
  }

  function Classify(primary: int, secondary: int): PacketType {
    if primary >= 1501 then Dix
    else if primary == 0xff && secondary == 0xff then Ipx
    else if primary == 0xaa then Snap
    else if primary <= 0xff then Sap
    else Unknown
  }

  function LinkLen(t: PacketType): nat {
    match t
    case Sap => 3
    case Snap => 8
    case _ => 0
  }

  function HeaderLen(t: PacketType): nat {
    14 + LinkLen(t)
  }

  function Be16(x: int): (b: seq<Byte>)
    requires IsWord16(x)
    ensures |b| == 2
  {
    [x / 256, x % 256]
  }

  function At(frame: seq<Byte>, i: nat): Byte {
    if i < |frame| then frame[i] else 0
  }

  function Field16(frame: seq<Byte>, i: nat): int {
    At(frame, i) * 256 + At(frame, i + 1)
  }

  lemma Be16Reads(x: int)
    requires IsWord16(x)
    ensures (x / 256) * 256 + x % 256 == x
    ensures 0 <= x / 256 < 256
    ensures x / 256 == 0 && x % 256 == 0 <==> x == 0
  {
  }

  /** What a stream contributes to the packets it sends. */
  datatype Sender = Sender(dlsap: int, snap: seq<Byte>) {
    predicate Ok() {
      IsWord16(dlsap) && |snap| == 5
    }
  }

  /** A destination address: hardware address, then perhaps a SAP, then perhaps a SNAP. */
  predicate IsAddress(addr: seq<Byte>) {
    6 <= |addr| <= 13
  }

  function DestSap(s: Sender, addr: seq<Byte>): (d: int)
    requires s.Ok() && IsAddress(addr)
    ensures IsWord16(d)
  {
    if |addr| == 8 || |addr| == 13 then addr[6] as int * 256 + addr[7] else s.dlsap
  }

  function SentType(s: Sender, addr: seq<Byte>): PacketType
    requires s.Ok() && IsAddress(addr)
  {
    Classify(s.dlsap, DestSap(s, addr))
  }

  /** The protocol type or length field as first written; `n` is the payload size. */
  function FirstProto(t: PacketType, dlsap: int, n: nat, fast: bool): (p: int)
    requires IsWord16(dlsap)
    ensures IsWord16(p)
  {
    if t.Dix? || t.Unknown? then dlsap
    else if fast then 0
    else Wrap16(Wrap16(n) + LinkLen(t))
  }

  /** The 802.2 part of the header. */
  function LinkPart(s: Sender, addr: seq<Byte>): (h: seq<Byte>)
    requires s.Ok() && IsAddress(addr)
    ensures |h| == LinkLen(SentType(s, addr))
  {
    var t := SentType(s, addr);
    var base := [DestSap(s, addr) % 256, s.dlsap % 256, 0x03];
    match t
    case Sap => base
    case Snap => base + (if |addr| >= 13 then addr[8..13] else s.snap)
    case _ => []
  }

  /** The header as `build_tx_packet_header` leaves it; the source address bytes are whatever was
      there. */
  function Built(s: Sender, addr: seq<Byte>, n: nat, fast: bool, gap: seq<Byte>): (h: seq<Byte>)
    requires s.Ok() && IsAddress(addr) && |gap| == 6
    ensures |h| == HeaderLen(SentType(s, addr))
  {
    addr[..6] + gap + Be16(FirstProto(SentType(s, addr), DestSap(s, addr), n, fast)) + LinkPart(s, addr)
  }

  /** What `transmit_packet` does to the frame: a zero protocol field becomes the length. */
  function Transmitted(frame: seq<Byte>, hardware: seq<Byte>): (f: seq<Byte>)
    requires |frame| >= 14 && |hardware| == 6
    ensures |f| == |frame|
  {
    var proto := if Field16(frame, 12) == 0 then Be16(Wrap16(|frame| - 14)) else frame[12..14];
    frame[..6] + hardware + proto + frame[14..]
  }

  function Wire(s: Sender, addr: seq<Byte>, payload: seq<Byte>, fast: bool, gap: seq<Byte>,
                hardware: seq<Byte>): seq<Byte>
    requires s.Ok() && IsAddress(addr) && |gap| == 6 && |hardware| == 6
  {
    Transmitted(Built(s, addr, |payload|, fast, gap) + payload, hardware)
  }

  /** The protocol field that ends up on the wire. */
  function FinalProto(t: PacketType, dlsap: int, n: nat): (p: int)
    requires IsWord16(dlsap)
    ensures IsWord16(p)
  {
    if (t.Dix? || t.Unknown?) && dlsap != 0 then dlsap else Wrap16(n + LinkLen(t))
  }

  lemma WrapTwice(n: nat, k: nat)
    ensures Wrap16(Wrap16(n) + k) == Wrap16(n + k)
  {
    var q := n / 0x1_0000;
    assert n + k == Wrap16(n) + k + 0x1_0000 * q;
    WrapShift16(Wrap16(n) + k, q);
  }

  lemma WrapShift16(x: int, q: int)
    ensures Wrap16(x + 0x1_0000 * q) == Wrap16(x)
  {
  }

  /** Fast path or not, and whatever the source address bytes held, the same frame is sent. */
  lemma WireForm(s: Sender, addr: seq<Byte>, payload: seq<Byte>, fast: bool, gap: seq<Byte>, hardware: seq<Byte>)
    requires s.Ok() && IsAddress(addr) && |gap| == 6 && |hardware| == 6
    ensures Wire(s, addr, payload, fast, gap, hardware) == addr[..6] + hardware
      + Be16(FinalProto(SentType(s, addr), DestSap(s, addr), |payload|)) + LinkPart(s, addr) + payload
  {
    hide LinkPart, DestSap, SentType, Wrap16;
    var t, d := SentType(s, addr), DestSap(s, addr);
    var first := FirstProto(t, d, |payload|, fast);
    var frame := Built(s, addr, |payload|, fast, gap) + payload;
    Be16Reads(first);
    WrapTwice(|payload|, LinkLen(t));
    assert Field16(frame, 12) == first;
    assert frame[14..] == LinkPart(s, addr) + payload;
    assert frame[12..14] == Be16(first);
    assert frame[..6] == addr[..6];
  }

  /** The SAP that an address names: the one behind the hardware address, or the sender's own. */
  function AddressedSap(s: Sender, addr: seq<Byte>): (sap: int)
    requires s.Ok() && IsAddress(addr)
    ensures IsWord16(sap)
  {
    if |addr| == 8 || |addr| == 13 then addr[6] as int * 256 + addr[7] else s.dlsap
  }

  /** The SNAP that an address names: the one at its end, or the sender's own. */
  function AddressedSnap(s: Sender, addr: seq<Byte>): (snap: seq<Byte>)
    requires s.Ok() && IsAddress(addr)
    ensures |snap| == 5
  {
    if |addr| == 13 then addr[8..13] else s.snap
  }

  /** The bytes on the wire.  An 802.2 packet names the SAP of its destination address first, then the
      sender's; a SNAP packet ends its header with the SNAP of the destination address, if that carries
      one, and with the stream's own if not. */
  lemma WireBytes(s: Sender, addr: seq<Byte>, payload: seq<Byte>, fast: bool, gap: seq<Byte>, hardware: seq<Byte>)
    requires s.Ok() && IsAddress(addr) && |gap| == 6 && |hardware| == 6
    ensures var frame, sap := Wire(s, addr, payload, fast, gap, hardware), AddressedSap(s, addr);
      && |frame| >= 14 && frame[0..6] == addr[..6] && frame[6..12] == hardware
      && (s.dlsap <= 0xff && (s.dlsap != 0xff || sap != 0xff) ==>
            |frame| >= 17 && frame[14] == sap % 256 && frame[15] == s.dlsap && frame[16] == 3)
      && (s.dlsap == 0xaa ==> |frame| >= 22 && frame[17..22] == AddressedSnap(s, addr) && frame[22..] == payload)
      && (s.dlsap <= 0xff && s.dlsap != 0xaa && (s.dlsap != 0xff || sap != 0xff) ==> frame[17..] == payload)
      && (s.dlsap > 0xff || (s.dlsap == 0xff && sap == 0xff) ==> frame[14..] == payload)
      && (s.dlsap > 0xff && sap != 0 ==> Field16(frame, 12) == sap)
      && (s.dlsap <= 0xff ==> Field16(frame, 12) == Wrap16(|frame| - 14))
  {
    hide Wire, LinkPart, Be16, Wrap16, Field16;
    WireForm(s, addr, payload, fast, gap, hardware);
    var proto := FinalProto(SentType(s, addr), DestSap(s, addr), |payload|);
    LinkBytes(s, addr);
    ProtoBytes(addr[..6] + hardware, proto, LinkPart(s, addr), payload);
  }

  lemma LinkBytes(s: Sender, addr: seq<Byte>)
    requires s.Ok() && IsAddress(addr)
    ensures var link, sap := LinkPart(s, addr), AddressedSap(s, addr);
      && DestSap(s, addr) == sap
      && |link| == (if s.dlsap > 0xff || (s.dlsap == 0xff && sap == 0xff) then 0 else if s.dlsap == 0xaa then 8 else 3)
      && (link != [] ==> link[0] == sap % 256 && link[1] == s.dlsap && link[2] == 3)
      && (|link| == 8 ==> link[3..8] == AddressedSnap(s, addr))
      && LinkLen(SentType(s, addr)) == |link|
      && (SentType(s, addr).Dix? || SentType(s, addr).Unknown? <==> s.dlsap > 0xff)
  {
    assert s.dlsap <= 0xff ==> s.dlsap % 256 == s.dlsap;
  }

  lemma ProtoBytes(head: seq<Byte>, proto: int, link: seq<Byte>, payload: seq<Byte>)
    requires |head| == 12 && IsWord16(proto)
    ensures var frame := head + Be16(proto) + link + payload;
      && frame[0..6] == head[0..6] && frame[6..12] == head[6..12] && Field16(frame, 12) == proto
      && frame[14..14 + |link|] == link && frame[14 + |link|..] == payload && |frame| == 14 + |link| + |payload|
  {
    FrameFields(head, proto, link, payload);
  }

  /** How `ether_packet_received` sees a frame. */
  function FrameDestSap(frame: seq<Byte>): int {
    if Field16(frame, 12) >= 1501 then Field16(frame, 12) else At(frame, 14)
  }

  function FrameSourceSap(frame: seq<Byte>): int {
    if Field16(frame, 12) >= 1501 then Field16(frame, 12) else At(frame, 15)
  }

  function ReceivedType(frame: seq<Byte>): PacketType {
    Classify(FrameSourceSap(frame), FrameDestSap(frame))
  }

  /** The payload handed to the stream: the frame without the header its type has. */
  function Stripped(frame: seq<Byte>): seq<Byte> {
    var h := HeaderLen(ReceivedType(frame));
    if h <= |frame| then frame[h..] else []
  }

  /** When a packet is recognised on reception as the kind it was sent as. */
  predicate Survives(t: PacketType, source: int, dest: int, payload: seq<Byte>) {
    match t
    case Dix => dest >= 1501 || (dest == 0 && Wrap16(|payload|) >= 1501)
    case Sap => Wrap16(|payload| + 3) < 1501 && !(source == 0xff && dest % 256 == 0xff)
    case Snap => Wrap16(|payload| + 8) < 1501
    case Ipx => Wrap16(|payload|) < 1501 && |payload| >= 2 && payload[0] == 0xff && payload[1] == 0xff
    case Unknown => false
  }

  /** What the receiver reads from a frame of the sent form. */
  lemma FrameFields(head: seq<Byte>, proto: int, link: seq<Byte>, payload: seq<Byte>)
    requires |head| == 12 && IsWord16(proto)
    ensures var frame := head + Be16(proto) + link + payload;
      && Field16(frame, 12) == proto
      && At(frame, 14) == At(link + payload, 0) && At(frame, 15) == At(link + payload, 1)
      && (forall h: nat | h == 14 + |link| :: frame[h..] == payload)
  {
    Be16Reads(proto);
    var frame := head + Be16(proto) + link + payload;
    assert frame == head + Be16(proto) + (link + payload);
  }

  lemma LinkFields(s: Sender, addr: seq<Byte>, payload: seq<Byte>)
    requires s.Ok() && IsAddress(addr)
    ensures SentType(s, addr).Sap? || SentType(s, addr).Snap? ==>
      && At(LinkPart(s, addr) + payload, 0) == DestSap(s, addr) % 256
      && At(LinkPart(s, addr) + payload, 1) == s.dlsap % 256
    ensures !SentType(s, addr).Sap? && !SentType(s, addr).Snap? ==> LinkPart(s, addr) + payload == payload
  {
    hide DestSap;
  }

  /** Build, transmit, receive: a packet comes back as its own kind exactly under `Survives`, and
      then the receiver strips exactly the header that was added. */
  lemma RoundTrip(s: Sender, addr: seq<Byte>, payload: seq<Byte>, fast: bool, gap: seq<Byte>, hardware: seq<Byte>)
    requires s.Ok() && IsAddress(addr) && |gap| == 6 && |hardware| == 6
    ensures var frame := Wire(s, addr, payload, fast, gap, hardware);
      && (ReceivedType(frame) == SentType(s, addr)
          <==> Survives(SentType(s, addr), s.dlsap, DestSap(s, addr), payload))
      && (ReceivedType(frame) == SentType(s, addr) ==> Stripped(frame) == payload)
  {
    hide Wire, LinkPart, Wrap16, Be16, DestSap, Field16, At, SentType;
    var t, d := SentType(s, addr), DestSap(s, addr);
    var frame := Wire(s, addr, payload, fast, gap, hardware);
    var proto := FinalProto(t, d, |payload|);
    WireForm(s, addr, payload, fast, gap, hardware);
    FrameFields(addr[..6] + hardware, proto, LinkPart(s, addr), payload);
    LinkFields(s, addr, payload);
    SenderSap(s, addr);
    FirstBytes(payload);
    assert |frame| >= HeaderLen(t) by {
      assert frame == addr[..6] + hardware + Be16(proto) + LinkPart(s, addr) + payload;
    }
  }

  lemma FirstBytes(payload: seq<Byte>)
    ensures At(payload, 0) == 0xff && At(payload, 1) == 0xff <==>
      |payload| >= 2 && payload[0] == 0xff && payload[1] == 0xff
  {
  }

  lemma SenderSap(s: Sender, addr: seq<Byte>)
    requires s.Ok() && IsAddress(addr)
    ensures SentType(s, addr) == Classify(s.dlsap, DestSap(s, addr))
    ensures s.dlsap <= 255 ==> s.dlsap % 256 == s.dlsap
    ensures 0 <= DestSap(s, addr) % 256 < 256
  {
  }

  /** The addresses arrive unchanged. */
  lemma AddressesArrive(s: Sender, addr: seq<Byte>, payload: seq<Byte>, fast: bool, gap: seq<Byte>, hardware: seq<Byte>)
    requires s.Ok() && IsAddress(addr) && |gap| == 6 && |hardware| == 6
    ensures var frame := Wire(s, addr, payload, fast, gap, hardware);
      |frame| >= 14 && frame[..6] == addr[..6] && frame[6..12] == hardware
  {
    hide Wire, LinkPart, Be16;
    WireForm(s, addr, payload, fast, gap, hardware);
  }
}
