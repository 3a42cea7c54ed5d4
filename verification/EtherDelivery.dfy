/** What becomes of a packet from one stream's request to the streams that get it. */
module EtherDelivery {
  import opened Bytes
  import opened EtherBits
  import opened EtherFrame
  import opened EtherStream
  import opened EtherDriver
  import opened EtherMessage
  import opened EtherReceive

  function Octets(bytes: seq<Byte>): (r: seq<bv8>)
    ensures |r| == |bytes|
  {
    seq(|bytes|, i requires 0 <= i < |bytes| => Bits(bytes[i]))
  }

  /** A packet that the receiver can tell for what it is: the sender is bound, the SAP addressed is of the
      sender's kind, the length is one, and IPX packets begin as such. */
  predicate Sendable(s: Sender, addr: seq<Byte>, payload: seq<Byte>) {
    && s.Ok() && IsAddress(addr) && Bindable(s.dlsap) && |payload| + 8 < 1501
    && (if s.dlsap > 0xff then AddressedSap(s, addr) > 1500 else AddressedSap(s, addr) <= 0xff)
    && (s.dlsap == 0xff && AddressedSap(s, addr) == 0xff ==>
          |payload| >= 2 && payload[0] == 0xff && payload[1] == 0xff)
  }

  lemma SmallWrap(x: nat)
    requires x < 0x1_0000
    ensures Wrap16(x) == x
  {
  }

  lemma ReceivedAs(s: Sender, addr: seq<Byte>, payload: seq<Byte>, fast: bool, gap: seq<Byte>, hardware: seq<Byte>)
    requires Sendable(s, addr, payload) && |gap| == 6 && |hardware| == 6
    ensures var frame := Wire(s, addr, payload, fast, gap, hardware);
      && ReceivedType(frame) == SentType(s, addr) && Stripped(frame) == payload
  {
    hide Wire, Stripped, ReceivedType;
    LinkBytes(s, addr);
    SmallWrap(|payload|);
    SmallWrap(|payload| + 3);
    SmallWrap(|payload| + 8);
    hide Wrap16;
    RoundTrip(s, addr, payload, fast, gap, hardware);
  }

  /** The receiver finds the SAP addressed. */
  lemma ReceivedSap(s: Sender, addr: seq<Byte>, payload: seq<Byte>, fast: bool, gap: seq<Byte>, hardware: seq<Byte>)
    requires Sendable(s, addr, payload) && |gap| == 6 && |hardware| == 6
    ensures FrameDestSap(Wire(s, addr, payload, fast, gap, hardware)) == AddressedSap(s, addr)
  {
    hide Wire, Field16, Wrap16, AddressedSap, AddressedSnap;
    WireBytes(s, addr, payload, fast, gap, hardware);
    WireLength(s, addr, payload, fast, gap, hardware);
    var frame := Wire(s, addr, payload, fast, gap, hardware);
    SmallWrap(|frame| - 14);
    if s.dlsap == 0xff && AddressedSap(s, addr) == 0xff {
      assert frame[14] == frame[14..][0];
    }
  }

  lemma WireLength(s: Sender, addr: seq<Byte>, payload: seq<Byte>, fast: bool, gap: seq<Byte>, hardware: seq<Byte>)
    requires Sendable(s, addr, payload) && |gap| == 6 && |hardware| == 6
    ensures 14 <= |Wire(s, addr, payload, fast, gap, hardware)| <= 22 + |payload|
  {
    hide LinkPart, Be16;
    WireForm(s, addr, payload, fast, gap, hardware);
  }

  lemma TargetIs(frame: seq<Byte>, addr: seq<Byte>)
    requires |addr| == 6
    requires At(frame, 0) == addr[0] && At(frame, 1) == addr[1] && At(frame, 2) == addr[2]
    requires At(frame, 3) == addr[3] && At(frame, 4) == addr[4] && At(frame, 5) == addr[5]
    ensures Target(frame) == Octets(addr)
  {
    hide At, Bits;
  }

  lemma SnapOfIs(frame: seq<Byte>, snap: seq<Byte>)
    requires |snap| == 5
    requires At(frame, 17) == snap[0] && At(frame, 18) == snap[1] && At(frame, 19) == snap[2]
    requires At(frame, 20) == snap[3] && At(frame, 21) == snap[4]
    ensures SnapOf(frame) == Octets(snap)
  {
    hide At, Bits;
  }

  lemma FrameTarget(frame: seq<Byte>, mac: seq<Byte>)
    requires |frame| >= 14 && |mac| == 6 && frame[0..6] == mac
    ensures Target(frame) == Octets(mac)
  {
    assert forall i | 0 <= i < 6 :: frame[i] == frame[0..6][i];
    TargetIs(frame, mac);
    hide Target, Octets;
  }

  lemma FrameSnap(frame: seq<Byte>, snap: seq<Byte>)
    requires |frame| >= 22 && |snap| == 5 && frame[17..22] == snap
    ensures SnapOf(frame) == Octets(snap)
  {
    assert forall i | 0 <= i < 5 :: frame[17 + i] == frame[17..22][i];
    SnapOfIs(frame, snap);
    hide SnapOf, Octets;
  }

  /** End to end: a packet sent to a SAP (and a SNAP) is handed to a stream bound to it exactly if the
      stream's own SNAP, if it has one, is the one addressed, or it takes all 802.2 packets, and its
      multicast list does not say otherwise; as the kind of packet sent and without its header. */
  lemma PeerGetsPacket(peer: Dlpi, s: Sender, addr: seq<Byte>, payload: seq<Byte>, fast: bool,
                       gap: seq<Byte>, hardware: seq<Byte>)
    requires Inv(peer) && peer.bound && Sendable(s, addr, payload) && |gap| == 6 && |hardware| == 6
    requires peer.dlsap == AddressedSap(s, addr) && (peer.snapStream ==> s.dlsap == 0xaa)
    ensures var frame, mac := Wire(s, addr, payload, fast, gap, hardware), Octets(addr[..6]);
      && ReceivedType(frame) == SentType(s, addr) && Stripped(frame) == payload
      && (Wants(peer, frame) <==>
            && (peer.snapStream && peer.snap != Octets(AddressedSnap(s, addr)) ==> peer.acceptAll)
            && (AddressTypeOf(mac).Multicast? && peer.acceptMulticasts ==> mac in peer.multicasts))
  {
    hide Wire, SentType, ReceivedType, Stripped, FrameDestSap, AddressedSap, AddressedSnap;
    hide AddressTypeOf, Target, SnapOf, Octets, NoDuplicates, AllMulticast;
    ReceivedAs(s, addr, payload, fast, gap, hardware);
    ReceivedSap(s, addr, payload, fast, gap, hardware);
    WireBytes(s, addr, payload, fast, gap, hardware);
    var frame := Wire(s, addr, payload, fast, gap, hardware);
    FrameTarget(frame, addr[..6]);
    if s.dlsap == 0xaa {
      FrameSnap(frame, AddressedSnap(s, addr));
    }
  }

  lemma TargetOnWire(s: Sender, addr: seq<Byte>, payload: seq<Byte>, fast: bool, gap: seq<Byte>, hardware: seq<Byte>)
    requires s.Ok() && IsAddress(addr) && |gap| == 6 && |hardware| == 6
    ensures Target(Wire(s, addr, payload, fast, gap, hardware)) == Octets(addr[..6])
  {
    hide Wire, Target, Octets;
    WireBytes(s, addr, payload, fast, gap, hardware);
    FrameTarget(Wire(s, addr, payload, fast, gap, hardware), addr[..6]);
  }

  /** A packet that is not for the stream's own SAP reaches it exactly if the stream takes all 802.2 packets,
      or if it is an 802.2 packet for a group SAP the stream has; its multicast list permitting. */
  lemma OthersGetPacket(peer: Dlpi, s: Sender, addr: seq<Byte>, payload: seq<Byte>, fast: bool,
                        gap: seq<Byte>, hardware: seq<Byte>)
    requires peer.bound && Sendable(s, addr, payload) && |gap| == 6 && |hardware| == 6
    requires peer.dlsap != AddressedSap(s, addr)
    ensures var mac, sap := Octets(addr[..6]), AddressedSap(s, addr);
      Wants(peer, Wire(s, addr, payload, fast, gap, hardware)) <==>
        && sap <= 0xff
        && (peer.acceptAll
            || (!(s.dlsap == 0xff && sap == 0xff) && sap % 2 == 1 && LowOctet(sap) in peer.groups))
        && (AddressTypeOf(mac).Multicast? && peer.acceptMulticasts ==> mac in peer.multicasts)
  {
    hide Wire, ReceivedType, Stripped, FrameDestSap, AddressedSap, AddressedSnap, Odd, LowOctet;
    hide AddressTypeOf, Target, SnapOf, Octets;
    ReceivedAs(s, addr, payload, fast, gap, hardware);
    ReceivedSap(s, addr, payload, fast, gap, hardware);
    TypesSent(s, addr);
    TargetOnWire(s, addr, payload, fast, gap, hardware);
    var sap := AddressedSap(s, addr);
    if sap <= 0xff {
      OddOctet(sap);
    }
  }

  lemma TypesSent(s: Sender, addr: seq<Byte>)
    requires s.Ok() && IsAddress(addr) && Bindable(s.dlsap)
    ensures SentType(s, addr).Sap? || SentType(s, addr).Snap?
            <==> s.dlsap <= 0xff && !(s.dlsap == 0xff && AddressedSap(s, addr) == 0xff)
  {
  }

  lemma OddOctet(sap: int)
    requires 0 <= sap <= 0xff
    ensures Odd(LowOctet(sap)) <==> sap % 2 == 1
  {
  }

  /** An address is of one station if its first bit on the wire is clear; of all stations if all are set. */
  lemma KindsOfAddress(mac: seq<bv8>)
    requires |mac| == 6
    ensures AddressTypeOf(mac).Standard? <==> mac[0] & 1 == 0
    ensures AddressTypeOf(mac).Broadcast? <==> mac == [0xff, 0xff, 0xff, 0xff, 0xff, 0xff]
  {
    LowBitIsOne(mac[0]);
    if Odd(mac[0]) && forall i | 0 <= i < 6 :: mac[i] == 0xff {
      assert mac == [0xff, 0xff, 0xff, 0xff, 0xff, 0xff];
    }
  }

  lemma LowBitIsOne(b: bv8)
    ensures Odd(b) <==> b & 1 != 0
  {
  }

  /** The indication a stream gets: where the packet was sent and where it came from, each with its SAP
      and the packet's SNAP, and what kind of address it was sent to.  Packets that are not 802.2 have
      no SAPs; the bytes reported are their first two. */
  function Report(s: Sender, addr: seq<Byte>, payload: seq<Byte>, hardware: seq<Byte>): Outcome
    requires s.Ok() && IsAddress(addr) && |hardware| == 6 && |payload| >= 2
  {
    var sap := AddressedSap(s, addr);
    var raw := s.dlsap > 0xff || (s.dlsap == 0xff && sap == 0xff);
    var snap := if s.dlsap == 0xaa then AddressedSnap(s, addr) else [];
    Indication(addr[..6] + [0, if raw then payload[0] else sap % 256] + snap,
               hardware + [0, if raw then payload[1] else s.dlsap % 256] + snap,
               AddressTypeOf(Octets(addr[..6])))
  }

  lemma TypeOnWire(s: Sender, addr: seq<Byte>)
    requires s.Ok() && IsAddress(addr)
    ensures SentType(s, addr).Snap? <==> s.dlsap == 0xaa
  {
  }

  lemma AddressesOnWire(s: Sender, addr: seq<Byte>, payload: seq<Byte>, fast: bool, gap: seq<Byte>, hardware: seq<Byte>)
    requires Sendable(s, addr, payload) && |gap| == 6 && |hardware| == 6
    requires |payload| >= 2 && |Wire(s, addr, payload, fast, gap, hardware)| >= 22
    ensures var frame := Wire(s, addr, payload, fast, gap, hardware);
            Indication(AddressField(frame, 0, 14), AddressField(frame, 6, 15), AddressTypeOf(Target(frame)))
            == Report(s, addr, payload, hardware)
  {
    hide Wire, SentType, ReceivedType, Stripped, AddressedSap, AddressedSnap, Target, Octets, AddressTypeOf;
    hide Field16, Wrap16;
    ReceivedAs(s, addr, payload, fast, gap, hardware);
    TypeOnWire(s, addr);
    WireBytes(s, addr, payload, fast, gap, hardware);
    var frame := Wire(s, addr, payload, fast, gap, hardware);
    FrameTarget(frame, addr[..6]);
    if s.dlsap > 0xff || (s.dlsap == 0xff && AddressedSap(s, addr) == 0xff) {
      assert frame[14] == frame[14..][0] && frame[15] == frame[14..][1];
    }
  }

  /** What the streams that get a packet are told: the bare data on the fast path, unless the packet was
      sent to a group; else, if there is memory, the report of its addresses with the data behind it. */
  lemma TakersAreTold(handed: seq<Handed>, streams: seq<Stream>, sts: seq<Dlpi>, memory: seq<bool>, data: DataBlock,
                      s: Sender, addr: seq<Byte>, payload: seq<Byte>, fast: bool, gap: seq<Byte>,
                      hardware: seq<Byte>, k: nat)
    requires Sendable(s, addr, payload) && |gap| == 6 && |hardware| == 6 && |payload| >= 2
    requires |Wire(s, addr, payload, fast, gap, hardware)| >= 22 && |sts| == |streams| == |memory|
    requires var frame := Wire(s, addr, payload, fast, gap, hardware);
      && HandedTo(handed, streams, Takers(sts, frame), sts, memory, frame)
      && AllServed(handed, data, frame) && k < |handed|
    ensures var at := Takers(sts, Wire(s, addr, payload, fast, gap, hardware))[k];
      && at < |sts| && handed[k].stream == streams[at]
      && handed[k].outcome == (if sts[at].fastPath && Octets(addr[..6])[0] & 1 == 0 then Bare
                               else if !memory[at] then NoMemory else Report(s, addr, payload, hardware))
      && (!handed[k].outcome.NoMemory? ==> Ok(handed[k].block) && Text(handed[k].block) == payload)
  {
    hide Wire, Report, Takers, Octets, AddressField, Target, Stripped, ReceivedType, Ok, Text;
    var frame := Wire(s, addr, payload, fast, gap, hardware);
    AddressesOnWire(s, addr, payload, fast, gap, hardware);
    ReceivedAs(s, addr, payload, fast, gap, hardware);
    TargetOnWire(s, addr, payload, fast, gap, hardware);
    KindsOfAddress(Octets(addr[..6]));
  }
}
