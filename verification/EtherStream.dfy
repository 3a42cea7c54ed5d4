/** One DLPI stream: binding, subsequent binding of group SAPs and SNAPs, and multicast addresses. */
module EtherStream {
  import opened Bytes
  import opened EtherBits
  import opened EtherFrame
  import opened EtherMulticast

  const MAX_8022_SAP := 0xfe

  datatype AddressType = Standard | Multicast | Broadcast

  function AddressTypeOf(addr: seq<bv8>): AddressType
    requires |addr| == 6
  {
    if !Odd(addr[0]) then Standard
    else if forall i | 0 <= i < 6 :: addr[i] == 0xff then Broadcast
    else Multicast
  }

  /** A stream's state as a value: the group SAPs as a set, the multicast list newest first. */
  datatype Dlpi = Dlpi(bound: bool, dlsap: int, snapStream: bool, snap: seq<bv8>, acceptAll: bool, fastPath: bool,
                       acceptMulticasts: bool, groups: iset<bv8>, multicasts: seq<seq<bv8>>)

  /** Requests; `memory` says whether the reply could be allocated. */
  datatype Request =
    | BindReq(sap: Word, connectionless: bool, memory: bool)
    | UnbindReq
    | SubsBindReq(bindClass: int, addr: seq<bv8>, length: int, memory: bool)
    | SubsUnbindReq(addr: seq<bv8>, length: int)
    | EnableMultiReq(addr: seq<bv8>)
    | DisableMultiReq(addr: seq<bv8>)
    | HeaderInfo(memory: bool)

  datatype Reply = Done | Refused(error: int)

  const BAD_ADDR := 1
  const OUT_STATE := 3
  const SYS_ERR := 4
  const UNSUPPORTED := 7
  const TOO_MANY := 19

  predicate WellFormed(r: Request) {
    && (r.SubsBindReq? || r.SubsUnbindReq? ==> |r.addr| >= 5)
    && (r.EnableMultiReq? || r.DisableMultiReq? ==> |r.addr| == 6)
  }

  /** What a bind request answers, apart from memory. */
  function BindError(st: Dlpi, r: Request): int
    requires r.BindReq?
  {
    var short := Wrap16(r.sap);
    if st.bound then OUT_STATE
    else if !r.connectionless then UNSUPPORTED
    else if r.sap <= 0xfe && r.sap % 2 == 1 then BAD_ADDR
    else if Classify(short, short).Unknown? then BAD_ADDR
    else if !r.memory then SYS_ERR
    else 0
  }

  /** SAPs a stream can be bound to: even 802.2 SAPs, IPX, Ethernet types. */
  predicate Bindable(sap: int) {
    (0 <= sap <= 0xfe && sap % 2 == 0) || sap == 0xff || 1501 <= sap < 0x1_0000
  }

  /** Which binds succeed, for SAPs of 16 bits. */
  lemma BindAccepts(st: Dlpi, r: Request)
    requires r.BindReq? && r.sap < 0x1_0000
    ensures BindError(st, r) == 0 <==> !st.bound && r.connectionless && r.memory && Bindable(r.sap)
  {
  }

  /** What a subsequent bind answers, apart from memory; class 1 adds a group SAP, class 2 a SNAP. */
  function SubsBindError(st: Dlpi, r: Request): int
    requires r.SubsBindReq? && WellFormed(r)
  {
    if !st.bound then OUT_STATE
    else if r.bindClass == 1 then
      if st.dlsap > 0xfe then UNSUPPORTED
      else if IsGroup(r) || IsAll(r) then 0 else BAD_ADDR
    else if r.bindClass == 2 then
      if st.dlsap != 0xaa then BAD_ADDR else if st.snapStream then TOO_MANY else 0
    else UNSUPPORTED
  }

  /** The 16-bit SAP is odd and the address is just that SAP. */
  predicate IsGroup(r: Request)
    requires r.SubsBindReq? && WellFormed(r)
  {
    Odd(r.addr[1]) && r.length == 2
  }

  /** SAP zero asks for all 802.2 packets. */
  predicate IsAll(r: Request)
    requires r.SubsBindReq? && WellFormed(r)
  {
    r.addr[0] == 0 && r.addr[1] == 0
  }

  function SubsUnbindError(st: Dlpi, r: Request): int
    requires r.SubsUnbindReq? && WellFormed(r)
  {
    if !st.bound then OUT_STATE
    else if r.length == 1 then
      if Odd(r.addr[0]) && r.addr[0] != 0xff then (if st.dlsap <= 0xfe then 0 else UNSUPPORTED) else BAD_ADDR
    else if r.length == 5 then
      if st.dlsap != 0xaa then UNSUPPORTED
      else if st.snapStream && st.snap == r.addr[..5] then 0 else BAD_ADDR
    else 0
  }

  /** The state after a request. */
  function Next(st: Dlpi, r: Request): Dlpi
    requires WellFormed(r)
  {
    match r
    case BindReq(sap, _, _) =>
      if BindError(st, r) != 0 then st
      else st.(bound := true, dlsap := Wrap16(sap), snapStream := false,
               groups := if sap <= 0xfe then iset{0xff} else iset{})
    case UnbindReq => if st.bound then st.(bound := false, dlsap := 0) else st
    case SubsBindReq(cls, addr, _, _) =>
      if SubsBindError(st, r) != 0 then st
      else if cls == 2 then st.(snap := addr[..5], snapStream := true)
      else if IsGroup(r) then st.(groups := st.groups + iset{addr[1]})
      else st.(acceptAll := true)
    case SubsUnbindReq(addr, length) =>
      if SubsUnbindError(st, r) != 0 then st
      else st.(snapStream := false, groups := if length == 1 then st.groups - iset{addr[0]} else st.groups)
    case EnableMultiReq(addr) =>
      if !AddressTypeOf(addr).Multicast? || addr in st.multicasts then st
      else st.(multicasts := [addr] + st.multicasts, acceptMulticasts := true)
    case DisableMultiReq(addr) =>
      if !AddressTypeOf(addr).Multicast? || addr !in st.multicasts then st
      else
        var rest := Removed(st.multicasts, addr);
        st.(multicasts := rest, acceptMulticasts := st.acceptMulticasts && rest != [])
    case HeaderInfo(memory) => if memory then st.(fastPath := true) else st
  }

  function ReplyTo(st: Dlpi, r: Request): Reply
    requires WellFormed(r)
  {
    var e := match r
      case BindReq(_, _, _) => BindError(st, r)
      case UnbindReq => if st.bound then 0 else OUT_STATE
      case SubsBindReq(_, _, _, memory) =>
        var e := SubsBindError(st, r); if e == 0 && !memory then SYS_ERR else e
      case SubsUnbindReq(_, _) => SubsUnbindError(st, r)
      case EnableMultiReq(addr) => if AddressTypeOf(addr).Multicast? && addr !in st.multicasts then 0 else BAD_ADDR
      case DisableMultiReq(addr) => if AddressTypeOf(addr).Multicast? && addr in st.multicasts then 0 else BAD_ADDR
      case HeaderInfo(memory) => if memory then 0 else SYS_ERR;
    if e == 0 then Done else Refused(e)
  }

  predicate AllMulticast(list: seq<seq<bv8>>) {
    forall i | 0 <= i < |list| :: |list[i]| == 6 && AddressTypeOf(list[i]).Multicast?
  }

  /** What every reachable stream state satisfies. */
  ghost predicate Inv(st: Dlpi) {
    && (if st.bound then Bindable(st.dlsap) else st.dlsap == 0)
    && (st.bound && st.snapStream ==> st.dlsap == 0xaa && |st.snap| == 5)
    && (st.bound ==> (0xff in st.groups <==> st.dlsap <= 0xfe))
    && (st.bound && st.dlsap > 0xfe ==> st.groups == iset{})
    && (forall s | s in st.groups :: Odd(s))
    && (st.acceptMulticasts <==> st.multicasts != [])
    && NoDuplicates(st.multicasts) && AllMulticast(st.multicasts)
  }

  /** The 16 bits of the SAP that are kept tell 802.2 from the rest as the 32 bits received do. */
  predicate KeptFaithfully(r: Request) {
    r.BindReq? ==> (r.sap <= 0xfe <==> Wrap16(r.sap) <= 0xfe)
  }

  function Opened(groups: iset<bv8>, snap: seq<bv8>): Dlpi {
    Dlpi(false, 0, false, snap, false, false, false, groups, [])
  }

  lemma {:induction false} RemovedHas(list: seq<seq<bv8>>, addr: seq<bv8>)
    requires NoDuplicates(list)
    ensures NoDuplicates(Removed(list, addr)) && addr !in Removed(list, addr)
    ensures forall a :: a in Removed(list, addr) <==> a in list && a != addr
  {
    if list != [] {
      var rest := list[1..];
      assert NoDuplicates(rest) by {
        assert forall i | 0 <= i < |rest| :: rest[i] == list[i + 1];
      }
      assert list[0] !in rest by {
        assert forall i | 0 <= i < |rest| :: rest[i] == list[i + 1];
      }
      RemovedHas(rest, addr);
      assert forall a :: a in list <==> a == list[0] || a in rest;
    }
  }

  lemma {:induction false} RemovedMulticast(list: seq<seq<bv8>>, addr: seq<bv8>)
    requires AllMulticast(list)
    ensures AllMulticast(Removed(list, addr))
  {
    hide AddressTypeOf;
    if list != [] {
      RemovedMulticast(list[1..], addr);
    }
  }

  lemma ListStepKeepsInv(st: Dlpi, r: Request)
    requires Inv(st) && WellFormed(r) && (r.EnableMultiReq? || r.DisableMultiReq?)
    ensures Inv(Next(st, r))
  {
    hide AddressTypeOf, Bindable;
    if r.DisableMultiReq? {
      RemovedHas(st.multicasts, r.addr);
      RemovedMulticast(st.multicasts, r.addr);
    }
  }

  lemma BindStepKeepsInv(st: Dlpi, r: Request)
    requires Inv(st) && WellFormed(r) && r.BindReq? && KeptFaithfully(r)
    ensures Inv(Next(st, r))
  {
    hide AllMulticast, NoDuplicates;
    KeepsParity(r.sap);
  }

  lemma KeepsParity(x: Word)
    ensures x < 0x1_0000 ==> Wrap16(x) == x
  {
  }

  lemma GroupStepKeepsInv(st: Dlpi, r: Request)
    requires Inv(st) && WellFormed(r) && (r.SubsBindReq? || r.SubsUnbindReq? || r.UnbindReq? || r.HeaderInfo?)
    ensures Inv(Next(st, r))
  {
    hide AllMulticast, NoDuplicates, Bindable;
  }

  lemma StepKeepsInv(st: Dlpi, r: Request)
    requires Inv(st) && WellFormed(r) && KeptFaithfully(r)
    ensures Inv(Next(st, r))
  {
    hide Next, Inv;
    match r
    case BindReq(_, _, _) => BindStepKeepsInv(st, r);
    case EnableMultiReq(_) => ListStepKeepsInv(st, r);
    case DisableMultiReq(_) => ListStepKeepsInv(st, r);
    case _ => GroupStepKeepsInv(st, r);
  }

  /** A successful bind keeps the invariant exactly when truncating the SAP told no lie. */
  lemma BindInvExactly(st: Dlpi, r: Request)
    requires Inv(st) && r.BindReq? && BindError(st, r) == 0
    ensures Inv(Next(st, r)) <==> KeptFaithfully(r)
  {
    if KeptFaithfully(r) {
      BindStepKeepsInv(st, r);
    }
  }

  predicate AllWellFormed(rs: seq<Request>) {
    forall i | 0 <= i < |rs| :: WellFormed(rs[i])
  }

  function After(st: Dlpi, rs: seq<Request>): Dlpi
    requires AllWellFormed(rs)
    decreases |rs|
  {
    if rs == [] then st else Next(After(st, rs[..|rs| - 1]), rs[|rs| - 1])
  }

  lemma {:induction false} RunKeepsInv(st: Dlpi, rs: seq<Request>)
    requires Inv(st) && AllWellFormed(rs) && forall i | 0 <= i < |rs| :: KeptFaithfully(rs[i])
    ensures Inv(After(st, rs))
    decreases |rs|
  {
    hide Next, Inv, KeptFaithfully, WellFormed;
    if rs != [] {
      var front := rs[..|rs| - 1];
      RunKeepsInv(st, front);
      StepKeepsInv(After(st, front), rs[|rs| - 1]);
    }
  }

  /** Every state reached from a newly opened stream satisfies the invariant. */
  lemma ReachableInv(groups: iset<bv8>, snap: seq<bv8>, rs: seq<Request>)
    requires AllWellFormed(rs) && (forall i | 0 <= i < |rs| :: KeptFaithfully(rs[i]))
    requires forall s | s in groups :: Odd(s)
    ensures Inv(After(Opened(groups, snap), rs))
  {
    hide After;
    RunKeepsInv(Opened(groups, snap), rs);
  }

  /** The request that asks for all 802.2 packets, and gets them. */
  predicate AsksForAll(st: Dlpi, r: Request)
    requires WellFormed(r)
  {
    r.SubsBindReq? && SubsBindError(st, r) == 0 && r.bindClass == 1 && !IsGroup(r)
  }

  lemma OnlyAskingSetsAll(st: Dlpi, r: Request)
    requires WellFormed(r)
    ensures Next(st, r).acceptAll <==> st.acceptAll || AsksForAll(st, r)
  {
    hide AddressTypeOf, Removed, Classify, IsGroup, IsAll;
  }

  /** Some request of the run asked for all 802.2 packets, at a time when it could. */
  predicate EverAsked(st: Dlpi, rs: seq<Request>)
    requires AllWellFormed(rs)
    decreases |rs|
  {
    rs != [] &&
    var front := rs[..|rs| - 1];
    EverAsked(st, front) || AsksForAll(After(st, front), rs[|rs| - 1])
  }

  /** Receiving all 802.2 packets is switched on by the first such request and never off again, not
      even by unbinding and binding to something else. */
  lemma {:induction false} AcceptAllIsForGood(st: Dlpi, rs: seq<Request>)
    requires AllWellFormed(rs)
    ensures After(st, rs).acceptAll <==> st.acceptAll || EverAsked(st, rs)
    decreases |rs|
  {
    hide AsksForAll, Next, WellFormed;
    if rs != [] {
      var front := rs[..|rs| - 1];
      AcceptAllIsForGood(st, front);
      OnlyAskingSetsAll(After(st, front), rs[|rs| - 1]);
    }
  }
}
