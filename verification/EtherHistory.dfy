/** What a stream is bound to, told from the requests it has been through. */
module EtherHistory {
  import opened Bytes
  import opened EtherBits
  import opened EtherFrame
  import opened EtherMulticast
  import opened EtherStream

  /** Something requests bind a stream to and unbind it from. */
  datatype Binding = Own(dlsap: int) | Group(sap: bv8) | Snapped(snap: seq<bv8>) | Member(addr: seq<bv8>)

  predicate Holds(st: Dlpi, b: Binding) {
    match b
    case Own(dlsap) => st.bound && st.dlsap == dlsap
    case Group(sap) => sap in st.groups
    case Snapped(snap) => st.snapStream && st.snap == snap
    case Member(addr) => addr in st.multicasts
  }

  /** The request binds: a bind to the low 16 bits of its SAP; a subsequent bind to the group SAP, or a
      bind to 802.2 to the global one; a hierarchical bind to the SNAP; enabling the multicast address. */
  predicate Adds(st: Dlpi, r: Request, b: Binding)
    requires WellFormed(r)
  {
    match b
    case Own(dlsap) => r.BindReq? && BindError(st, r) == 0 && dlsap == Wrap16(r.sap)
    case Group(s) =>
      || (r.BindReq? && BindError(st, r) == 0 && r.sap <= 0xfe && s == 0xff)
      || (r.SubsBindReq? && SubsBindError(st, r) == 0 && r.bindClass == 1 && IsGroup(r) && r.addr[1] == s)
    case Snapped(snap) => r.SubsBindReq? && SubsBindError(st, r) == 0 && r.bindClass == 2 && r.addr[..5] == snap
    case Member(addr) => r.EnableMultiReq? && r.addr == addr && AddressTypeOf(r.addr).Multicast?
  }

  /** The request unbinds: an unbind from its own SAP; a subsequent unbind from the group SAP, or any
      bind; for a SNAP any subsequent unbind, be it from a group SAP, or any bind; disabling the multicast
      address. */
  predicate Drops(st: Dlpi, r: Request, b: Binding)
    requires WellFormed(r)
  {
    match b
    case Own(_) => r.UnbindReq?
    case Group(s) =>
      || (r.BindReq? && BindError(st, r) == 0)
      || (r.SubsUnbindReq? && SubsUnbindError(st, r) == 0 && r.length == 1 && r.addr[0] == s)
    case Snapped(_) =>
      (r.BindReq? && BindError(st, r) == 0) || (r.SubsUnbindReq? && SubsUnbindError(st, r) == 0)
    case Member(addr) => r.DisableMultiReq? && r.addr == addr && AddressTypeOf(r.addr).Multicast?
  }

  lemma OwnStep(st: Dlpi, r: Request, dlsap: int)
    requires WellFormed(r)
    ensures Holds(Next(st, r), Own(dlsap))
            <==> Adds(st, r, Own(dlsap)) || (Holds(st, Own(dlsap)) && !Drops(st, r, Own(dlsap)))
  {
    hide AddressTypeOf, Removed, Classify, IsGroup, IsAll, Odd;
  }

  lemma GroupStep(st: Dlpi, r: Request, s: bv8)
    requires WellFormed(r)
    ensures s in Next(st, r).groups <==> Adds(st, r, Group(s)) || (s in st.groups && !Drops(st, r, Group(s)))
  {
    hide AddressTypeOf, Removed, Classify, IsGroup, IsAll, Odd;
  }

  lemma SnapStep(st: Dlpi, r: Request, snap: seq<bv8>)
    requires WellFormed(r)
    ensures Holds(Next(st, r), Snapped(snap))
            <==> Adds(st, r, Snapped(snap)) || (Holds(st, Snapped(snap)) && !Drops(st, r, Snapped(snap)))
  {
    hide AddressTypeOf, Removed, Classify, IsGroup, IsAll, Odd;
  }

  lemma MemberStep(st: Dlpi, r: Request, addr: seq<bv8>)
    requires WellFormed(r) && NoDuplicates(st.multicasts)
    ensures addr in Next(st, r).multicasts
            <==> Adds(st, r, Member(addr)) || (addr in st.multicasts && !Drops(st, r, Member(addr)))
    ensures NoDuplicates(Next(st, r).multicasts)
  {
    hide AddressTypeOf, Classify, IsGroup, IsAll, Odd;
    if r.DisableMultiReq? {
      RemovedHas(st.multicasts, r.addr);
    }
  }

  lemma BindingStep(st: Dlpi, r: Request, b: Binding)
    requires WellFormed(r) && (b.Member? ==> NoDuplicates(st.multicasts))
    ensures Holds(Next(st, r), b) <==> Adds(st, r, b) || (Holds(st, b) && !Drops(st, r, b))
    ensures b.Member? ==> NoDuplicates(Next(st, r).multicasts)
  {
    hide Next, Adds, Drops, NoDuplicates;
    match b
    case Own(dlsap) => OwnStep(st, r, dlsap);
    case Group(s) => GroupStep(st, r, s);
    case Snapped(snap) => SnapStep(st, r, snap);
    case Member(addr) => MemberStep(st, r, addr);
  }

  /** The `j`-th request unbinds it. */
  predicate DropsAt(st: Dlpi, rs: seq<Request>, b: Binding, j: nat)
    requires AllWellFormed(rs) && j < |rs|
  {
    Drops(After(st, rs[..j]), rs[j], b)
  }

  /** No request from the `i`-th on unbinds it. */
  predicate KeptFrom(st: Dlpi, rs: seq<Request>, b: Binding, i: nat)
    requires AllWellFormed(rs)
  {
    forall j: nat | i <= j < |rs| :: !DropsAt(st, rs, b, j)
  }

  /** The `i`-th request binds it, for good. */
  predicate BoundAt(st: Dlpi, rs: seq<Request>, b: Binding, i: nat)
    requires AllWellFormed(rs) && i < |rs|
  {
    Adds(After(st, rs[..i]), rs[i], b) && KeptFrom(st, rs, b, i + 1)
  }

  lemma KeptInFront(st: Dlpi, rs: seq<Request>, b: Binding, i: nat)
    requires AllWellFormed(rs) && rs != [] && i < |rs|
    ensures var n := |rs| - 1;
            KeptFrom(st, rs, b, i) <==> KeptFrom(st, rs[..n], b, i) && !Drops(After(st, rs[..n]), rs[n], b)
  {
    hide Drops, After, DropsAt;
    var n := |rs| - 1;
    forall j: nat | j < n
      ensures DropsAt(st, rs[..n], b, j) <==> DropsAt(st, rs, b, j)
    {
      DropsInFront(st, rs, b, j);
    }
    LastDrops(st, rs, b);
  }

  lemma DropsInFront(st: Dlpi, rs: seq<Request>, b: Binding, j: nat)
    requires AllWellFormed(rs) && j + 1 < |rs|
    ensures DropsAt(st, rs[..|rs| - 1], b, j) <==> DropsAt(st, rs, b, j)
  {
    hide Drops, After;
    assert rs[..|rs| - 1][..j] == rs[..j];
  }

  lemma LastDrops(st: Dlpi, rs: seq<Request>, b: Binding)
    requires AllWellFormed(rs) && rs != []
    ensures var n := |rs| - 1; DropsAt(st, rs, b, n) <==> Drops(After(st, rs[..n]), rs[n], b)
  {
    hide Drops, After;
  }

  predicate BoundSomewhere(st: Dlpi, rs: seq<Request>, b: Binding)
    requires AllWellFormed(rs)
  {
    exists i: nat | i < |rs| :: BoundAt(st, rs, b, i)
  }

  lemma BoundInFront(st: Dlpi, rs: seq<Request>, b: Binding, i: nat)
    requires AllWellFormed(rs) && rs != [] && i < |rs| - 1
    ensures var n := |rs| - 1;
            BoundAt(st, rs, b, i) <==> BoundAt(st, rs[..n], b, i) && !Drops(After(st, rs[..n]), rs[n], b)
  {
    var front := rs[..|rs| - 1];
    hide Adds, Drops, After, KeptFrom;
    assert front[..i] == rs[..i];
    KeptInFront(st, rs, b, i + 1);
  }

  lemma BoundStep(st: Dlpi, rs: seq<Request>, b: Binding)
    requires AllWellFormed(rs) && rs != []
    ensures var n := |rs| - 1;
            var before := After(st, rs[..n]);
            BoundSomewhere(st, rs, b)
            <==> Adds(before, rs[n], b) || (BoundSomewhere(st, rs[..n], b) && !Drops(before, rs[n], b))
  {
    var n := |rs| - 1;
    assert BoundAt(st, rs, b, n) <==> Adds(After(st, rs[..n]), rs[n], b);
    forall i: nat | i < n
      ensures BoundAt(st, rs, b, i) <==> BoundAt(st, rs[..n], b, i) && !Drops(After(st, rs[..n]), rs[n], b)
    {
      BoundInFront(st, rs, b, i);
    }
    hide Adds, Drops, After, KeptFrom, BoundAt;
  }

  /** What a stream is bound to, whatever it has been through: what some request bound it to that no later
      one has undone, and what it was bound to at first that none has. */
  lemma {:induction false} BindingsAreLive(st: Dlpi, rs: seq<Request>, b: Binding)
    requires AllWellFormed(rs) && (b.Member? ==> NoDuplicates(st.multicasts))
    ensures Holds(After(st, rs), b) <==> BoundSomewhere(st, rs, b) || (Holds(st, b) && KeptFrom(st, rs, b, 0))
    ensures b.Member? ==> NoDuplicates(After(st, rs).multicasts)
    decreases |rs|
  {
    if rs != [] {
      var n := |rs| - 1;
      var front := rs[..n];
      BindingsAreLive(st, front, b);
      BindingStep(After(st, front), rs[n], b);
      KeptInFront(st, rs, b, 0);
      BoundStep(st, rs, b);
      hide Adds, Drops, Holds, Next, KeptFrom, BoundSomewhere, WellFormed, NoDuplicates;
    }
  }

  /** The SAP of a stream: the one of the bind that no unbind has undone. */
  lemma SapIsLive(groups: iset<bv8>, snap: seq<bv8>, rs: seq<Request>, dlsap: int)
    requires AllWellFormed(rs)
    ensures var st := After(Opened(groups, snap), rs);
            st.bound && st.dlsap == dlsap <==> BoundSomewhere(Opened(groups, snap), rs, Own(dlsap))
  {
    hide After, BoundSomewhere, KeptFrom;
    BindingsAreLive(Opened(groups, snap), rs, Own(dlsap));
  }

  /** The group SAPs of a stream: those bound by a request that no later one has undone, where every bind
      undoes them all; and what the allocation left in the bitmap until the first bind. */
  lemma GroupsAreLive(st: Dlpi, rs: seq<Request>, s: bv8)
    requires AllWellFormed(rs)
    ensures s in After(st, rs).groups
            <==> BoundSomewhere(st, rs, Group(s)) || (s in st.groups && KeptFrom(st, rs, Group(s), 0))
  {
    hide After, BoundSomewhere, KeptFrom;
    BindingsAreLive(st, rs, Group(s));
  }

  /** The SNAP of a stream: the one of a hierarchical bind that no bind and no subsequent unbind has undone
      since. */
  lemma SnapIsLive(groups: iset<bv8>, first: seq<bv8>, rs: seq<Request>, snap: seq<bv8>)
    requires AllWellFormed(rs)
    ensures var st := After(Opened(groups, first), rs);
            st.snapStream && st.snap == snap <==> BoundSomewhere(Opened(groups, first), rs, Snapped(snap))
  {
    hide After, BoundSomewhere, KeptFrom;
    BindingsAreLive(Opened(groups, first), rs, Snapped(snap));
  }

  /** The multicast addresses of a stream: those enabled and not disabled since. */
  lemma MembersAreLive(groups: iset<bv8>, snap: seq<bv8>, rs: seq<Request>, addr: seq<bv8>)
    requires AllWellFormed(rs)
    ensures addr in After(Opened(groups, snap), rs).multicasts
            <==> BoundSomewhere(Opened(groups, snap), rs, Member(addr))
  {
    hide After, BoundSomewhere, KeptFrom;
    BindingsAreLive(Opened(groups, snap), rs, Member(addr));
  }

  /** A stream is on the fast path if and only if it ever asked for the header and got it. */
  lemma {:induction false} FastPathIsForGood(st: Dlpi, rs: seq<Request>)
    requires AllWellFormed(rs)
    ensures After(st, rs).fastPath <==> st.fastPath || exists i | 0 <= i < |rs| :: rs[i].HeaderInfo? && rs[i].memory
    decreases |rs|
  {
    if rs != [] {
      var n := |rs| - 1;
      FastPathIsForGood(st, rs[..n]);
      FastPathStep(After(st, rs[..n]), rs[n]);
      assert forall i | 0 <= i < n :: rs[..n][i] == rs[i];
      hide Next;
    }
  }

  lemma FastPathStep(st: Dlpi, r: Request)
    requires WellFormed(r)
    ensures Next(st, r).fastPath <==> st.fastPath || (r.HeaderInfo? && r.memory)
  {
    hide AddressTypeOf, Removed, BindError, SubsBindError, SubsUnbindError, IsGroup;
  }

  // ---------- replies ----------

  /** What a request asks for has come about. */
  predicate Granted(st: Dlpi, r: Request)
    requires WellFormed(r)
  {
    match r
    case BindReq(sap, _, _) => Holds(st, Own(Wrap16(sap)))
    case UnbindReq => !st.bound
    case SubsBindReq(cls, addr, length, _) =>
      if cls == 2 then Holds(st, Snapped(addr[..5]))
      else if Odd(addr[1]) && length == 2 then Holds(st, Group(addr[1])) else st.acceptAll
    case SubsUnbindReq(addr, length) => !st.snapStream && (length == 1 ==> !Holds(st, Group(addr[0])))
    case EnableMultiReq(addr) => Holds(st, Member(addr)) && st.acceptMulticasts
    case DisableMultiReq(addr) => !Holds(st, Member(addr))
    case HeaderInfo(_) => st.fastPath
  }

  /** Requests that a stream in its state cannot take: binding one that is bound, or changing the binding
      of one that is not. */
  predicate WrongState(st: Dlpi, r: Request) {
    if st.bound then r.BindReq? else r.UnbindReq? || r.SubsBindReq? || r.SubsUnbindReq?
  }

  /** Replies tell the truth: a request acknowledged has been granted, one refused has changed nothing -
      but for a subsequent bind, granted and then refused if the reply cannot be allocated.  `OUT_STATE`
      is the answer exactly in the wrong state, `SYS_ERR` only for lack of memory. */
  lemma RepliesAreTrue(st: Dlpi, r: Request)
    requires WellFormed(r) && NoDuplicates(st.multicasts)
    ensures ReplyTo(st, r).Done? ==> Granted(Next(st, r), r)
    ensures ReplyTo(st, r).Refused? ==>
              Next(st, r) == st || (ReplyTo(st, r).error == SYS_ERR && r.SubsBindReq? && Granted(Next(st, r), r))
    ensures ReplyTo(st, r) == Refused(OUT_STATE) <==> WrongState(st, r)
    ensures ReplyTo(st, r) == Refused(SYS_ERR) ==>
              !(match r case BindReq(_, _, memory) => memory case SubsBindReq(_, _, _, memory) => memory
                        case HeaderInfo(memory) => memory case _ => true)
  {
    hide AddressTypeOf, Classify, Odd, NoDuplicates;
    if r.DisableMultiReq? {
      RemovedHas(st.multicasts, r.addr);
    }
  }
}
