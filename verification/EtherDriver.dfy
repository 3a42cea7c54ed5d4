/** The stream object of the Ethernet driver: flag word, SAP bitmap and multicast list, each request
    handler refining the stream state of `EtherStream`. */
module EtherDriver {
  import opened Bytes
  import opened EtherBits
  import opened EtherFrame
  import opened EtherStream
  import opened EtherMulticast

  const DL_UNBOUND := 0
  const DL_IDLE := 3

  /** Which of the four bitmap words, and which bit of it, belongs to a SAP. */
  function WordOf(sap: bv8): (i: nat)
    ensures i < 4
  {
    if sap >> 6 == 0 then 0 else if sap >> 6 == 1 then 1 else if sap >> 6 == 2 then 2 else 3
  }

  predicate TestBit(words: seq<bv32>, sap: bv8)
    requires |words| == 4
  {
    BitIn(words[WordOf(sap)], sap)
  }

  /** The group SAPs, all odd, that the bitmap stands for. */
  ghost function Groups(words: seq<bv32>): iset<bv8>
    requires |words| == 4
  {
    iset s: bv8 | Odd(s) && TestBit(words, s)
  }

  lemma SameWord(s: bv8, t: bv8)
    requires WordOf(s) == WordOf(t)
    ensures s >> 6 == t >> 6
  {
  }

  lemma OneBit(w: bv32, s: bv8, t: bv8)
    requires Odd(s) && Odd(t) && WordOf(s) == WordOf(t)
    ensures BitIn(WithBit(w, s), t) <==> s == t || BitIn(w, t)
    ensures BitIn(WithoutBit(w, s), t) <==> s != t && BitIn(w, t)
  {
    hide WordOf, Odd, BitIn, WithBit, WithoutBit;
    SameWord(s, t);
    OneBitSet(w, s, t);
    OneBitCleared(w, s, t);
  }

  lemma SetAdds(words: seq<bv32>, s: bv8)
    requires |words| == 4 && Odd(s)
    ensures Groups(words[WordOf(s) := WithBit(words[WordOf(s)], s)]) == Groups(words) + iset{s}
    ensures Groups(words[WordOf(s) := WithoutBit(words[WordOf(s)], s)]) == Groups(words) - iset{s}
  {
    hide WordOf, WithBit, WithoutBit, BitIn, Odd;
    var with := words[WordOf(s) := WithBit(words[WordOf(s)], s)];
    var less := words[WordOf(s) := WithoutBit(words[WordOf(s)], s)];
    forall t: bv8 | Odd(t)
      ensures TestBit(with, t) <==> t == s || TestBit(words, t)
      ensures TestBit(less, t) <==> t != s && TestBit(words, t)
    {
      if WordOf(s) == WordOf(t) {
        OneBit(words[WordOf(s)], s, t);
      }
    }
  }

  lemma NoBits(words: seq<bv32>)
    requires |words| == 4 && forall i | 0 <= i < 4 :: words[i] == 0
    ensures Groups(words) == iset{}
  {
    hide BitIn, WordOf, Odd;
    forall t: bv8
      ensures !TestBit(words, t)
    {
      NoBitIn(t);
    }
  }

  class Stream {
    var dlpiState: int
    var flags: bv32
    var dlsap: int
    const groupSap: array<bv32>
    var snap: seq<bv8>
    const multicasts: MulticastList

    ghost predicate Valid()
      reads this, multicasts, multicasts.repr
    {
      (dlpiState == DL_UNBOUND || dlpiState == DL_IDLE) && groupSap.Length == 4 && multicasts.Valid()
    }

    ghost function Abs(): Dlpi
      requires Valid()
      reads this, groupSap, multicasts, multicasts.repr
    {
      Dlpi(dlpiState == DL_IDLE, dlsap, Has(flags, SNAP_STREAM), snap, Has(flags, ACCEPT_ALL_8022),
           Has(flags, FAST_PATH), Has(flags, ACCEPT_MULTICASTS), Groups(groupSap[..]), multicasts.Addrs())
    }

    /** `ether_open`: the bitmap and the SNAP hold whatever the allocation left there. */
    constructor (words: array<bv32>, garbage: seq<bv8>)
      requires words.Length == 4
      ensures Valid() && groupSap == words && fresh(multicasts) && Abs() == Opened(Groups(words[..]), garbage)
    {
      dlpiState, flags, dlsap, groupSap, snap := DL_UNBOUND, 0, 0, words, garbage;
      multicasts := new MulticastList();
      new;
      hide Groups, Has, Raised, Lowered, Odd;
      NoFlags();
    }

    method SetGroupSAP(sap: bv8)
      requires Valid() && Odd(sap)
      modifies groupSap
      ensures Groups(groupSap[..]) == Groups(old(groupSap[..])) + iset{sap}
    {
      hide Groups, WordOf, WithBit, Odd;
      SetAdds(groupSap[..], sap);
      ghost var before := groupSap[..];
      groupSap[WordOf(sap)] := WithBit(groupSap[WordOf(sap)], sap);
      assert groupSap[..] == before[WordOf(sap) := WithBit(before[WordOf(sap)], sap)];
    }

    method ClearGroupSAP(sap: bv8)
      requires Valid() && Odd(sap)
      modifies groupSap
      ensures Groups(groupSap[..]) == Groups(old(groupSap[..])) - iset{sap}
    {
      hide Groups, WordOf, WithoutBit, Odd;
      SetAdds(groupSap[..], sap);
      ghost var before := groupSap[..];
      groupSap[WordOf(sap)] := WithoutBit(groupSap[WordOf(sap)], sap);
      assert groupSap[..] == before[WordOf(sap) := WithoutBit(before[WordOf(sap)], sap)];
    }

    method ClearAllGroupSAPs()
      requires Valid()
      modifies groupSap
      ensures Groups(groupSap[..]) == iset{}
    {
      for i := 0 to 4
        invariant forall j | 0 <= j < i :: groupSap[j] == 0
      {
        groupSap[i] := 0;
      }
      NoBits(groupSap[..]);
    }

    method TestGroupSAP(sap: bv8) returns (bound: bool)
      requires Valid() && Odd(sap)
      ensures bound <==> sap in Groups(groupSap[..])
    {
      hide BitIn, WordOf, Odd;
      bound := BitIn(groupSap[WordOf(sap)], sap);
    }

    method Bind(sap: Word, connectionless: bool, memory: bool) returns (reply: Reply)
      requires Valid()
      modifies this, groupSap
      ensures Valid()
      ensures var r := BindReq(sap, connectionless, memory);
        Abs() == Next(old(Abs()), r) && reply == ReplyTo(old(Abs()), r)
    {
      hide Groups, Has, Raised, Lowered, Odd;
      if dlpiState != DL_UNBOUND {
        return Refused(OUT_STATE);
      }
      if !connectionless {
        return Refused(UNSUPPORTED);
      }
      if sap <= MAX_8022_SAP && sap % 2 == 1 {
        return Refused(BAD_ADDR);
      }
      if Classify(Wrap16(sap), Wrap16(sap)).Unknown? {
        return Refused(BAD_ADDR);
      }
      if !memory {
        return Refused(SYS_ERR);
      }
      ClearAllGroupSAPs();
      if sap <= MAX_8022_SAP {
        GlobalIsOdd();
        SetGroupSAP(0xff);
      }
      dlpiState := DL_IDLE;
      dlsap := Wrap16(sap);
      LowerFlag(flags, SNAP_STREAM);
      flags := Lowered(flags, SNAP_STREAM);
      return Done;
    }

    method Unbind() returns (reply: Reply)
      requires Valid()
      modifies this
      ensures Valid() && Abs() == Next(old(Abs()), UnbindReq) && reply == ReplyTo(old(Abs()), UnbindReq)
    {
      hide Groups, Has, Raised, Lowered, Odd;
      if dlpiState != DL_IDLE {
        return Refused(OUT_STATE);
      }
      dlpiState, dlsap := DL_UNBOUND, 0;
      return Done;
    }

    method SubsBind(bindClass: int, addr: seq<bv8>, length: int, memory: bool) returns (reply: Reply)
      requires Valid() && |addr| >= 5
      modifies this, groupSap
      ensures Valid()
      ensures var r := SubsBindReq(bindClass, addr, length, memory);
        Abs() == Next(old(Abs()), r) && reply == ReplyTo(old(Abs()), r)
    {
      hide Groups, Has, Raised, Lowered, Odd;
      if dlpiState != DL_IDLE {
        return Refused(OUT_STATE);
      }
      if bindClass == 1 {
        if dlsap <= MAX_8022_SAP {
          if Odd(addr[1]) && length == 2 {
            SetGroupSAP(addr[1]);
          } else if addr[0] == 0 && addr[1] == 0 {
            RaiseFlag(flags, ACCEPT_ALL_8022);
            flags := Raised(flags, ACCEPT_ALL_8022);
          } else {
            return Refused(BAD_ADDR);
          }
        } else {
          return Refused(UNSUPPORTED);
        }
      } else if bindClass == 2 {
        if dlsap == SNAP_SAP {
          if Has(flags, SNAP_STREAM) {
            return Refused(TOO_MANY);
          }
          RaiseFlag(flags, SNAP_STREAM);
          snap, flags := addr[..5], Raised(flags, SNAP_STREAM);
        } else {
          return Refused(BAD_ADDR);
        }
      } else {
        return Refused(UNSUPPORTED);
      }
      return if memory then Done else Refused(SYS_ERR);
    }

    method SubsUnbind(addr: seq<bv8>, length: int) returns (reply: Reply)
      requires Valid() && |addr| >= 5
      modifies this, groupSap
      ensures Valid()
      ensures var r := SubsUnbindReq(addr, length);
        Abs() == Next(old(Abs()), r) && reply == ReplyTo(old(Abs()), r)
    {
      hide Groups, Has, Raised, Lowered, Odd;
      if dlpiState != DL_IDLE {
        return Refused(OUT_STATE);
      }
      if length == 1 {
        if Odd(addr[0]) && addr[0] != 0xff {
          if dlsap <= MAX_8022_SAP {
            ClearGroupSAP(addr[0]);
          } else {
            return Refused(UNSUPPORTED);
          }
        } else {
          return Refused(BAD_ADDR);
        }
      } else if length == 5 {
        if dlsap == SNAP_SAP {
          if !Has(flags, SNAP_STREAM) || snap != addr[..5] {
            return Refused(BAD_ADDR);
          }
        } else {
          return Refused(UNSUPPORTED);
        }
      }
      LowerFlag(flags, SNAP_STREAM);
      flags := Lowered(flags, SNAP_STREAM);
      return Done;
    }

    method EnableMulti(addr: seq<bv8>) returns (reply: Reply)
      requires Valid() && |addr| == 6
      modifies this, multicasts
      ensures Valid() && Abs() == Next(old(Abs()), EnableMultiReq(addr))
      ensures reply == ReplyTo(old(Abs()), EnableMultiReq(addr))
    {
      hide Groups, Has, Raised, Lowered, AddressTypeOf;
      if !AddressTypeOf(addr).Multicast? {
        return Refused(BAD_ADDR);
      }
      var node, _ := multicasts.Find(addr);
      if node != null {
        return Refused(BAD_ADDR);
      }
      multicasts.Add(addr);
      RaiseFlag(flags, ACCEPT_MULTICASTS);
      flags := Raised(flags, ACCEPT_MULTICASTS);
      return Done;
    }

    method DisableMulti(addr: seq<bv8>) returns (reply: Reply)
      requires Valid() && |addr| == 6
      modifies this, multicasts, multicasts.repr
      ensures Valid() && Abs() == Next(old(Abs()), DisableMultiReq(addr))
      ensures reply == ReplyTo(old(Abs()), DisableMultiReq(addr))
    {
      hide Groups, Has, Raised, Lowered, AddressTypeOf, AddrsOf, Removed, NextAt;
      if !AddressTypeOf(addr).Multicast? {
        return Refused(BAD_ADDR);
      }
      var node, _ := multicasts.Find(addr);
      if node == null {
        return Refused(BAD_ADDR);
      }
      multicasts.Remove(node.addr);
      if multicasts.head == null {
        LowerFlag(flags, ACCEPT_MULTICASTS);
        flags := Lowered(flags, ACCEPT_MULTICASTS);
      }
      return Done;
    }

    /** `DL_IOC_HDR_INFO`, once the header template could be built. */
    method UseFastPath(memory: bool) returns (reply: Reply)
      requires Valid()
      modifies this
      ensures Valid() && Abs() == Next(old(Abs()), HeaderInfo(memory))
      ensures reply == ReplyTo(old(Abs()), HeaderInfo(memory))
    {
      hide Groups, Has, Raised, Lowered, Odd;
      if !memory {
        return Refused(SYS_ERR);
      }
      RaiseFlag(flags, FAST_PATH);
      flags := Raised(flags, FAST_PATH);
      return Done;
    }

    /** `ether_close`: every address still registered is disabled, in list order. */
    method Close() returns (disabled: seq<seq<bv8>>)
      requires Valid()
      modifies multicasts, multicasts.repr
      ensures multicasts.Valid() && multicasts.head == null && disabled == old(multicasts.Addrs())
    {
      disabled := [];
      while multicasts.head != null
        invariant multicasts.Valid() && disabled + multicasts.Addrs() == old(multicasts.Addrs())
        invariant multicasts.repr == old(multicasts.repr)
        decreases |multicasts.Addrs()|
      {
        hide AddrsOf;
        var addr := multicasts.head.addr;
        disabled := disabled + [addr];
        multicasts.Remove(addr);
      }
    }
  }
}
