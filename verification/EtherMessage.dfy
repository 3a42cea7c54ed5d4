/** Message blocks: chains of views into reference-counted data blocks, and their reuse for a
    packet header. */
module EtherMessage {
  import opened Bytes

  class DataBlock {
    var bytes: seq<Byte>
    var refs: int
    var isData: bool

    constructor (content: seq<Byte>)
      ensures bytes == content && refs == 1 && isData
    {
      bytes, refs, isData := content, 1, true;
    }
  }

  class Block {
    var data: DataBlock
    var rptr: nat
    var wptr: nat
    var cont: Block?

    constructor (d: DataBlock)
      ensures data == d && rptr == 0 && wptr == 0 && cont == null
    {
      data, rptr, wptr, cont := d, 0, 0, null;
    }
  }

  /** Where blocks go when freed, and frames when sent. */
  class Pool {
    ghost var freed: seq<Block>
    ghost var sent: seq<seq<Byte>>
  }

  ghost function Datas(bs: seq<Block>): set<DataBlock>
    reads bs`data
  {
    set i | 0 <= i < |bs| :: bs[i].data
  }

  ghost predicate Ok(b: Block)
    reads b`data, b`rptr, b`wptr, b.data`bytes
  {
    b.rptr <= b.wptr <= |b.data.bytes|
  }

  ghost predicate AllOk(bs: seq<Block>)
    reads bs`data, bs`rptr, bs`wptr, Datas(bs)`bytes
  {
    forall i | 0 <= i < |bs| :: Ok(bs[i])
  }

  ghost function Text(b: Block): seq<Byte>
    requires Ok(b)
    reads b`data, b`rptr, b`wptr, b.data`bytes
  {
    b.data.bytes[b.rptr..b.wptr]
  }

  /** The bytes of a whole chain. */
  ghost function Texts(bs: seq<Block>): seq<Byte>
    requires AllOk(bs)
    reads bs`data, bs`rptr, bs`wptr, Datas(bs)`bytes
  {
    if bs == [] then [] else
    assert Ok(bs[0]);
    assert AllOk(bs[1..]) by {
      assert forall i | 0 <= i < |bs| - 1 :: bs[1..][i] == bs[i + 1];
    }
    Text(bs[0]) + Texts(bs[1..])
  }

  /** All blocks carry data, none a protocol request. */
  ghost predicate AllData(bs: seq<Block>)
    reads bs`data, Datas(bs)`isData
  {
    forall i | 0 <= i < |bs| :: bs[i].data.isData
  }

  ghost predicate Linked(first: Block?, bs: seq<Block>)
    reads bs`cont
  {
    && first == HeadOf(bs, 0)
    && forall i | 0 <= i < |bs| :: bs[i].cont == HeadOf(bs, i + 1)
  }

  ghost function HeadOf(bs: seq<Block>, i: nat): Block? {
    if i < |bs| then bs[i] else null
  }

  /** How many blocks of the chain look at `d`. */
  ghost function Users(bs: seq<Block>, d: DataBlock): nat
    reads bs`data
  {
    if bs == [] then 0 else Users(bs[1..], d) + if bs[0].data == d then 1 else 0
  }

  ghost predicate Counted(bs: seq<Block>)
    reads bs`data, Datas(bs)`refs
  {
    forall i | 0 <= i < |bs| :: Users(bs, bs[i].data) <= bs[i].data.refs
  }

  /** `first` heads a well-formed chain made of the blocks `bs`. */
  ghost predicate Message(first: Block?, bs: seq<Block>)
    reads bs, Datas(bs)
  {
    Linked(first, bs) && NoDuplicates(bs) && AllOk(bs) && Counted(bs)
  }

  lemma {:induction false} UsersAt(bs: seq<Block>, i: nat)
    requires i < |bs|
    ensures Users(bs, bs[i].data) >= 1
    ensures forall j | 0 <= j < |bs| && j != i && bs[j].data == bs[i].data :: Users(bs, bs[i].data) >= 2
  {
    var rest := bs[1..];
    if i == 0 {
      forall j | 0 < j < |bs| && bs[j].data == bs[0].data
        ensures Users(bs, bs[0].data) >= 2
      {
        UsersAt(rest, j - 1);
      }
    } else {
      UsersAt(rest, i - 1);
      assert forall j | 0 <= j < |rest| :: rest[j] == bs[j + 1];
    }
  }

  method FreeB(pool: Pool, b: Block)
    modifies pool`freed, b.data`refs
    ensures pool.freed == old(pool.freed) + [b]
    ensures b.data.refs == old(b.data.refs) - 1
  {
    b.data.refs := b.data.refs - 1;
    pool.freed := pool.freed + [b];
  }

  lemma DataIn(bs: seq<Block>, i: nat)
    requires i < |bs|
    ensures bs[i].data in Datas(bs)
  {
  }

  lemma FirstIs(first: Block?, bs: seq<Block>)
    requires Linked(first, bs)
    ensures first == HeadOf(bs, 0)
  {
  }

  lemma NextIn(first: Block?, bs: seq<Block>, i: nat)
    requires Linked(first, bs) && i < |bs|
    ensures HeadOf(bs, i) == bs[i] && bs[i].cont == HeadOf(bs, i + 1)
  {
  }

  lemma EndOf(bs: seq<Block>, i: nat)
    ensures HeadOf(bs, i) == null <==> i >= |bs|
  {
  }

  /** Frees every block of a chain, front to back. */
  method FreeMsg(pool: Pool, first: Block?, ghost bs: seq<Block>)
    requires Message(first, bs)
    modifies pool`freed, Datas(bs)`refs
    ensures pool.freed == old(pool.freed) + bs
  {
    hide Datas, Linked, HeadOf;
    var b := first;
    ghost var i := 0;
    FirstIs(first, bs);
    EndOf(bs, 0);
    while b != null
      invariant 0 <= i <= |bs| && b == HeadOf(bs, i)
      invariant pool.freed == old(pool.freed) + bs[..i]
      decreases |bs| - i
    {
      EndOf(bs, i);
      NextIn(first, bs, i);
      DataIn(bs, i);
      var next := b.cont;
      FreeB(pool, b);
      b, i := next, i + 1;
    }
    EndOf(bs, i);
    assert bs[..i] == bs;
  }

  /** Once the head's reference is given up, the rest of the chain is still honestly counted. */
  lemma {:induction false} RestCounted(bs: seq<Block>)
    requires bs != []
    ensures forall i | 0 <= i < |bs| - 1 :: bs[1..][i] == bs[i + 1]
    ensures forall d :: Users(bs, d) == Users(bs[1..], d) + (if bs[0].data == d then 1 else 0)
  {
  }

  method AllocB(size: nat) returns (b: Block)
    ensures fresh(b) && fresh(b.data) && Ok(b) && Text(b) == [] && b.rptr == 0 && |b.data.bytes| == size
    ensures b.data.refs == 1 && b.data.isData && b.cont == null
  {
    var d := new DataBlock(seq(size, _ => 0));
    b := new Block(d);
  }

  lemma HeadNotInTail(bs: seq<Block>)
    requires NoDuplicates(bs) && bs != []
    ensures bs[0] !in bs[1..] && NoDuplicates(bs[1..])
  {
    assert forall i | 0 <= i < |bs| - 1 :: bs[1..][i] == bs[i + 1];
  }

  lemma TailOk(bs: seq<Block>)
    requires AllOk(bs) && bs != []
    ensures Ok(bs[0]) && AllOk(bs[1..])
  {
    assert forall i | 0 <= i < |bs| - 1 :: bs[1..][i] == bs[i + 1];
  }

  lemma ConsOk(bs: seq<Block>)
    requires bs != [] && Ok(bs[0]) && AllOk(bs[1..])
    ensures AllOk(bs)
  {
    assert forall i | 1 <= i < |bs| :: bs[i] == bs[1..][i - 1];
  }

  lemma LinkedHead(first: Block?, bs: seq<Block>)
    requires Linked(first, bs) && first != null
    ensures bs != [] && bs[0] == first
  {
  }

  lemma TextsSplit(bs: seq<Block>)
    requires AllOk(bs) && bs != []
    ensures Ok(bs[0]) && AllOk(bs[1..]) && Texts(bs) == Text(bs[0]) + Texts(bs[1..])
    ensures forall k: nat | k == |Text(bs[0])| :: Texts(bs)[k..] == Texts(bs[1..])
  {
  }

  /** The request's own block becomes the header block. */
  method UseOwnBlock(mp: Block, needed: nat, ghost bs: seq<Block>)
    requires Message(mp, bs) && mp.data.refs == 1 && |mp.data.bytes| >= needed
    modifies mp`rptr, mp`wptr, mp.data`isData
    ensures Message(mp, bs) && mp.wptr - mp.rptr == needed && mp.data.isData
    ensures bs != [] && (old(AllData(bs[1..])) ==> AllData(bs))
    ensures bs != [] && old(AllOk(bs[1..])) && Texts(bs)[needed..] == old(Texts(bs[1..]))
  {
    hide Linked, AllOk, Counted, Users, Texts, NoDuplicates;
    LinkedHead(mp, bs);
    TailOk(bs);
    HeadNotInTail(bs);
    mp.data.isData := true;
    mp.rptr, mp.wptr := 0, needed;
    ConsOk(bs);
    TextsSplit(bs);
  }

  method UseHeadroom(mp: Block, needed: nat, ghost bs: seq<Block>)
    requires Message(mp, bs) && mp.rptr >= needed
    modifies mp`rptr
    ensures Message(mp, bs) && mp.rptr == old(mp.rptr) - needed
    ensures bs != [] && mp.wptr - mp.rptr >= needed && Texts(bs)[needed..] == old(Texts(bs))
  {
    hide Linked, AllOk, Counted, Users, Texts, NoDuplicates;
    LinkedHead(mp, bs);
    TailOk(bs);
    HeadNotInTail(bs);
    TextsSplit(bs);
    ghost var before := Text(mp);
    mp.rptr := mp.rptr - needed;
    ConsOk(bs);
    TextsSplit(bs);
    assert Text(mp)[needed..] == before;
  }

  /** No later block of the chain shares the head's data. */
  ghost predicate HeadAlone(bs: seq<Block>)
    reads bs`data
  {
    bs != [] && forall j | 1 <= j < |bs| :: bs[j].data != bs[0].data
  }

  lemma UnsharedIsAlone(bs: seq<Block>)
    requires Counted(bs) && bs != [] && bs[0].data.refs == 1
    ensures HeadAlone(bs)
  {
    hide Users;
    UsersAt(bs, 0);
  }

  lemma RestLinked(first: Block?, bs: seq<Block>)
    requires Linked(first, bs) && bs != []
    ensures Linked(bs[0].cont, bs[1..])
  {
    assert forall i | 0 <= i < |bs| - 1 :: bs[1..][i] == bs[i + 1];
  }

  twostate lemma GivenUp(bs: seq<Block>)
    requires bs != [] && old(Counted(bs)) && bs[0].data == old(bs[0].data)
    requires forall i | 0 <= i < |bs| :: bs[i].data == old(bs[i].data)
    requires bs[0].data.refs == old(bs[0].data.refs) - 1
    requires forall i | 0 <= i < |bs| && bs[i].data != bs[0].data :: bs[i].data.refs == old(bs[i].data.refs)
    ensures Counted(bs[1..])
  {
    RestCounted(bs);
    UsersSame(bs);
    forall i | 0 <= i < |bs| - 1
      ensures Users(bs[1..], bs[1..][i].data) <= bs[1..][i].data.refs
    {
      assert bs[1..][i] == bs[i + 1];
      assert old(Users(bs, bs[i + 1].data)) <= old(bs[i + 1].data.refs);
    }
  }

  twostate lemma UsersSame(bs: seq<Block>)
    requires forall i | 0 <= i < |bs| :: bs[i].data == old(bs[i].data)
    ensures forall d :: old(allocated(d)) ==> Users(bs, d) == old(Users(bs, d))
  {
  }

  /** Unlinks and frees the request block. */
  method Detach(pool: Pool, mp: Block, ghost bs: seq<Block>) returns (rest: Block?)
    requires Message(mp, bs)
    modifies pool`freed, mp`cont, mp.data`refs
    ensures bs != [] && Message(rest, bs[1..]) && pool.freed == old(pool.freed) + [mp]
    ensures AllOk(bs[1..]) && old(AllOk(bs[1..])) && Texts(bs[1..]) == old(Texts(bs[1..]))
  {
    hide Linked, AllOk, Counted, Users, Texts, NoDuplicates;
    LinkedHead(mp, bs);
    TailOk(bs);
    HeadNotInTail(bs);
    RestLinked(mp, bs);
    rest := mp.cont;
    mp.cont := null;
    FreeB(pool, mp);
    assert Datas(bs[1..]) == old(Datas(bs[1..]));
    GivenUp(bs);
  }

  lemma PrependLinked(n: Block, tail: seq<Block>)
    requires Linked(n.cont, tail)
    ensures Linked(n, [n] + tail)
  {
  }

  lemma {:induction false} UsersPrepend(n: Block, tail: seq<Block>, d: DataBlock)
    ensures Users([n] + tail, d) == Users(tail, d) + if n.data == d then 1 else 0
  {
    assert ([n] + tail)[1..] == tail;
  }

  lemma {:induction false} NoUsers(bs: seq<Block>, d: DataBlock)
    requires d !in Datas(bs)
    ensures Users(bs, d) == 0
  {
    if bs != [] {
      assert bs[0].data in Datas(bs);
      assert Datas(bs[1..]) <= Datas(bs);
      NoUsers(bs[1..], d);
    }
  }

  lemma PrependCounted(n: Block, tail: seq<Block>)
    requires Counted(tail) && n.data.refs == 1 && forall i | 0 <= i < |tail| :: tail[i].data != n.data
    ensures Counted([n] + tail)
  {
    var bs := [n] + tail;
    assert n.data !in Datas(tail);
    NoUsers(tail, n.data);
    forall i | 0 <= i < |bs|
      ensures Users(bs, bs[i].data) <= bs[i].data.refs
    {
      UsersPrepend(n, tail, bs[i].data);
    }
  }

  lemma PrependOk(n: Block, tail: seq<Block>)
    requires AllOk(tail) && Ok(n)
    ensures AllOk([n] + tail)
  {
  }

  lemma PrependDistinct(n: Block, tail: seq<Block>)
    requires NoDuplicates(tail) && n !in tail
    ensures NoDuplicates([n] + tail)
  {
  }

  /** Puts a new header block in front of the data. */
  method NewHead(first: Block?, needed: nat, ghost tail: seq<Block>) returns (n: Block)
    requires Message(first, tail)
    ensures fresh(n) && fresh(n.data) && n.rptr == 0 && n.wptr == needed && n.data.refs == 1
    ensures old(AllData(tail)) ==> AllData([n] + tail)
    ensures Message(n, [n] + tail) && Texts([n] + tail)[needed..] == old(Texts(tail))
  {
    hide Linked, AllOk, Counted, Users, Texts, NoDuplicates;
    n := AllocB(needed);
    assert Datas(tail) == old(Datas(tail));
    n.cont := first;
    n.wptr := n.wptr + needed;
    PrependLinked(n, tail);
    PrependCounted(n, tail);
    PrependOk(n, tail);
    PrependDistinct(n, tail);
    TextsSplit([n] + tail);
    assert ([n] + tail)[1..] == tail;
  }

  /** Makes room for a header of `needed` bytes in front of the data blocks behind `mp`: in the
      request's own block, in the headroom of the first data block, or in a new block. On success
      the chain is `needed` header bytes followed by exactly the original data; `gone` are the
      blocks that were freed, once each. */
  method ReuseMessageBlock(pool: Pool, mp: Block, needed: nat, gotMemory: bool, ghost bs: seq<Block>)
    returns (r: Block?, ghost rs: seq<Block>, ghost gone: seq<Block>)
    requires Message(mp, bs)
    modifies pool`freed, bs`rptr, bs`wptr, bs`cont, Datas(bs)`refs, Datas(bs)`isData
    ensures bs != [] && old(AllOk(bs[1..])) && pool.freed == old(pool.freed) + gone
    ensures r == null ==> gone == bs && rs == []
    ensures r == null ==> !gotMemory
    ensures r != null ==> Replaces(bs, rs, gone) && (gone == [] || rs == bs[1..] || fresh(rs[0]))
    ensures r != null ==> (gone == [] <==> old(mp.data.refs == 1 && |mp.data.bytes| >= needed))
    ensures r != null && old(AllData(bs[1..])) ==> AllData(rs)
    ensures forall d | d in Datas(rs) :: fresh(d) || d in old(Datas(bs))
    ensures r != null ==> Message(r, rs) && HeadAlone(rs) && r.wptr - r.rptr >= needed
    ensures r != null ==> Texts(rs)[needed..] == old(Texts(bs[1..]))
  {
    hide AllOk, Counted, Users, Texts, NoDuplicates, Linked;
    LinkedHead(mp, bs);
    TailOk(bs);
    DataIn(bs, 0);
    if mp.data.refs == 1 && |mp.data.bytes| >= needed {
      UseOwnBlock(mp, needed, bs);
      UnsharedIsAlone(bs);
      r, rs, gone := mp, bs, [];
    } else {
      ghost var tail := bs[1..];
      var rest := Detach(pool, mp, bs);
      r, rs, gone := rest, tail, [mp];
      if r != null && r.data.refs == 1 && r.rptr >= needed {
        LinkedHead(r, tail);
        assert tail[0] == bs[1];
        DataIn(bs, 1);
        UseHeadroom(r, needed, tail);
        UnsharedIsAlone(tail);
      } else if !gotMemory {
        FreeMsg(pool, r, tail);
        r, rs, gone := null, [], bs;
      } else {
        r := NewHead(r, needed, tail);
        rs := [r] + tail;
        UnsharedIsAlone(rs);
      }
    }
  }

  /** Every original block is in the result or freed, and not both. */
  ghost predicate Replaces(bs: seq<Block>, rs: seq<Block>, gone: seq<Block>) {
    && bs != [] && rs != []
    && ((gone == [] && rs == bs) || (gone == bs[..1] && rs == bs[1..]) || (gone == bs[..1] && rs[1..] == bs[1..]))
  }

  /** Sum of the sizes of the data blocks of a chain, as `msgdsize` computes it. */
  ghost function DataSize(bs: seq<Block>): nat
    requires AllOk(bs)
    reads bs`data, bs`rptr, bs`wptr, Datas(bs)`bytes, Datas(bs)`isData
    decreases |bs|
  {
    if bs == [] then 0 else
    var n := |bs| - 1;
    assert AllOk(bs[..n]) && Ok(bs[n]);
    DataSize(bs[..n]) + if bs[n].data.isData then bs[n].wptr - bs[n].rptr else 0
  }

  lemma {:induction false} TextsSnoc(bs: seq<Block>)
    requires AllOk(bs) && bs != []
    ensures AllOk(bs[..|bs| - 1]) && Ok(bs[|bs| - 1])
    ensures Texts(bs) == Texts(bs[..|bs| - 1]) + Text(bs[|bs| - 1])
    decreases |bs|
  {
    var n := |bs| - 1;
    assert forall i | 0 <= i < n :: bs[..n][i] == bs[i];
    if n > 0 {
      TailOk(bs);
      TextsSnoc(bs[1..]);
      assert bs[1..][..n - 1] == bs[..n][1..];
    }
  }

  /** With data blocks only, the data size is the number of bytes; a request in front is not counted. */
  lemma {:induction false} DataSizeIs(bs: seq<Block>)
    requires AllOk(bs)
    ensures AllData(bs) ==> DataSize(bs) == |Texts(bs)|
    ensures bs != [] && !bs[0].data.isData && AllData(bs[1..]) ==>
      AllOk(bs[1..]) && DataSize(bs) == |Texts(bs[1..])|
    decreases |bs|
  {
    if bs != [] {
      var n := |bs| - 1;
      TailOk(bs);
      TextsSnoc(bs);
      assert AllOk(bs[..n]);
      DataSizeIs(bs[..n]);
      if n > 0 {
        TextsSnoc(bs[1..]);
        assert bs[1..][..n - 1] == bs[..n][1..];
        assert bs[1..][n - 1] == bs[n];
        if AllData(bs[1..]) {
          assert forall i | 0 <= i < n - 1 :: bs[..n][1..][i] == bs[1..][i];
        }
      }
    }
  }

  method MsgDSize(first: Block?, ghost bs: seq<Block>) returns (n: nat)
    requires Message(first, bs)
    ensures n == DataSize(bs)
  {
    hide Linked, Counted, NoDuplicates, Users;
    var b := first;
    ghost var i := 0;
    n := 0;
    FirstIs(first, bs);
    EndOf(bs, 0);
    while b != null
      invariant 0 <= i <= |bs| && b == HeadOf(bs, i)
      invariant AllOk(bs[..i]) && n == DataSize(bs[..i])
      decreases |bs| - i
    {
      EndOf(bs, i);
      NextIn(first, bs, i);
      assert bs[..i + 1][..i] == bs[..i];
      assert Ok(bs[i]);
      if b.data.isData {
        n := n + (b.wptr - b.rptr);
      }
      b, i := b.cont, i + 1;
    }
    EndOf(bs, i);
    assert bs[..i] == bs;
  }

  /** Writes header bytes in place, `off` bytes behind the head's read pointer. */
  method PutBytes(r: Block, off: nat, data: seq<Byte>, ghost rs: seq<Block>)
    requires Message(r, rs) && HeadAlone(rs) && r == rs[0] && off + |data| <= r.wptr - r.rptr
    modifies r.data`bytes
    ensures Message(r, rs) && HeadAlone(rs) && (old(AllData(rs)) ==> AllData(rs))
    ensures off + |data| <= |old(Texts(rs))| && Texts(rs) == Overwrite(old(Texts(rs)), off, data)
  {
    hide Linked, Counted, NoDuplicates, Users, Texts, Overwrite;
    TextsSplit(rs);
    ghost var before := Text(r);
    TailApart(rs);
    OverwriteSlice(r.data.bytes, r.rptr, r.wptr, off, data);
    OverwriteFront(before, Texts(rs[1..]), off, data);
    r.data.bytes := Overwrite(r.data.bytes, r.rptr + off, data);
    ConsOk(rs);
    TextsSplit(rs);
    assert Text(r) == Overwrite(before, off, data);
  }

  lemma TailApart(bs: seq<Block>)
    requires HeadAlone(bs)
    ensures bs[0].data !in Datas(bs[1..])
  {
    assert forall i | 0 <= i < |bs| - 1 :: bs[1..][i] == bs[i + 1];
  }
}
