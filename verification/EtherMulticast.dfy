/** A stream's list of multicast addresses: nodes on the system heap, linked and unlinked in place. */
module EtherMulticast {

  type Address = seq<bv8>

  class Node {
    var next: Node?
    const addr: Address

    constructor (next: Node?, addr: Address)
      ensures this.next == next && this.addr == addr
    {
      this.next, this.addr := next, addr;
    }
  }

  /** The list without the first occurrence of the address. */
  function Removed(list: seq<Address>, addr: Address): seq<Address> {
    if list == [] then [] else if list[0] == addr then list[1..] else [list[0]] + Removed(list[1..], addr)
  }

  lemma {:induction false} RemovedAt(list: seq<Address>, k: nat)
    requires k < |list| && list[k] !in list[..k]
    ensures Removed(list, list[k]) == list[..k] + list[k + 1..]
  {
    if k > 0 {
      assert list[0] in list[..k] && list[1..][..k - 1] == list[..k][1..];
      RemovedAt(list[1..], k - 1);
    }
  }

  lemma {:induction false} RemovedAbsent(list: seq<Address>, addr: Address)
    requires addr !in list
    ensures Removed(list, addr) == list
  {
    if list != [] {
      RemovedAbsent(list[1..], addr);
    }
  }

  function AddrsOf(nodes: seq<Node>): (r: seq<Address>)
    ensures |r| == |nodes|
  {
    seq(|nodes|, i requires 0 <= i < |nodes| => nodes[i].addr)
  }

  /** The node that comes after the one at `i`. */
  function NextAt(nodes: seq<Node>, i: int): Node? {
    if 0 <= i + 1 < |nodes| then nodes[i + 1] else null
  }

  predicate AllDifferent(nodes: seq<Node>) {
    forall i, j | 0 <= i < j < |nodes| :: nodes[i] != nodes[j]
  }

  lemma CutKeepsDifferent(nodes: seq<Node>, k: nat)
    requires AllDifferent(nodes) && k < |nodes|
    ensures AllDifferent(nodes[..k] + nodes[k + 1..]) && nodes[k] !in nodes[..k] + nodes[k + 1..]
    ensures forall n | n in nodes[..k] + nodes[k + 1..] :: n in nodes
  {
  }

  class MulticastList {
    var head: Node?
    ghost var nodes: seq<Node>
    ghost var repr: set<Node>    // every node ever allocated

    /** The `next` pointers lead from the head through the nodes and end. */
    ghost predicate Valid()
      reads this, repr
    {
      && (forall n | n in nodes :: n in repr) && AllDifferent(nodes)
      && head == NextAt(nodes, -1)
      && (forall i | 0 <= i < |nodes| :: nodes[i].next == NextAt(nodes, i))
    }

    ghost function Addrs(): seq<Address>
      reads this
    {
      AddrsOf(nodes)
    }

    constructor ()
      ensures Valid() && nodes == [] && repr == {}
    {
      head, nodes, repr := null, [], {};
    }

    method Add(addr: Address)
      requires Valid()
      modifies this
      ensures Valid() && Addrs() == [addr] + old(Addrs())
      ensures |nodes| == |old(nodes)| + 1 && fresh(nodes[0]) && nodes[1..] == old(nodes)
      ensures repr == old(repr) + {nodes[0]}
    {
      var n := new Node(head, addr);
      head := n;
      nodes, repr := [n] + nodes, repr + {n};
      assert nodes[1..] == old(nodes);
      assert forall i | 1 <= i < |nodes| :: nodes[i] == old(nodes)[i - 1];
    }

    /** The first node with the address, if there is one. */
    method Find(addr: Address) returns (p: Node?, ghost k: nat)
      requires Valid()
      ensures p == NextAt(nodes, k - 1) && k <= |nodes| && addr !in Addrs()[..k]
      ensures p != null <==> addr in Addrs()
      ensures p != null ==> p.addr == addr
    {
      p, k := head, 0;
      while p != null && p.addr != addr
        invariant k <= |nodes| && p == NextAt(nodes, k - 1) && addr !in Addrs()[..k]
        decreases |nodes| - k
      {
        p, k := p.next, k + 1;
      }
      assert p == null ==> Addrs()[..k] == Addrs();
      assert p != null ==> Addrs()[k] == addr;
    }

    /** Unlinks the first node with the address: first that node is found, then the one whose `next`
        points to it, the search beginning at the head pointer itself taken for a node. */
    method Remove(addr: Address)
      requires Valid()
      modifies this`head, this`nodes, repr
      ensures Valid() && Addrs() == Removed(old(Addrs()), addr)
      ensures head == null <==> Addrs() == []
    {
      var p, k := Find(addr);
      if p == null {
        RemovedAbsent(Addrs(), addr);
        return;
      }
      RemovedAt(Addrs(), k);
      Unlinked(nodes, k);
      hide Removed, AddrsOf, NextAt;
      Unlink(p, k);
    }

    method Unlink(p: Node, ghost k: nat)
      requires Valid() && k < |nodes| && p == nodes[k]
      modifies this`head, this`nodes, repr
      ensures Valid() && nodes == old(nodes)[..k] + old(nodes)[k + 1..]
    {
      if head == p {
        CutHead(p, k);
      } else {
        var q := FindBefore(p, k);
        CutAfter(q, p, k);
      }
    }

    method CutHead(p: Node, ghost k: nat)
      requires Valid() && k < |nodes| && p == nodes[k] == head
      modifies this`head, this`nodes
      ensures Valid() && nodes == old(nodes)[..k] + old(nodes)[k + 1..]
    {
      ghost var was := nodes;
      assert k == 0;
      head := p.next;
      nodes := nodes[1..];
      forall i | 0 <= i < |nodes|
        ensures nodes[i].next == NextAt(nodes, i)
      {
        assert nodes[i] == was[i + 1] && was[i + 1].next == NextAt(was, i + 1);
      }
    }

    method FindBefore(p: Node, ghost k: nat) returns (q: Node)
      requires Valid() && 1 <= k < |nodes| && p == nodes[k]
      ensures q == nodes[k - 1]
    {
      q := head;
      ghost var j := 0;
      while q.next != p
        invariant 0 <= j < k && q == nodes[j]
        decreases k - j
      {
        q, j := q.next, j + 1;
      }
    }

    method CutAfter(q: Node, p: Node, ghost k: nat)
      requires Valid() && 1 <= k < |nodes| && p == nodes[k] && q == nodes[k - 1]
      modifies this`nodes, q`next
      ensures Valid() && nodes == old(nodes)[..k] + old(nodes)[k + 1..]
    {
      ghost var was := nodes;
      CutKeepsDifferent(nodes, k);
      assert q == was[k - 1] && forall i | 0 <= i < |was| && i != k - 1 :: was[i] != q;
      hide AllDifferent;
      q.next := p.next;
      nodes := nodes[..k] + nodes[k + 1..];
      forall i | 0 <= i < |nodes|
        ensures nodes[i].next == NextAt(nodes, i)
      {
        if i < k - 1 {
          assert nodes[i] == was[i] && was[i].next == NextAt(was, i);
        } else if i == k - 1 {
          assert was[k].next == NextAt(was, k);
        } else {
          assert nodes[i] == was[i + 1] && was[i + 1].next == NextAt(was, i + 1);
        }
      }
    }
  }

  lemma Unlinked(nodes: seq<Node>, k: nat)
    requires k < |nodes|
    ensures AddrsOf(nodes[..k] + nodes[k + 1..]) == AddrsOf(nodes)[..k] + AddrsOf(nodes)[k + 1..]
  {
    var less := nodes[..k] + nodes[k + 1..];
    assert forall i | 0 <= i < |less| :: less[i] == nodes[if i < k then i else i + 1];
  }
}
