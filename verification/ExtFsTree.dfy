/** The external file system's catalogue as a value: a list of nodes with ids, parent ids and parent
    positions, and what looking up, creating and swapping ids does to it. */
module ExtFsTree {
  import opened Bytes

  const ROOT_PARENT_ID := 1
  const ROOT_ID := 2
  const FIRST_USER_ID := 16

  /** `parent` is the parent's position in the list, or -1. */
  datatype Node = Node(id: int, parentId: int, parent: int, name: string, guest: string)

  /** Conversions between Mac and host file names. */
  datatype Encoding = Encoding(toHost: string -> string, toGuest: string -> string)

  /** Guest names are kept in 31 bytes. */
  function Clip(s: string): (c: string)
    ensures |c| <= 31
  {
    if |s| <= 31 then s else s[..31]
  }

  /** Mac names survive the trip to the host and back. */
  ghost predicate Faithful(enc: Encoding) {
    forall g: string | |g| <= 31 :: Clip(enc.toGuest(enc.toHost(g))) == g
  }

  /** Hosts that take every name as it is are such. */
  lemma PlainNamesSurvive()
    ensures Faithful(Encoding(name => name, name => name))
  {
  }

  /** Parents come before their children; only the first node has none. */
  predicate Shaped(nodes: seq<Node>) {
    && |nodes| >= 2 && nodes[0].parent == -1 && nodes[1].parent == 0
    && forall i | 1 <= i < |nodes| :: 0 <= nodes[i].parent < i
  }

  predicate UniqueIds(nodes: seq<Node>) {
    forall i, j | 0 <= i < j < |nodes| :: nodes[i].id != nodes[j].id
  }

  predicate UniqueNames(nodes: seq<Node>) {
    forall i, j | 0 <= i < j < |nodes| :: nodes[i].parent != nodes[j].parent || nodes[i].name != nodes[j].name
  }

  predicate ParentIds(nodes: seq<Node>)
    requires Shaped(nodes)
  {
    forall i | 1 <= i < |nodes| :: nodes[i].parentId == nodes[nodes[i].parent].id
  }

  predicate UserIds(nodes: seq<Node>, next: int)
    requires Shaped(nodes)
  {
    && nodes[0].id == ROOT_PARENT_ID && nodes[1].id == ROOT_ID && FIRST_USER_ID <= next
    && forall i | 2 <= i < |nodes| :: FIRST_USER_ID <= nodes[i].id < next
  }

  predicate GuestNames(enc: Encoding, nodes: seq<Node>) {
    forall i | 1 <= i < |nodes| :: nodes[i].guest == Clip(enc.toGuest(nodes[i].name))
  }

  /** The catalogue invariant; `next` is the next id to be given out. */
  predicate Inv(enc: Encoding, nodes: seq<Node>, next: int) {
    && Shaped(nodes) && UniqueIds(nodes) && UniqueNames(nodes) && ParentIds(nodes) && UserIds(nodes, next)
    && GuestNames(enc, nodes)
  }

  function Start(enc: Encoding, volume: string): seq<Node> {
    [Node(ROOT_PARENT_ID, 0, -1, "", ""), Node(ROOT_ID, ROOT_PARENT_ID, 0, volume, Clip(enc.toGuest(volume)))]
  }

  lemma StartInv(enc: Encoding, volume: string)
    ensures Inv(enc, Start(enc, volume), FIRST_USER_ID)
  {
  }

  /** First position from `from` on with the given parent and name (or guest name), or the length. */
  function FindFrom(nodes: seq<Node>, byGuest: bool, name: string, parent: int, from: nat): (i: nat)
    requires from <= |nodes|
    ensures from <= i <= |nodes|
    decreases |nodes| - from
  {
    if from == |nodes| || Matches(nodes[from], byGuest, name, parent) then from
    else FindFrom(nodes, byGuest, name, parent, from + 1)
  }

  predicate Matches(n: Node, byGuest: bool, name: string, parent: int) {
    n.parent == parent && (if byGuest then n.guest else n.name) == name
  }

  lemma {:induction false} FindIs(nodes: seq<Node>, byGuest: bool, name: string, parent: int, from: nat)
    requires from <= |nodes|
    ensures var i := FindFrom(nodes, byGuest, name, parent, from);
      && (i < |nodes| ==> Matches(nodes[i], byGuest, name, parent))
      && forall j | from <= j < i :: !Matches(nodes[j], byGuest, name, parent)
    decreases |nodes| - from
  {
    if from < |nodes| && !Matches(nodes[from], byGuest, name, parent) {
      FindIs(nodes, byGuest, name, parent, from + 1);
    }
  }

  /** A node made for `name` under the node at `parent`. */
  function Fresh(enc: Encoding, nodes: seq<Node>, next: int, byGuest: bool, name: string, parent: nat): Node
    requires parent < |nodes|
  {
    if byGuest then Node(next, nodes[parent].id, parent, enc.toHost(name), Clip(name))
    else Node(next, nodes[parent].id, parent, name, Clip(enc.toGuest(name)))
  }

  /** The list after looking up `name`, with a new node at its end if there was none. */
  function Looked(enc: Encoding, nodes: seq<Node>, next: int, byGuest: bool, name: string, parent: nat): (r: seq<Node>)
    requires parent < |nodes|
  {
    if FindFrom(nodes, byGuest, name, parent, 0) < |nodes| then nodes
    else nodes + [Fresh(enc, nodes, next, byGuest, name, parent)]
  }

  function NextAfter(nodes: seq<Node>, looked: seq<Node>, next: int): int {
    if |looked| > |nodes| then next + 1 else next
  }

  /** A name that was not found is really new, in either spelling. */
  lemma FreshIsNew(enc: Encoding, nodes: seq<Node>, next: int, byGuest: bool, name: string, parent: nat)
    requires Shaped(nodes) && GuestNames(enc, nodes) && Faithful(enc) && parent < |nodes| && (byGuest ==> |name| <= 31)
    requires FindFrom(nodes, byGuest, name, parent, 0) == |nodes|
    ensures forall i | 0 <= i < |nodes| ::
      nodes[i].parent != parent || nodes[i].name != Fresh(enc, nodes, next, byGuest, name, parent).name
    ensures var n := Fresh(enc, nodes, next, byGuest, name, parent); n.guest == Clip(enc.toGuest(n.name))
  {
    FindIs(nodes, byGuest, name, parent, 0);
    forall i | 0 <= i < |nodes| && nodes[i].parent == parent
      ensures nodes[i].name != Fresh(enc, nodes, next, byGuest, name, parent).name
    {
      assert !Matches(nodes[i], byGuest, name, parent);
    }
  }

  lemma AppendKeepsTree(nodes: seq<Node>, next: int, n: Node)
    requires Shaped(nodes) && ParentIds(nodes) && UserIds(nodes, next)
    requires 0 <= n.parent < |nodes| && n.id == next && n.parentId == nodes[n.parent].id
    ensures Shaped(nodes + [n]) && ParentIds(nodes + [n]) && UserIds(nodes + [n], next + 1)
  {
    var all := nodes + [n];
    assert forall i | 0 <= i < |nodes| :: all[i] == nodes[i];
  }

  lemma AppendKeepsNames(enc: Encoding, nodes: seq<Node>, next: int, n: Node)
    requires UniqueNames(nodes) && GuestNames(enc, nodes)
    requires n.guest == Clip(enc.toGuest(n.name))
    requires forall i | 0 <= i < |nodes| :: nodes[i].parent != n.parent || nodes[i].name != n.name
    ensures UniqueNames(nodes + [n]) && GuestNames(enc, nodes + [n])
  {
  }

  lemma AppendKeepsIds(nodes: seq<Node>, next: int, n: Node)
    requires Shaped(nodes) && UniqueIds(nodes) && UserIds(nodes, next) && n.id == next
    ensures UniqueIds(nodes + [n])
  {
    var all := nodes + [n];
    assert forall i | 0 <= i < |nodes| :: all[i] == nodes[i] && nodes[i].id != next;
  }

  /** Looking a name up keeps the invariant, whether or not a node has to be made. */
  lemma LookedKeepsInv(enc: Encoding, nodes: seq<Node>, next: int, byGuest: bool, name: string, parent: nat)
    requires Inv(enc, nodes, next) && Faithful(enc) && parent < |nodes| && (byGuest ==> |name| <= 31)
    ensures var looked := Looked(enc, nodes, next, byGuest, name, parent);
      Inv(enc, looked, NextAfter(nodes, looked, next))
  {
    hide FindFrom, Shaped, UniqueIds, UniqueNames, ParentIds, UserIds, Faithful, GuestNames;
    if FindFrom(nodes, byGuest, name, parent, 0) == |nodes| {
      FreshIsNew(enc, nodes, next, byGuest, name, parent);
      var n := Fresh(enc, nodes, next, byGuest, name, parent);
      AppendKeepsTree(nodes, next, n);
      AppendKeepsNames(enc, nodes, next, n);
      AppendKeepsIds(nodes, next, n);
    }
  }

  /** The host path of a node: the components below the shared directory, which itself is "/". */
  function PathOf(nodes: seq<Node>, i: nat): (path: seq<string>)
    requires Shaped(nodes) && i < |nodes|
    decreases i
  {
    if nodes[i].id == ROOT_PARENT_ID || i == 0 then []
    else if nodes[i].id == ROOT_ID then ["/"]
    else PathOf(nodes, nodes[i].parent) + [nodes[i].name]
  }

  /** The directory `k` levels above a node. */
  function Above(nodes: seq<Node>, i: nat, k: nat): (j: nat)
    requires Shaped(nodes) && i < |nodes|
    ensures j < |nodes|
    decreases k
  {
    if k == 0 || i == 0 then i else Above(nodes, nodes[i].parent, k - 1)
  }

  /** A path read from its end names the node, then the directories above it up to the shared one,
      which begins it as "/". */
  lemma {:induction false} PathNames(nodes: seq<Node>, next: int, i: nat, k: nat)
    requires Shaped(nodes) && UserIds(nodes, next) && i < |nodes|
    ensures var path, j := PathOf(nodes, i), Above(nodes, i, k);
      && (j >= 2 ==> |path| > k && path[|path| - 1 - k] == nodes[j].name)
      && (j == 1 ==> |path| == k + 1 && path[0] == "/")
    decreases k
  {
    if i >= 2 {
      assert nodes[i].id >= FIRST_USER_ID;
      if k > 0 {
        PathNames(nodes, next, nodes[i].parent, k - 1);
      }
    }
  }

  /** Exchanging the ids `x` and `y` wherever a node names its parent by id. */
  function Renumbered(nodes: seq<Node>, x: int, y: int): (r: seq<Node>)
    ensures |r| == |nodes|
  {
    seq(|nodes|, i requires 0 <= i < |nodes| => nodes[i].(parentId := Swapped(nodes[i].parentId, x, y)))
  }

  function Swapped(id: int, x: int, y: int): int {
    if id == x then y else if id == y then x else id
  }

  /** The id swap that ends a rename or a move: `a` and `b` trade ids, and children follow. */
  function SwapIds(nodes: seq<Node>, a: nat, b: nat): (r: seq<Node>)
    requires a < |nodes| && b < |nodes|
    ensures |r| == |nodes|
  {
    var m := Renumbered(nodes, nodes[a].id, nodes[b].id);
    m[a := m[a].(id := nodes[b].id)][b := m[b].(id := nodes[a].id)]
  }

  lemma SwapIs(nodes: seq<Node>, a: nat, b: nat, i: nat)
    requires a < |nodes| && b < |nodes| && i < |nodes| && UniqueIds(nodes)
    ensures var n, x, y := SwapIds(nodes, a, b)[i], nodes[a].id, nodes[b].id;
      && n.id == Swapped(nodes[i].id, x, y) && n.parentId == Swapped(nodes[i].parentId, x, y)
      && n.parent == nodes[i].parent && n.name == nodes[i].name && n.guest == nodes[i].guest
  {
  }

  /** `after` is `nodes` with ids and parent ids `x` and `y` exchanged. */
  predicate IdsTraded(nodes: seq<Node>, after: seq<Node>, x: int, y: int) {
    |after| == |nodes| && forall i | 0 <= i < |nodes| ::
      after[i] == nodes[i].(id := Swapped(nodes[i].id, x, y), parentId := Swapped(nodes[i].parentId, x, y))
  }

  lemma SwapTrades(nodes: seq<Node>, a: nat, b: nat)
    requires a < |nodes| && b < |nodes| && UniqueIds(nodes)
    ensures IdsTraded(nodes, SwapIds(nodes, a, b), nodes[a].id, nodes[b].id)
  {
    hide SwapIds, UniqueIds, Swapped;
    forall i | 0 <= i < |nodes|
      ensures SwapIds(nodes, a, b)[i] == nodes[i].(
        id := Swapped(nodes[i].id, nodes[a].id, nodes[b].id),
        parentId := Swapped(nodes[i].parentId, nodes[a].id, nodes[b].id))
    {
      SwapIs(nodes, a, b, i);
    }
  }

  lemma TradeKeepsTree(nodes: seq<Node>, after: seq<Node>, next: int, x: int, y: int)
    requires IdsTraded(nodes, after, x, y) && Shaped(nodes) && ParentIds(nodes) && UserIds(nodes, next)
    requires FIRST_USER_ID <= x < next && FIRST_USER_ID <= y < next
    ensures Shaped(after) && ParentIds(after) && UserIds(after, next)
  {
  }

  lemma TradeKeepsNames(enc: Encoding, nodes: seq<Node>, after: seq<Node>, x: int, y: int)
    requires IdsTraded(nodes, after, x, y) && UniqueNames(nodes) && GuestNames(enc, nodes)
    ensures UniqueNames(after) && GuestNames(enc, after)
  {
  }

  lemma TradeKeepsIds(nodes: seq<Node>, after: seq<Node>, x: int, y: int)
    requires IdsTraded(nodes, after, x, y) && UniqueIds(nodes)
    ensures UniqueIds(after)
  {
  }

  /** Swapping the ids of two non-root nodes keeps the invariant. */
  lemma SwapKeepsInv(enc: Encoding, nodes: seq<Node>, next: int, a: nat, b: nat)
    requires Inv(enc, nodes, next) && 2 <= a < |nodes| && 2 <= b < |nodes|
    ensures Inv(enc, SwapIds(nodes, a, b), next)
  {
    hide SwapIds, Shaped, ParentIds, UniqueIds, UniqueNames, GuestNames, IdsTraded;
    SwapTrades(nodes, a, b);
    var after, x, y := SwapIds(nodes, a, b), nodes[a].id, nodes[b].id;
    TradeKeepsTree(nodes, after, next, x, y);
    TradeKeepsNames(enc, nodes, after, x, y);
    TradeKeepsIds(nodes, after, x, y);
  }

  /** Paths do not depend on the ids, so the swap leaves every node where it is. */
  lemma {:induction false} SwapKeepsPaths(enc: Encoding, nodes: seq<Node>, next: int, a: nat, b: nat, i: nat)
    requires Inv(enc, nodes, next) && 2 <= a < |nodes| && 2 <= b < |nodes| && i < |nodes|
    ensures Shaped(SwapIds(nodes, a, b)) && PathOf(SwapIds(nodes, a, b), i) == PathOf(nodes, i)
    decreases i
  {
    SwapKeepsInv(enc, nodes, next, a, b);
    SwapIs(nodes, a, b, i);
    hide SwapIds, UniqueNames, ParentIds, GuestNames;
    if i >= 1 {
      SwapKeepsPaths(enc, nodes, next, a, b, nodes[i].parent);
    }
  }

  /** First position with the given id, or the length. */
  function Resolve(nodes: seq<Node>, id: int): (i: nat)
    ensures i <= |nodes|
    ensures i < |nodes| ==> nodes[i].id == id
    ensures forall j | 0 <= j < i :: nodes[j].id != id
  {
    ResolveFrom(nodes, id, 0)
  }

  function ResolveFrom(nodes: seq<Node>, id: int, from: nat): (i: nat)
    requires from <= |nodes|
    ensures from <= i <= |nodes|
    ensures i < |nodes| ==> nodes[i].id == id
    ensures forall j | from <= j < i :: nodes[j].id != id
    decreases |nodes| - from
  {
    if from == |nodes| || nodes[from].id == id then from else ResolveFrom(nodes, id, from + 1)
  }

  lemma ResolveIs(nodes: seq<Node>, i: nat)
    requires UniqueIds(nodes) && i < |nodes|
    ensures Resolve(nodes, nodes[i].id) == i
  {
  }

  /** Path that an id leads to, if any. */
  function PathOfId(nodes: seq<Node>, id: int): Option<seq<string>>
    requires Shaped(nodes)
  {
    var i := Resolve(nodes, id);
    if i < |nodes| then Some(PathOf(nodes, i)) else None
  }

  /** What the swap means for the guest: the two ids trade paths, every other id keeps its own. */
  lemma SwapTradesPaths(enc: Encoding, nodes: seq<Node>, next: int, a: nat, b: nat, id: int)
    requires Inv(enc, nodes, next) && 2 <= a < |nodes| && 2 <= b < |nodes|
    ensures Shaped(SwapIds(nodes, a, b))
    ensures PathOfId(SwapIds(nodes, a, b), id) == PathOfId(nodes, Swapped(id, nodes[a].id, nodes[b].id))
  {
    SwapKeepsInv(enc, nodes, next, a, b);
    var after, x, y := SwapIds(nodes, a, b), nodes[a].id, nodes[b].id;
    var i, j := Resolve(after, id), Resolve(nodes, Swapped(id, x, y));
    hide Inv, Shaped, UserIds, GuestNames, UniqueNames, ParentIds;
    SamePlace(nodes, a, b, id);
    if i < |nodes| {
      SwapKeepsPaths(enc, nodes, next, a, b, i);
    }
  }

  lemma SamePlace(nodes: seq<Node>, a: nat, b: nat, id: int)
    requires a < |nodes| && b < |nodes| && UniqueIds(nodes) && UniqueIds(SwapIds(nodes, a, b))
    ensures Resolve(SwapIds(nodes, a, b), id) == Resolve(nodes, Swapped(id, nodes[a].id, nodes[b].id))
  {
    hide SwapIds;
    var after, x, y := SwapIds(nodes, a, b), nodes[a].id, nodes[b].id;
    forall k | 0 <= k < |nodes|
      ensures after[k].id == Swapped(nodes[k].id, x, y)
    {
      SwapIs(nodes, a, b, k);
    }
  }

  /** A host file name holds no slash, so that no item's name looks like the root's path. */
  predicate NoSlash(nodes: seq<Node>) {
    forall i | 2 <= i < |nodes| :: nodes[i].name != "/"
  }

  /** Different nodes have different paths. */
  lemma {:induction false} PathsDiffer(enc: Encoding, nodes: seq<Node>, next: int, a: nat, b: nat)
    requires Inv(enc, nodes, next) && NoSlash(nodes) && a < |nodes| && b < |nodes|
    ensures PathOf(nodes, a) == PathOf(nodes, b) <==> a == b
    decreases a
  {
    hide GuestNames, UniqueIds, ParentIds;
    if 2 <= a && 2 <= b && PathOf(nodes, a) == PathOf(nodes, b) {
      var p, q := nodes[a].parent, nodes[b].parent;
      SnocBoth(PathOf(nodes, p), nodes[a].name, PathOf(nodes, q), nodes[b].name);
      PathsDiffer(enc, nodes, next, p, q);
    } else if 2 <= a {
      SnocIsLong(PathOf(nodes, nodes[a].parent), nodes[a].name);
    } else if 2 <= b {
      SnocIsLong(PathOf(nodes, nodes[b].parent), nodes[b].name);
    }
  }

  lemma SnocBoth(p: seq<string>, x: string, q: seq<string>, y: string)
    requires p + [x] == q + [y]
    ensures p == q && x == y
  {
    assert (p + [x])[..|p|] == p && (q + [y])[..|q|] == q;
    assert (p + [x])[|p|] == x && (q + [y])[|q|] == y;
  }

  lemma SnocIsLong(p: seq<string>, x: string)
    ensures p + [x] != [] && (p + [x] == ["/"] ==> x == "/")
  {
    if p + [x] == ["/"] {
      assert (p + [x])[|p|] == x;
    }
  }

  /** After the swap a child of the renamed directory `a` names `a`'s new id as its parent and keeps
      its old path.  Children never follow a real rename: a child's path leads through the place to
      which the directory's old id has moved only if that is the same node. */
  lemma ChildrenStayBehind(enc: Encoding, nodes: seq<Node>, next: int, a: nat, b: nat, c: nat)
    requires Inv(enc, nodes, next) && 2 <= a < |nodes| && 2 <= b < |nodes| && c < |nodes| && nodes[c].parent == a
    requires NoSlash(nodes) || nodes[a].parent == nodes[b].parent
    ensures var after := SwapIds(nodes, a, b);
      && Shaped(after) && after[c].parentId == nodes[b].id
      && PathOf(after, c) == PathOf(nodes, a) + [nodes[c].name]
      && PathOfId(after, nodes[a].id) == Some(PathOf(nodes, b))
      && (PathOf(after, c) == PathOf(nodes, b) + [nodes[c].name] <==> a == b)
  {
    var after := SwapIds(nodes, a, b);
    SwapKeepsPaths(enc, nodes, next, a, b, c);
    SwapTradesPaths(enc, nodes, next, a, b, nodes[a].id);
    SwapIs(nodes, a, b, c);
    ResolveIs(nodes, b);
    assert PathOf(nodes, a) == PathOf(nodes, b) <==> a == b by {
      if nodes[a].parent == nodes[b].parent {
        SiblingsDiffer(enc, nodes, next, a, b);
      } else {
        PathsDiffer(enc, nodes, next, a, b);
      }
    }
    hide SwapIds, PathOfId, UniqueNames, GuestNames, UniqueIds;
    SnocInjective(PathOf(nodes, a), PathOf(nodes, b), nodes[c].name);
    OrdinaryPath(enc, nodes, next, c);
  }

  lemma SiblingsDiffer(enc: Encoding, nodes: seq<Node>, next: int, a: nat, b: nat)
    requires Inv(enc, nodes, next) && 2 <= a < |nodes| && 2 <= b < |nodes| && nodes[a].parent == nodes[b].parent
    ensures PathOf(nodes, a) == PathOf(nodes, b) <==> a == b
  {
    hide GuestNames, UniqueIds, ParentIds;
    OrdinaryPath(enc, nodes, next, a);
    OrdinaryPath(enc, nodes, next, b);
    if PathOf(nodes, a) == PathOf(nodes, b) {
      SnocBoth(PathOf(nodes, nodes[a].parent), nodes[a].name, PathOf(nodes, nodes[b].parent), nodes[b].name);
    }
  }

  lemma SnocInjective(p: seq<string>, q: seq<string>, name: string)
    ensures p + [name] == q + [name] <==> p == q
  {
    if p + [name] == q + [name] {
      assert p == (p + [name])[..|p|] && q == (q + [name])[..|q|];
    }
  }

  lemma OrdinaryPath(enc: Encoding, nodes: seq<Node>, next: int, c: nat)
    requires Inv(enc, nodes, next) && 2 <= c < |nodes|
    ensures PathOf(nodes, c) == PathOf(nodes, nodes[c].parent) + [nodes[c].name]
  {
  }

  /** A longer list has the same paths. */
  lemma {:induction false} PrefixKeepsPath(nodes: seq<Node>, later: seq<Node>, i: nat)
    requires nodes <= later && Shaped(nodes) && Shaped(later) && i < |nodes|
    ensures PathOf(later, i) == PathOf(nodes, i) && GuestPath(later, i) == GuestPath(nodes, i)
    decreases i
  {
    assert later[i] == nodes[i];
    if i > 0 {
      PrefixKeepsPath(nodes, later, nodes[i].parent);
    }
  }

  /** The path as the guest spells it. */
  function GuestPath(nodes: seq<Node>, i: nat): (path: seq<string>)
    requires Shaped(nodes) && i < |nodes|
    decreases i
  {
    if i == 0 then [] else GuestPath(nodes, nodes[i].parent) + [nodes[i].guest]
  }

  /** A lookup moves no node, and leads one step down: to the parent's path plus the name. */
  lemma LookedPaths(enc: Encoding, nodes: seq<Node>, next: int, byGuest: bool, name: string, parent: nat, i: nat)
    requires Inv(enc, nodes, next) && Faithful(enc) && parent < |nodes| && (byGuest ==> |name| <= 31) && i < |nodes|
    ensures var looked := Looked(enc, nodes, next, byGuest, name, parent);
      var at := FindFrom(nodes, byGuest, name, parent, 0);
      && Shaped(looked) && at < |looked| && looked[i] == nodes[i]
      && PathOf(looked, i) == PathOf(nodes, i) && GuestPath(looked, i) == GuestPath(nodes, i)
      && looked[at].parent == parent && (if byGuest then looked[at].guest else looked[at].name) == name
      && FindFrom(looked, byGuest, name, parent, 0) == at
  {
    LookedKeepsInv(enc, nodes, next, byGuest, name, parent);
    FindIs(nodes, byGuest, name, parent, 0);
    hide Inv, UniqueIds, UniqueNames, ParentIds, UserIds, GuestNames, Faithful, PathOf, GuestPath;
    var looked, at := Looked(enc, nodes, next, byGuest, name, parent), FindFrom(nodes, byGuest, name, parent, 0);
    if at == |nodes| {
      var n := Fresh(enc, nodes, next, byGuest, name, parent);
      PrefixKeepsPath(nodes, looked, i);
      assert Matches(looked[at], byGuest, name, parent);
      FindLonger(nodes, n, byGuest, name, parent, 0);
    }
  }

  lemma {:induction false} FindLonger(nodes: seq<Node>, n: Node, byGuest: bool, name: string, parent: int, from: nat)
    requires from <= |nodes| && Matches(n, byGuest, name, parent)
    ensures FindFrom(nodes + [n], byGuest, name, parent, from) == FindFrom(nodes, byGuest, name, parent, from)
    decreases |nodes| - from
  {
    var all := nodes + [n];
    if from < |nodes| {
      assert all[from] == nodes[from];
      FindLonger(nodes, n, byGuest, name, parent, from + 1);
    } else {
      assert all[from] == n;
    }
  }

  /** A step of a Mac pathname: `Up` for an empty component, `Enter` for a name. */
  datatype Step = Up | Enter(name: string)

  predicate MacNames(steps: seq<Step>) {
    forall i | 0 <= i < |steps| :: steps[i].Enter? ==> |steps[i].name| <= 31
  }

  /** Where a walk has got to: the list, the next id, and the position, or none on a bad name. */
  datatype Place = Place(nodes: seq<Node>, next: int, at: Option<nat>)

  predicate Placed(enc: Encoding, p: Place) {
    Inv(enc, p.nodes, p.next) && (p.at.Some? ==> p.at.value < |p.nodes|)
  }

  function StepOn(enc: Encoding, p: Place, step: Step): Place
    requires Shaped(p.nodes) && (p.at.Some? ==> p.at.value < |p.nodes|)
  {
    if p.at.None? then p
    else match step
      case Up =>
        if p.nodes[p.at.value].id == ROOT_ID || p.at.value == 0 then p.(at := None)
        else p.(at := Some(p.nodes[p.at.value].parent))
      case Enter(name) =>
        var looked := Looked(enc, p.nodes, p.next, true, name, p.at.value);
        Place(looked, NextAfter(p.nodes, looked, p.next), Some(FindFrom(p.nodes, true, name, p.at.value, 0)))
  }

  /** What the steps of a pathname mean for the guest's path. */
  function Followed(path: seq<string>, steps: seq<Step>): seq<string> {
    if steps == [] then path else
    var before := Followed(path, steps[..|steps| - 1]);
    match steps[|steps| - 1]
    case Up => if before == [] then [] else before[..|before| - 1]
    case Enter(name) => before + [name]
  }

  lemma StepArrives(enc: Encoding, p: Place, step: Step)
    requires Placed(enc, p) && Faithful(enc) && (step.Enter? ==> |step.name| <= 31)
    ensures Placed(enc, StepOn(enc, p, step))
    ensures p.at.Some? && StepOn(enc, p, step).at.Some? ==>
      GuestPath(StepOn(enc, p, step).nodes, StepOn(enc, p, step).at.value)
      == match step
         case Up => GuestPath(p.nodes, p.at.value)[..|GuestPath(p.nodes, p.at.value)| - 1]
         case Enter(name) => GuestPath(p.nodes, p.at.value) + [name]
  {
    hide Faithful, UniqueIds, UniqueNames, ParentIds, GuestNames, Looked, NextAfter;
    if p.at.Some? && step.Enter? {
      LookedKeepsInv(enc, p.nodes, p.next, true, step.name, p.at.value);
      LookedPaths(enc, p.nodes, p.next, true, step.name, p.at.value, p.at.value);
    }
  }

  ghost function Walked(enc: Encoding, p: Place, steps: seq<Step>): (q: Place)
    requires Placed(enc, p) && Faithful(enc) && MacNames(steps)
    ensures Placed(enc, q)
    decreases |steps|
  {
    if steps == [] then p else
    var n := |steps| - 1;
    StepArrives(enc, Walked(enc, p, steps[..n]), steps[n]);
    StepOn(enc, Walked(enc, p, steps[..n]), steps[n])
  }

  /** A walk that ends somewhere ends at the node whose guest path is the start's path followed by
      the pathname, making nodes on its way as needed. */
  lemma {:induction false} WalkArrives(enc: Encoding, p: Place, steps: seq<Step>)
    requires Placed(enc, p) && Faithful(enc) && MacNames(steps) && p.at.Some?
    ensures var q := Walked(enc, p, steps);
      q.at.Some? ==> GuestPath(q.nodes, q.at.value) == Followed(GuestPath(p.nodes, p.at.value), steps)
    decreases |steps|
  {
    hide Placed, StepOn, GuestPath, Faithful;
    if steps != [] {
      var n := |steps| - 1;
      WalkArrives(enc, p, steps[..n]);
      StepArrives(enc, Walked(enc, p, steps[..n]), steps[n]);
      NoneStays(enc, Walked(enc, p, steps[..n]), steps[n]);
    }
  }

  /** The walk has come to the root or the root's parent, and the next step goes up. */
  ghost predicate LeavesRoot(enc: Encoding, p: Place, steps: seq<Step>, k: nat)
    requires Placed(enc, p) && Faithful(enc) && MacNames(steps) && k < |steps|
  {
    var q := Walked(enc, p, steps[..k]);
    steps[k].Up? && q.at.Some? && q.at.value < 2
  }

  lemma StepFails(enc: Encoding, p: Place, step: Step)
    requires Placed(enc, p)
    ensures StepOn(enc, p, step).at.None? <==> p.at.None? || (step.Up? && p.at.value < 2)
  {
    if p.at.Some? && p.at.value >= 2 {
      assert p.nodes[p.at.value].id >= FIRST_USER_ID;
    }
  }

  lemma LeavesInFront(enc: Encoding, p: Place, steps: seq<Step>, k: nat)
    requires Placed(enc, p) && Faithful(enc) && MacNames(steps) && k + 1 < |steps|
    ensures LeavesRoot(enc, p, steps[..|steps| - 1], k) <==> LeavesRoot(enc, p, steps, k)
  {
    hide Placed, Faithful, Walked;
    assert steps[..|steps| - 1][..k] == steps[..k];
  }

  ghost predicate LeavesSomewhere(enc: Encoding, p: Place, steps: seq<Step>)
    requires Placed(enc, p) && Faithful(enc) && MacNames(steps)
  {
    exists k: nat | k < |steps| :: LeavesRoot(enc, p, steps, k)
  }

  lemma LeavesNext(enc: Encoding, p: Place, steps: seq<Step>)
    requires Placed(enc, p) && Faithful(enc) && MacNames(steps) && steps != []
    ensures var n := |steps| - 1;
      LeavesSomewhere(enc, p, steps) <==> LeavesSomewhere(enc, p, steps[..n]) || LeavesRoot(enc, p, steps, n)
  {
    hide Placed, Faithful, LeavesRoot;
    var n := |steps| - 1;
    forall k: nat | k < n
      ensures LeavesRoot(enc, p, steps[..n], k) <==> LeavesRoot(enc, p, steps, k)
    {
      LeavesInFront(enc, p, steps, k);
    }
  }

  lemma LastStep(enc: Encoding, p: Place, steps: seq<Step>)
    requires Placed(enc, p) && Faithful(enc) && MacNames(steps) && steps != []
    ensures var n := |steps| - 1;
      Walked(enc, p, steps).at.None? <==> Walked(enc, p, steps[..n]).at.None? || LeavesRoot(enc, p, steps, n)
  {
    hide Placed, Faithful, StepOn;
    StepFails(enc, Walked(enc, p, steps[..|steps| - 1]), steps[|steps| - 1]);
  }

  /** A walk fails exactly if some step goes up from the root or from the root's parent. */
  lemma {:induction false} WalkFails(enc: Encoding, p: Place, steps: seq<Step>)
    requires Placed(enc, p) && Faithful(enc) && MacNames(steps) && p.at.Some?
    ensures Walked(enc, p, steps).at.None? <==> exists k: nat | k < |steps| :: LeavesRoot(enc, p, steps, k)
    decreases |steps|
  {
    hide Placed, Faithful, LeavesRoot;
    if steps != [] {
      WalkFails(enc, p, steps[..|steps| - 1]);
      LastStep(enc, p, steps);
      LeavesNext(enc, p, steps);
    }
  }

  /** In terms of the guest's path: a walk that goes up only where at least two names are left arrives. */
  lemma WalkSucceeds(enc: Encoding, p: Place, steps: seq<Step>)
    requires Placed(enc, p) && Faithful(enc) && MacNames(steps) && p.at.Some?
    requires forall k | 0 <= k < |steps| && steps[k].Up? ::
               |Followed(GuestPath(p.nodes, p.at.value), steps[..k])| >= 2
    ensures Walked(enc, p, steps).at.Some?
  {
    WalkFails(enc, p, steps);
    if k: nat :| k < |steps| && LeavesRoot(enc, p, steps, k) {
      var q := Walked(enc, p, steps[..k]);
      WalkArrives(enc, p, steps[..k]);
      TopPaths(enc, q);
      assert false;
    }
  }

  lemma TopPaths(enc: Encoding, p: Place)
    requires Placed(enc, p) && p.at.Some? && p.at.value < 2
    ensures |GuestPath(p.nodes, p.at.value)| <= 1
  {
    hide UniqueIds, UniqueNames, ParentIds, GuestNames;
  }

  lemma NoneStays(enc: Encoding, p: Place, step: Step)
    requires Placed(enc, p)
    ensures p.at.None? ==> StepOn(enc, p, step).at.None?
    ensures p.at.Some? && step.Up? && StepOn(enc, p, step).at.Some? ==> GuestPath(p.nodes, p.at.value) != []
  {
  }

  /** A walk only adds nodes at the end. */
  lemma {:induction false} WalkGrows(enc: Encoding, p: Place, steps: seq<Step>)
    requires Placed(enc, p) && Faithful(enc) && MacNames(steps)
    ensures p.nodes <= Walked(enc, p, steps).nodes
    decreases |steps|
  {
    hide Inv, Faithful;
    if steps != [] {
      WalkGrows(enc, p, steps[..|steps| - 1]);
    }
  }

  /** After a bad name nothing more happens. */
  lemma {:induction false} WalkStops(enc: Encoding, p: Place, steps: seq<Step>, k: nat)
    requires Placed(enc, p) && Faithful(enc) && MacNames(steps) && k <= |steps|
    requires Walked(enc, p, steps[..k]).at.None?
    ensures Walked(enc, p, steps) == Walked(enc, p, steps[..k])
    decreases |steps|
  {
    hide Placed, Faithful;
    if k < |steps| {
      var n := |steps| - 1;
      assert steps[..n][..k] == steps[..k];
      WalkStops(enc, p, steps[..n], k);
    } else {
      assert steps[..k] == steps;
    }
  }

  lemma WalkStep(enc: Encoding, p: Place, steps: seq<Step>, k: nat)
    requires Placed(enc, p) && Faithful(enc) && MacNames(steps) && k < |steps|
    ensures Walked(enc, p, steps[..k + 1]) == StepOn(enc, Walked(enc, p, steps[..k]), steps[k])
  {
    hide Placed, Faithful, StepOn;
    assert steps[..k + 1][..k] == steps[..k];
  }

  lemma ResolvedAt(nodes: seq<Node>, id: int)
    ensures var i := Resolve(nodes, id); i < |nodes| ==> nodes[i].id == id
  {
  }

  /** What a rename or move from node `a` to node `b` leaves: `a`'s old id leads to `b`'s path, where
      the host put the file, `b`'s to `a`'s, and every other id where it led before. */
  ghost predicate Renamed(nodes: seq<Node>, after: seq<Node>, a: nat, b: nat)
    requires a < |nodes| && b < |nodes| && Shaped(nodes) && Shaped(after)
  {
    && PathOfId(after, nodes[a].id) == Some(PathOf(nodes, b))
    && PathOfId(after, nodes[b].id) == Some(PathOf(nodes, a))
    && forall id | id != nodes[a].id && id != nodes[b].id :: PathOfId(after, id) == PathOfId(nodes, id)
  }

  lemma SwapRenames(enc: Encoding, nodes: seq<Node>, next: int, a: nat, b: nat)
    requires Inv(enc, nodes, next) && 2 <= a < |nodes| && 2 <= b < |nodes|
    ensures Shaped(nodes) && Shaped(SwapIds(nodes, a, b)) && Renamed(nodes, SwapIds(nodes, a, b), a, b)
  {
    var after := SwapIds(nodes, a, b);
    ResolveIs(nodes, a);
    ResolveIs(nodes, b);
    hide SwapIds, PathOf, UniqueNames, GuestNames, ParentIds, UserIds, UniqueIds;
    forall id
      ensures Shaped(after) && PathOfId(after, id) == PathOfId(nodes, Swapped(id, nodes[a].id, nodes[b].id))
    {
      SwapTradesPaths(enc, nodes, next, a, b, id);
    }
  }

  /** Ids that led somewhere in `nodes` lead to the same path in `later`. */
  ghost predicate KeepsIds(nodes: seq<Node>, later: seq<Node>)
    requires Shaped(nodes) && Shaped(later)
  {
    forall id | PathOfId(nodes, id).Some? :: PathOfId(later, id) == PathOfId(nodes, id)
  }

  lemma PrefixKeepsIds(nodes: seq<Node>, later: seq<Node>)
    requires nodes <= later && Shaped(nodes) && Shaped(later) && UniqueIds(later)
    ensures KeepsIds(nodes, later)
  {
    hide PathOf, Resolve, UniqueIds, Shaped;
    forall id | PathOfId(nodes, id).Some?
      ensures PathOfId(later, id) == PathOfId(nodes, id)
    {
      var i := Resolve(nodes, id);
      ResolvedAt(nodes, id);
      PrefixKeepsPath(nodes, later, i);
      assert later[i] == nodes[i];
      ResolveIs(later, i);
    }
  }

  /** In `later`, position `at` is where the pathname leads from directory `dirId` of `nodes`. */
  ghost predicate Leads(nodes: seq<Node>, dirId: int, steps: seq<Step>, later: seq<Node>, at: nat)
    requires Shaped(nodes) && Shaped(later)
  {
    var i := Resolve(nodes, dirId);
    i < |nodes| && at < |later| && GuestPath(later, at) == Followed(GuestPath(nodes, i), steps)
  }

  lemma LeadsLater(nodes: seq<Node>, dirId: int, steps: seq<Step>, mid: seq<Node>, at: nat, later: seq<Node>)
    requires Shaped(nodes) && Shaped(mid) && Shaped(later) && mid <= later && Leads(nodes, dirId, steps, mid, at)
    ensures Leads(nodes, dirId, steps, later, at)
  {
    PrefixKeepsPath(mid, later, at);
  }

  lemma LeadsFromEarlier(nodes: seq<Node>, mid: seq<Node>, dirId: int, steps: seq<Step>, later: seq<Node>, at: nat)
    requires Shaped(nodes) && Shaped(mid) && Shaped(later) && nodes <= mid && UniqueIds(mid)
    requires Resolve(nodes, dirId) < |nodes| && Leads(mid, dirId, steps, later, at)
    ensures Leads(nodes, dirId, steps, later, at)
  {
    var i := Resolve(nodes, dirId);
    ResolvedAt(nodes, dirId);
    assert mid[i] == nodes[i];
    ResolveIs(mid, i);
    PrefixKeepsPath(nodes, mid, i);
  }
}
