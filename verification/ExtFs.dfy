/** The external file system's catalogue of items, updated in place by lookups, renames and moves. */
module ExtFs {
  import opened Bytes
  import opened ExtFsTree

  const NO_ERR := 0
  const BD_NAM_ERR := -37
  const DUP_FN_ERR := -48
  const DIR_NF_ERR := -120

  class FSItem {
    var id: int
    var parentId: int
    const parent: FSItem?
    const name: string
    const guestName: string
    /** Position in the item list. */
    ghost const at: nat

    constructor (id: int, parentId: int, parent: FSItem?, name: string, guestName: string, ghost at: nat)
      ensures this.id == id && this.parentId == parentId && this.parent == parent
      ensures this.name == name && this.guestName == guestName && this.at == at
    {
      this.id, this.parentId, this.parent := id, parentId, parent;
      this.name, this.guestName, this.at := name, guestName, at;
    }

    ghost function View(): Node
      reads this
    {
      Node(id, parentId, if parent == null then -1 else parent.at, name, guestName)
    }
  }

  ghost function Views(items: seq<FSItem>): (nodes: seq<Node>)
    reads items
    ensures |nodes| == |items|
    ensures forall i | 0 <= i < |items| :: nodes[i] == items[i].View()
  {
    seq(|items|, i requires 0 <= i < |items| reads items => items[i].View())
  }

  class Catalogue {
    const enc: Encoding
    var items: seq<FSItem>
    var nextCnid: int

    /** Items know their position, and parents are items. */
    ghost predicate Wired()
      reads this`items
    {
      && (forall i | 0 <= i < |items| :: items[i].at == i)
      && (forall i | 0 <= i < |items| && items[i].parent != null ::
            items[i].parent.at < |items| && items[items[i].parent.at] == items[i].parent)
    }

    ghost function Nodes(): (nodes: seq<Node>)
      reads this`items, items
      ensures |nodes| == |items|
    {
      Views(items)
    }

    ghost predicate Valid()
      reads this, items
    {
      Wired() && Inv(enc, Nodes(), nextCnid)
    }

    /** `ExtFSInit`: the root's parent and the root. */
    constructor (enc: Encoding, volume: string)
      ensures Valid() && this.enc == enc && nextCnid == FIRST_USER_ID && Nodes() == Start(enc, volume) && fresh(items)
    {
      this.enc := enc;
      var p := new FSItem(ROOT_PARENT_ID, 0, null, "", "", 0);
      var r := new FSItem(ROOT_ID, ROOT_PARENT_ID, p, volume, Clip(enc.toGuest(volume)), 1);
      items, nextCnid := [p, r], FIRST_USER_ID;
      new;
      StartInv(enc, volume);
      assert Nodes() == Start(enc, volume);
    }

    method FindById(cnid: int) returns (p: FSItem?)
      ensures var i := Resolve(Nodes(), cnid);
        if i < |items| then p == items[i] else p == null
    {
      hide Resolve;
      ResolveStart(Nodes(), cnid);
      for i := 0 to |items|
        invariant Resolve(Nodes(), cnid) == ResolveFrom(Nodes(), cnid, i)
      {
        if items[i].id == cnid {
          return items[i];
        }
      }
      return null;
    }

    method Create(name: string, guest: string, parent: FSItem) returns (p: FSItem)
      requires Wired() && parent.at < |items| && items[parent.at] == parent
      modifies this
      ensures Wired() && nextCnid == old(nextCnid) + 1 && items == old(items) + [p] && fresh(p)
      ensures Nodes() == old(Nodes()) + [Node(old(nextCnid), parent.id, parent.at, name, Clip(guest))]
    {
      p := new FSItem(nextCnid, parent.id, parent, name, Clip(guest), |items|);
      items := items + [p];
      nextCnid := nextCnid + 1;
    }

    method Search(name: string, byGuest: bool, parent: FSItem) returns (p: FSItem?)
      requires Wired() && parent.at < |items| && items[parent.at] == parent
      ensures var i := FindFrom(Nodes(), byGuest, name, parent.at, 0);
        if i < |items| then p == items[i] else p == null
    {
      hide FindFrom;
      for i := 0 to |items|
        invariant FindFrom(Nodes(), byGuest, name, parent.at, 0) == FindFrom(Nodes(), byGuest, name, parent.at, i)
      {
        FindUnfolds(Nodes(), byGuest, name, parent.at, i);
        SameParent(items[i], parent);
        if items[i].parent == parent && (if byGuest then items[i].guestName else items[i].name) == name {
          return items[i];
        }
      }
      FindEnds(Nodes(), byGuest, name, parent.at);
      return null;
    }

    /** `find_fsitem` and `find_fsitem_guest`: looks the name up under the parent, or makes an item. */
    method Find(name: string, byGuest: bool, parent: FSItem) returns (p: FSItem)
      requires Wired() && parent.at < |items| && items[parent.at] == parent
      modifies this
      ensures Wired() && (forall x | x in items :: x in old(items) || fresh(x))
      ensures forall x | x in old(items) :: x in items
      ensures Nodes() == Looked(enc, old(Nodes()), old(nextCnid), byGuest, name, parent.at)
      ensures nextCnid == NextAfter(old(Nodes()), Nodes(), old(nextCnid))
      ensures var i := FindFrom(old(Nodes()), byGuest, name, parent.at, 0); i < |items| && p == items[i]
    {
      hide FindFrom;
      var found := Search(name, byGuest, parent);
      if found != null {
        return found;
      }
      p := Create(if byGuest then enc.toHost(name) else name, if byGuest then name else enc.toGuest(name), parent);
    }

    lemma SameParent(p: FSItem, parent: FSItem)
      requires Wired() && p in items && parent.at < |items| && items[parent.at] == parent
      ensures p.parent == parent <==> p.View().parent == parent.at
    {
    }

    /** Exchanges two ids wherever an item names its parent by id. */
    method SwapParentIds(x: int, y: int)
      requires Wired()
      modifies items`parentId
      ensures Nodes() == Renumbered(old(Nodes()), x, y)
    {
      ghost var nodes := Nodes();
      for i := 0 to |items|
        invariant forall k | 0 <= k < i :: items[k].View() == nodes[k].(parentId := Swapped(nodes[k].parentId, x, y))
        invariant forall k | i <= k < |items| :: items[k].View() == nodes[k]
      {
        assert forall k | 0 <= k < |items| && k != i :: items[k] != items[i];
        if items[i].parentId == x {
          items[i].parentId := y;
        } else if items[i].parentId == y {
          items[i].parentId := x;
        }
      }
    }

    /** The id swap that keeps a renamed item's id with its new name. */
    method Swap(p: FSItem, q: FSItem)
      requires Wired() && p in items && q in items
      modifies items`id, items`parentId
      ensures Nodes() == SwapIds(old(Nodes()), p.at, q.at)
    {
      ghost var nodes := Nodes();
      SwapParentIds(p.id, q.id);
      ghost var m := Nodes();
      var t := p.id;
      p.id := q.id;
      q.id := t;
      forall k | 0 <= k < |items|
        ensures Nodes()[k] == SwapIds(nodes, p.at, q.at)[k]
      {
        assert m[k] == Renumbered(nodes, nodes[p.at].id, nodes[q.at].id)[k];
      }
    }

    /** The components of an item's host path, found by climbing to the root. */
    method GetPath(p: FSItem) returns (path: seq<string>)
      requires Valid() && p in items
      ensures path == PathOf(Nodes(), p.at)
      decreases p.at
    {
      ghost var node := Nodes()[p.at];
      if p.id == ROOT_PARENT_ID {
        return [];
      }
      if p.id == ROOT_ID {
        return ["/"];
      }
      path := GetPath(p.parent);
      path := path + [p.name];
    }

    ghost function Here(p: FSItem): Place
      reads this, items
    {
      Place(Nodes(), nextCnid, Some(p.at))
    }

    /** One component of a pathname; no item on a bad name. */
    method TakeStep(p: FSItem, step: Step) returns (q: FSItem?)
      requires Valid() && p in items && Faithful(enc) && (step.Enter? ==> |step.name| <= 31)
      modifies this
      ensures Valid() && (forall x | x in items :: x in old(items) || fresh(x))
      ensures forall x | x in old(items) :: x in items
      ensures var r := StepOn(enc, old(Here(p)), step);
        && Nodes() == r.nodes && nextCnid == r.next && (q == null <==> r.at.None?)
        && (q != null ==> q in items && r == Here(q))
    {
      hide UniqueIds, UniqueNames, ParentIds, GuestNames, FindFrom, Looked, NextAfter, Faithful;
      ghost var node := Nodes()[p.at];
      match step
      case Up =>
        if p.id == ROOT_ID {
          return null;
        }
        q := p.parent;
      case Enter(name) =>
        LookedKeepsInv(enc, Nodes(), nextCnid, true, name, p.at);
        q := Find(name, true, p);
    }

    lemma HerePlaced(p: FSItem)
      requires Valid() && p in items
      ensures Placed(enc, Here(p))
    {
    }

    lemma WiredIs()
      requires Valid()
      ensures Wired() && forall i | 0 <= i < |items| :: items[i].at == i
    {
    }

    /** Finding the item and host path that a directory id and a pathname stand for. */
    method GetItemAndPath(dirId: int, steps: seq<Step>) returns (res: int, item: FSItem?, path: seq<string>)
      requires Valid() && Faithful(enc) && MacNames(steps)
      modifies this
      ensures Valid() && (forall x | x in items :: x in old(items) || fresh(x))
      ensures forall x | x in old(items) :: x in items
      ensures var i := Resolve(old(Nodes()), dirId);
        if i == |old(items)| then res == DIR_NF_ERR && Nodes() == old(Nodes()) && nextCnid == old(nextCnid)
        else
          var q := Walked(enc, Place(old(Nodes()), old(nextCnid), Some(i)), steps);
          && Nodes() == q.nodes && nextCnid == q.next
          && (q.at.None? ==> res == BD_NAM_ERR)
          && (q.at.Some? ==> res == NO_ERR && item != null && item in items && item.at == q.at.value
                             && path == PathOf(Nodes(), item.at))
      ensures res == NO_ERR ==> item != null && item in items && path == PathOf(Nodes(), item.at)
    {
      hide Walked, StepOn, Inv, Resolve, PathOf, Faithful, MacNames, Wired, Views, Placed, Valid;
      WiredIs();
      var p := FindById(dirId);
      path := [];
      if p == null {
        return DIR_NF_ERR, null, [];
      }
      ghost var start := Here(p);
      HerePlaced(p);
      WalkStart(enc, start, steps);
      for k := 0 to |steps|
        invariant Valid() && (forall x | x in items :: x in old(items) || fresh(x))
        invariant forall x | x in old(items) :: x in items
        invariant p in items && Walked(enc, start, steps[..k]) == Here(p)
      {
        WalkStep(enc, start, steps, k);
        MacNameAt(steps, k);
        var q := TakeStep(p, steps[k]);
        if q == null {
          WalkStops(enc, start, steps, k + 1);
          return BD_NAM_ERR, null, [];
        }
        p := q;
      }
      assert steps[..|steps|] == steps;
      path := GetPath(p);
      return NO_ERR, p, path;
    }

    /** The same, in terms of what it means: the item is where the pathname leads. */
    method Lookup(dirId: int, steps: seq<Step>) returns (res: int, item: FSItem?, path: seq<string>)
      requires Valid() && Faithful(enc) && MacNames(steps)
      modifies this
      ensures Valid() && (forall x | x in items :: x in old(items) || fresh(x))
      ensures forall x | x in old(items) :: x in items
      ensures Shaped(old(Nodes())) && old(Nodes()) <= Nodes() && Shaped(Nodes()) && UniqueIds(Nodes())
      ensures res == NO_ERR ==>
        && item != null && item in items && item.at < |items| && path == PathOf(Nodes(), item.at)
        && Leads(old(Nodes()), dirId, steps, Nodes(), item.at)
      ensures res == DIR_NF_ERR <==> Resolve(old(Nodes()), dirId) == |old(items)|
      ensures res == NO_ERR || res == DIR_NF_ERR || res == BD_NAM_ERR
    {
      hide Walked, Resolve, PathOf, GuestPath, Faithful, MacNames, Views, Placed, Valid;
      ValidIs();
      ghost var first, next := Nodes(), nextCnid;
      res, item, path := GetItemAndPath(dirId, steps);
      ValidIs();
      ghost var i := Resolve(first, dirId);
      if i < |first| {
        ghost var p := Place(first, next, Some(i));
        StartPlaced(enc, p);
        WalkGrows(enc, p, steps);
        WalkArrives(enc, p, steps);
      }
    }

    lemma ValidIs()
      requires Valid()
      ensures Inv(enc, Nodes(), nextCnid) && Shaped(Nodes()) && UniqueIds(Nodes())
      ensures forall p | p in items :: p.at < |items| && items[p.at] == p
    {
    }

    /** Swaps two items' ids, with what this means for the ids' paths. */
    method SwapNamed(p: FSItem, q: FSItem)
      requires Valid() && p in items && q in items
      modifies items`id, items`parentId
      ensures p.at < |old(Nodes())| && q.at < |old(Nodes())| && Nodes() == SwapIds(old(Nodes()), p.at, q.at)
      ensures Shaped(old(Nodes())) && Shaped(Nodes())
      ensures p.at >= 2 && q.at >= 2 ==> Valid() && Renamed(old(Nodes()), Nodes(), p.at, q.at)
    {
      hide SwapIds, Renamed, UniqueIds, UniqueNames, ParentIds, GuestNames, Views;
      ghost var nodes := Nodes();
      SwapKeepsShape(nodes, p.at, q.at);
      Swap(p, q);
      if p.at >= 2 && q.at >= 2 {
        SwapKeepsInv(enc, nodes, nextCnid, p.at, q.at);
        SwapRenames(enc, nodes, nextCnid, p.at, q.at);
      }
    }

    /** Both pathnames of a rename or move, looked up one after the other. */
    method LookupBoth(dirId: int, steps: seq<Step>, newDirId: int, newSteps: seq<Step>)
      returns (res: int, item: FSItem?, newItem: FSItem?, oldPath: seq<string>, newPath: seq<string>)
      requires Valid() && Faithful(enc) && MacNames(steps) && MacNames(newSteps)
      modifies this
      ensures Valid() && (forall x | x in items :: x in old(items) || fresh(x))
      ensures Shaped(old(Nodes())) && Shaped(Nodes()) && KeepsIds(old(Nodes()), Nodes())
      ensures res == NO_ERR ==>
        && item != null && item in items && newItem != null && newItem in items
        && item.at < |items| && newItem.at < |items|
        && Resolve(old(Nodes()), dirId) < |old(items)| && Leads(old(Nodes()), dirId, steps, Nodes(), item.at)
        && (Resolve(old(Nodes()), newDirId) < |old(items)| ==>
              Leads(old(Nodes()), newDirId, newSteps, Nodes(), newItem.at))
        && oldPath == PathOf(Nodes(), item.at) && newPath == PathOf(Nodes(), newItem.at)
    {
      hide Resolve, PathOf, Faithful, MacNames, Wired, Views, Valid, KeepsIds, Leads, UniqueIds, Shaped;
      ghost var first := Nodes();
      newItem, newPath := null, [];
      res, item, oldPath := Lookup(dirId, steps);
      ghost var second := Nodes();
      if res != NO_ERR {
        PrefixKeepsIds(first, second);
        return;
      }
      res, newItem, newPath := Lookup(newDirId, newSteps);
      PrefixTwice(first, second, Nodes());
      PrefixKeepsIds(first, Nodes());
      if res == NO_ERR {
        SecondLookup(first, second, Nodes(), dirId, steps, newDirId, newSteps, item.at, newItem.at);
      }
    }

    /** `fs_rename`. `taken` and `hostError` are the host's answers; on success `mid` is the
        catalogue before the id swap, `a` and `b` the positions of the items named, and `moved`
        the two paths given to the host. */
    method Rename(dirId: int, steps: seq<Step>, newSteps: seq<Step>, taken: bool, hostError: int)
      returns (res: int, moved: Option<(seq<string>, seq<string>)>, ghost mid: seq<Node>, ghost a: nat, ghost b: nat)
      requires Valid() && Faithful(enc) && MacNames(steps) && MacNames(newSteps)
      modifies this, items`id, items`parentId
      ensures res != NO_ERR ==> Valid() && moved == None
      ensures Shaped(old(Nodes())) && Shaped(Nodes())
      ensures res == NO_ERR ==>
        && Shaped(mid) && a < |mid| && b < |mid| && KeepsIds(old(Nodes()), mid)
        && Leads(old(Nodes()), dirId, steps, mid, a) && Leads(old(Nodes()), dirId, newSteps, mid, b)
        && moved == Some((PathOf(mid, a), PathOf(mid, b))) && Nodes() == SwapIds(mid, a, b)
        && (a >= 2 && b >= 2 ==> Valid() && Renamed(mid, Nodes(), a, b))
    {
      hide Resolve, PathOf, Faithful, MacNames, Wired, Views, Valid, SwapIds, Renamed, KeepsIds, Leads;
      hide UniqueIds, Shaped;
      moved, mid, a, b := None, [], 0, 0;
      var item, newItem, oldPath, newPath;
      res, item, newItem, oldPath, newPath := LookupBoth(dirId, steps, dirId, newSteps);
      if res != NO_ERR {
        return;
      }
      if taken {
        res := DUP_FN_ERR;
        return;
      }
      if hostError != NO_ERR {
        res := hostError;
        return;
      }
      mid, a, b, moved := Nodes(), item.at, newItem.at, Some((oldPath, newPath));
      assert forall i | 0 <= i < |items| :: items[i] in items && (items[i] in old(items) || fresh(items[i]));
      SwapNamed(item, newItem);
    }

    /** The item a moved file will have: found or made under the new directory. */
    method Target(item: FSItem, dir: FSItem) returns (target: FSItem)
      requires Valid() && Faithful(enc) && item in items && dir in items
      modifies this
      ensures Valid() && (forall x | x in items :: x in old(items) || fresh(x))
      ensures forall x | x in old(items) :: x in items
      ensures Shaped(old(Nodes())) && old(Nodes()) <= Nodes() && Shaped(Nodes()) && UniqueIds(Nodes())
      ensures target in items && target.at < |items| && dir.at < |items|
      ensures Nodes()[target.at].parent == dir.at && Nodes()[target.at].name == item.name
      ensures PathOf(Nodes(), dir.at) == PathOf(old(Nodes()), dir.at)
      ensures target.at >= 2 ==> PathOf(Nodes(), target.at) == PathOf(Nodes(), dir.at) + [item.name]
    {
      hide Faithful, FindFrom, Views, PathOf, UniqueNames, GuestNames, ParentIds, UserIds, Shaped, UniqueIds;
      ghost var nodes := Nodes();
      LookedKeepsInv(enc, nodes, nextCnid, false, item.name, dir.at);
      LookedPaths(enc, nodes, nextCnid, false, item.name, dir.at, dir.at);
      target := Find(item.name, false, dir);
      if target.at >= 2 {
        OrdinaryPath(enc, Nodes(), nextCnid, target.at);
      }
    }

    /** Once the host has moved the file: the item trades ids with its new place. */
    method FinishMove(item: FSItem, dir: FSItem) returns (ghost mid: seq<Node>, ghost b: nat)
      requires Valid() && Faithful(enc) && item in items && dir in items
      modifies this, items`id, items`parentId
      ensures Shaped(old(Nodes())) && Shaped(mid) && UniqueIds(mid) && old(Nodes()) <= mid
      ensures item.at < |old(items)| && dir.at < |old(items)| && b < |mid|
      ensures mid[b].parent == dir.at && mid[b].name == mid[item.at].name == item.name
      ensures Shaped(Nodes()) && Nodes() == SwapIds(mid, item.at, b)
      ensures PathOf(mid, dir.at) == PathOf(old(Nodes()), dir.at)
      ensures b >= 2 ==> PathOf(mid, b) == PathOf(mid, dir.at) + [item.name]
      ensures item.at >= 2 && b >= 2 ==> Valid() && Renamed(mid, Nodes(), item.at, b)
    {
      hide PathOf, Faithful, Wired, Views, Valid, SwapIds, Renamed, UniqueIds, Shaped;
      ValidIs();
      NamesAre();
      var newItem := Target(item, dir);
      ValidIs();
      NamesAre();
      mid, b := Nodes(), newItem.at;
      assert forall i | 0 <= i < |items| :: items[i] in items && (items[i] in old(items) || fresh(items[i]));
      SwapNamed(item, newItem);
    }

    lemma NamesAre()
      requires Valid()
      ensures forall p | p in items :: p.at < |items| && Nodes()[p.at].name == p.name
    {
    }

    /** `fs_cat_move`: the item keeps its name and moves to another directory. `d` is the position of
        that directory. */
    method CatMove(dirId: int, steps: seq<Step>, newDirId: int, newSteps: seq<Step>, taken: bool, hostError: int)
      returns (res: int, moved: Option<(seq<string>, seq<string>)>,
               ghost mid: seq<Node>, ghost a: nat, ghost b: nat, ghost d: nat)
      requires Valid() && Faithful(enc) && MacNames(steps) && MacNames(newSteps)
      modifies this, items`id, items`parentId
      ensures res != NO_ERR ==> Valid() && moved == None
      ensures Shaped(old(Nodes())) && Shaped(Nodes())
      ensures res == NO_ERR ==>
        && Shaped(mid) && a < |mid| && b < |mid| && d < |mid| && KeepsIds(old(Nodes()), mid)
        && Leads(old(Nodes()), dirId, steps, mid, a)
        && (Resolve(old(Nodes()), newDirId) < |old(items)| ==> Leads(old(Nodes()), newDirId, newSteps, mid, d))
        && mid[b].parent == d && mid[b].name == mid[a].name
        && moved == Some((PathOf(mid, a), PathOf(mid, d) + [mid[a].name])) && Nodes() == SwapIds(mid, a, b)
        && (a >= 2 && b >= 2 ==>
              Valid() && Renamed(mid, Nodes(), a, b) && moved == Some((PathOf(mid, a), PathOf(mid, b))))
    {
      hide Resolve, PathOf, Faithful, MacNames, Wired, Views, Valid, SwapIds, Renamed, KeepsIds, Leads;
      hide UniqueIds, Shaped;
      moved, mid, a, b, d := None, [], 0, 0, 0;
      ghost var first := Nodes();
      var item, dir, oldPath, dirPath;
      res, item, dir, oldPath, dirPath := LookupBoth(dirId, steps, newDirId, newSteps);
      if res != NO_ERR {
        return;
      }
      if taken {
        res := DUP_FN_ERR;
        return;
      }
      if hostError != NO_ERR {
        res := hostError;
        return;
      }
      ghost var second := Nodes();
      assert forall i | 0 <= i < |items| :: items[i] in items && (items[i] in old(items) || fresh(items[i]));
      a, d, moved := item.at, dir.at, Some((oldPath, dirPath + [item.name]));
      mid, b := FinishMove(item, dir);
      MoveLookups(first, second, mid, dirId, steps, newDirId, newSteps, a, d);
    }
  }

  lemma ResolveStart(nodes: seq<Node>, id: int)
    ensures Resolve(nodes, id) == ResolveFrom(nodes, id, 0)
  {
  }

  lemma FindUnfolds(nodes: seq<Node>, byGuest: bool, name: string, parent: int, i: nat)
    requires i < |nodes|
    ensures FindFrom(nodes, byGuest, name, parent, i)
         == if Matches(nodes[i], byGuest, name, parent) then i else FindFrom(nodes, byGuest, name, parent, i + 1)
  {
  }

  lemma FindEnds(nodes: seq<Node>, byGuest: bool, name: string, parent: int)
    ensures FindFrom(nodes, byGuest, name, parent, |nodes|) == |nodes|
  {
  }

  lemma WalkStart(enc: Encoding, p: Place, steps: seq<Step>)
    requires Placed(enc, p) && Faithful(enc) && MacNames(steps)
    ensures Walked(enc, p, steps[..0]) == p
    ensures forall k | 0 <= k <= |steps| :: MacNames(steps[..k])
  {
  }

  lemma MacNameAt(steps: seq<Step>, k: nat)
    requires MacNames(steps) && k < |steps|
    ensures steps[k].Enter? ==> |steps[k].name| <= 31
  {
  }

  lemma StartPlaced(enc: Encoding, p: Place)
    requires Inv(enc, p.nodes, p.next) && (p.at.Some? ==> p.at.value < |p.nodes|)
    ensures Placed(enc, p)
  {
  }

  lemma SwapKeepsShape(nodes: seq<Node>, a: nat, b: nat)
    requires Shaped(nodes) && a < |nodes| && b < |nodes|
    ensures Shaped(SwapIds(nodes, a, b))
  {
  }

  /** Two lookups in a row. */
  lemma SecondLookup(first: seq<Node>, second: seq<Node>, mid: seq<Node>, dirId: int, steps: seq<Step>,
                     newDirId: int, newSteps: seq<Step>, a: nat, b: nat)
    requires Shaped(first) && Shaped(second) && Shaped(mid) && UniqueIds(second) && UniqueIds(mid)
    requires first <= second <= mid
    requires Leads(first, dirId, steps, second, a) && Leads(second, newDirId, newSteps, mid, b)
    ensures Resolve(first, dirId) < |first| && Leads(first, dirId, steps, mid, a)
    ensures Resolve(first, newDirId) < |first| ==> Leads(first, newDirId, newSteps, mid, b)
    ensures KeepsIds(first, mid) && PathOf(mid, a) == PathOf(second, a)
  {
    LeadsLater(first, dirId, steps, second, a, mid);
    if Resolve(first, newDirId) < |first| {
      LeadsFromEarlier(first, second, newDirId, newSteps, mid, b);
    }
    PrefixKeepsIds(first, mid);
    PrefixKeepsPath(second, mid, a);
  }

  lemma PrefixTwice(first: seq<Node>, second: seq<Node>, third: seq<Node>)
    requires first <= second <= third
    ensures first <= third
  {
  }

  lemma MoveLookups(first: seq<Node>, second: seq<Node>, mid: seq<Node>, dirId: int, steps: seq<Step>,
                    newDirId: int, newSteps: seq<Step>, a: nat, d: nat)
    requires Shaped(first) && Shaped(second) && Shaped(mid) && UniqueIds(mid) && second <= mid && a < |second|
    requires KeepsIds(first, second) && Leads(first, dirId, steps, second, a)
    requires Resolve(first, newDirId) < |first| ==> Leads(first, newDirId, newSteps, second, d)
    ensures KeepsIds(first, mid) && Leads(first, dirId, steps, mid, a) && PathOf(mid, a) == PathOf(second, a)
    ensures Resolve(first, newDirId) < |first| ==> Leads(first, newDirId, newSteps, mid, d)
  {
    hide GuestPath, PathOfId;
    PrefixKeepsIds(second, mid);
    PrefixKeepsPath(second, mid, a);
    LeadsLater(first, dirId, steps, second, a, mid);
    if Resolve(first, newDirId) < |first| {
      LeadsLater(first, newDirId, newSteps, second, d, mid);
    }
  }
}
