/** The preferences list as the program keeps it: items appended and replaced in place, files read
    line by line, and the command line tidied up. */
module Prefs {
  import opened Bytes
  import opened PrefsText

  class Preferences {
    var nodes: seq<Entry>

    /** The `index`-th item of a keyword and kind, or -1. */
    method FindNode(name: string, kind: Kind, index: nat) returns (p: int)
      ensures -1 <= p < |nodes|
      ensures var at := Nth(nodes, name, kind, index, 0); p == if at < |nodes| then at else -1
    {
      hide Is;
      var i := 0;
      for q := 0 to |nodes|
        invariant 0 <= i <= index && Nth(nodes, name, kind, index, 0) == Nth(nodes, name, kind, index - i, q)
      {
        if Is(nodes[q], name, kind) {
          if i == index {
            return q;
          }
          i := i + 1;
        }
      }
      return -1;
    }

    method Add(name: string, v: Value)
      modifies this
      ensures nodes == old(nodes) + [Entry(name, v)]
    {
      nodes := nodes + [Entry(name, v)];
    }

    method Replace(name: string, v: Value)
      modifies this
      ensures nodes == Replaced(old(nodes), name, v)
    {
      var p := FindNode(name, KindOf(v), 0);
      if p >= 0 {
        nodes := nodes[p := Entry(name, v)];
      } else {
        Add(name, v);
      }
    }

    /** Replaces the `index`-th string of the keyword. */
    method ReplaceString(name: string, s: string, index: nat)
      modifies this
      ensures nodes == ReplacedAt(old(nodes), name, Str(s), index)
    {
      var p := FindNode(name, StringKind, index);
      if p >= 0 {
        nodes := nodes[p := Entry(name, Str(s))];
      } else {
        Add(name, Str(s));
      }
    }

    /** Removes the `index`-th item of the keyword, of any kind; removing the list's first item drops
        the whole list. */
    method RemoveItem(name: string, index: nat)
      modifies this
      ensures nodes == RemovedItem(old(nodes), name, index)
    {
      var i, p := 0, 0;
      while p < |nodes| && !(nodes[p].name == name && i == index)
        invariant 0 <= p <= |nodes| && 0 <= i <= index
        invariant NthNamed(nodes, name, index, 0) == NthNamed(nodes, name, index - i, p)
      {
        if nodes[p].name == name {
          i := i + 1;
        }
        p := p + 1;
      }
      if p < |nodes| {
        nodes := if p == 0 then [] else nodes[..p] + nodes[p + 1..];
      }
    }

    method PrefsFindString(name: string, index: nat) returns (s: Option<string>)
      ensures s == FindString(nodes, name, index)
    {
      var p := FindNode(name, StringKind, index);
      NthIsValue(nodes, name, StringKind, index, 0);
      StringsOnly(nodes, name);
      Whole(nodes);
      return if p >= 0 && nodes[p].value.Str? then Some(nodes[p].value.s) else None;
    }

    method PrefsFindBool(name: string) returns (b: bool)
      ensures b == FindBool(nodes, name)
    {
      var p := FindNode(name, BoolKind, 0);
      NthIsValue(nodes, name, BoolKind, 0, 0);
      ValueKinds(nodes, name, BoolKind);
      Whole(nodes);
      return p >= 0 && nodes[p].value.Bool? && nodes[p].value.b;
    }

    method PrefsFindInt32(name: string) returns (i: int)
      ensures i == FindInt(nodes, name)
    {
      var p := FindNode(name, IntKind, 0);
      NthIsValue(nodes, name, IntKind, 0, 0);
      ValueKinds(nodes, name, IntKind);
      Whole(nodes);
      return if p >= 0 && nodes[p].value.Int? then nodes[p].value.i else 0;
    }

    /** One value for a described keyword. */
    method Store(d: Desc, value: string)
      modifies this
      ensures nodes == Stored(old(nodes), d, value)
    {
      hide Replaced;
      match d.kind
      case StringKind =>
        if d.multiple {
          Add(d.name, Str(value));
        } else {
          Replace(d.name, Str(value));
        }
      case BoolKind => Replace(d.name, Bool(value == "true"));
      case IntKind => Replace(d.name, Int(Signed32(Atol(value))));
    }

    /** Reads a settings file line by line. */
    method LoadPrefsFromStream(descs: seq<Desc>, text: string)
      modifies this
      ensures nodes == Loaded(old(nodes), descs, text)
    {
      hide Applied, LineLen;
      var rest := text;
      while rest != ""
        invariant Loaded(old(nodes), descs, text) == Loaded(nodes, descs, rest)
        decreases |rest|
      {
        var n := LineLen(rest, 0);
        LoadLine(descs, rest[..n - 1]);
        rest := rest[n..];
      }
    }

    method LoadLine(descs: seq<Desc>, line: string)
      modifies this
      ensures nodes == Applied(old(nodes), descs, line)
    {
      hide Stored, KeyEnd, ValueStart, FindDesc;
      if line == "" || line[0] == '#' || line[0] == ';' {
        return;
      }
      var e := SkipKeyword(line);
      if e == |line| {
        return;
      }
      var v := SkipSpace(line, e + 1);
      var i := LookUp(descs, line[..e]);
      if i < |descs| {
        Store(descs[i], line[v..]);
      }
    }

    /** Writes the settings of all descriptors. */
    method WritePrefs(descs: seq<Desc>) returns (text: string)
      ensures text == Saved(nodes, descs)
    {
      hide LinesOf;
      text := "";
      PrintedNothing();
      for i := 0 to |descs|
        invariant text == Printed(Lines(nodes, descs[..i]))
      {
        assert descs[..i + 1][..i] == descs[..i];
        var part := WriteOne(descs[i]);
        PrintedAppend(Lines(nodes, descs[..i]), LinesOf(nodes, descs[i]));
        text := text + part;
      }
      assert descs[..|descs|] == descs;
    }

    method WriteOne(d: Desc) returns (text: string)
      ensures text == Printed(LinesOf(nodes, d))
    {
      hide Values, FindBool, FindInt, FindString, Decimal;
      match d.kind
      case StringKind =>
        text := WriteStrings(d.name);
      case BoolKind =>
        var b := PrefsFindBool(d.name);
        OneLine(d.name + " " + (if b then "true" else "false"));
        text := d.name + " " + (if b then "true" else "false") + "\n";
      case IntKind =>
        var i := PrefsFindInt32(d.name);
        OneLine(d.name + " " + Decimal(i));
        text := d.name + " " + Decimal(i) + "\n";
    }

    method WriteStrings(name: string) returns (text: string)
      ensures text == Printed(StringLines(name, Values(nodes, name, StringKind)))
    {
      hide Values, StringLines, Printed;
      ghost var vs := Values(nodes, name, StringKind);
      StringsOnly(nodes, name);
      text := "";
      NoStringLines(name);
      var index := 0;
      var str := PrefsFindString(name, 0);
      while str.Some?
        invariant 0 <= index <= |vs| && str == FindString(nodes, name, index)
        invariant text == Printed(StringLines(name, vs[..index]))
        decreases |vs| - index
      {
        StringLineNext(name, vs, index);
        PrintedAppend(StringLines(name, vs[..index]), [name + " " + str.value]);
        OneLine(name + " " + str.value);
        text := text + (name + " " + str.value + "\n");
        index := index + 1;
        str := PrefsFindString(name, index);
      }
      assert vs[..index] == vs;
    }
  }

  lemma Whole(nodes: seq<Entry>)
    ensures nodes[0..] == nodes
  {
  }

  /** The item found is the keyword's value at that index. */
  lemma {:induction false} NthIsValue(store: seq<Entry>, name: string, kind: Kind, index: nat, from: nat)
    requires from <= |store|
    ensures var p, vs := Nth(store, name, kind, index, from), Values(store[from..], name, kind);
      && (p < |store| <==> index < |vs|)
      && (p < |store| ==> store[p].value == vs[index])
    decreases |store| - from
  {
    if from < |store| {
      assert store[from..] == [store[from]] + store[from + 1..];
      ValuesAppend([store[from]], store[from + 1..], name, kind);
      OneValue(store[from], name, kind);
      if !Is(store[from], name, kind) {
        NthIsValue(store, name, kind, index, from + 1);
      } else if index > 0 {
        NthIsValue(store, name, kind, index - 1, from + 1);
      }
    }
  }

  function ReplacedAt(store: seq<Entry>, name: string, v: Value, index: nat): seq<Entry> {
    var p := Nth(store, name, KindOf(v), index, 0);
    if p < |store| then store[p := Entry(name, v)] else store + [Entry(name, v)]
  }

  /** As many of the keyword's values come before its `index`-th item. */
  lemma {:induction false} NthSplits(store: seq<Entry>, name: string, kind: Kind, index: nat, from: nat)
    requires from <= |store|
    ensures var p := Nth(store, name, kind, index, from);
      && from <= p
      && (p < |store| ==> Is(store[p], name, kind) && |Values(store[from..p], name, kind)| == index)
    decreases |store| - from
  {
    hide Values, Is;
    if from < |store| {
      var p := Nth(store, name, kind, index, from);
      if !Is(store[from], name, kind) {
        NthSplits(store, name, kind, index, from + 1);
      } else if index > 0 {
        NthSplits(store, name, kind, index - 1, from + 1);
      }
      if from < p < |store| {
        ValuesBetween(store, name, kind, from, p);
      } else if p == from {
        NoValues(store[from..from], name, kind);
      }
    }
  }

  lemma NoValues(store: seq<Entry>, name: string, kind: Kind)
    ensures store == [] ==> Values(store, name, kind) == []
  {
  }

  lemma ValuesBetween(store: seq<Entry>, name: string, kind: Kind, from: nat, p: nat)
    requires from < p <= |store|
    ensures |Values(store[from..p], name, kind)|
         == (if Is(store[from], name, kind) then 1 else 0) + |Values(store[from + 1..p], name, kind)|
  {
    hide Values, Is;
    assert store[from..p] == [store[from]] + store[from + 1..p];
    ValuesAppend([store[from]], store[from + 1..p], name, kind);
    OneValue(store[from], name, kind);
  }

  lemma ValuesAround(a: seq<Entry>, e: Entry, b: seq<Entry>, name: string, kind: Kind)
    ensures Values(a + [e] + b, name, kind)
         == Values(a, name, kind) + (if Is(e, name, kind) then [e.value] else []) + Values(b, name, kind)
  {
    ValuesAppend(a + [e], b, name, kind);
    ValuesAppend(a, [e], name, kind);
    OneValue(e, name, kind);
    hide *;
  }

  /** Replacing the `index`-th value of a keyword changes that value and nothing else; if there are
      fewer, the new value becomes the last, whatever the index. */
  lemma ReplacedAtValues(store: seq<Entry>, name: string, v: Value, index: nat, other: string, kind: Kind)
    ensures var vs, now := Values(store, other, kind), Values(ReplacedAt(store, name, v, index), other, kind);
      now == if other != name || kind != KindOf(v) then vs else if index < |vs| then vs[index := v] else vs + [v]
  {
    NthIsValue(store, name, KindOf(v), index, 0);
    Whole(store);
    if Nth(store, name, KindOf(v), index, 0) < |store| {
      FoundValues(store, name, v, index, other, kind);
    } else {
      assert store + [Entry(name, v)] + [] == store + [Entry(name, v)];
      ValuesAround(store, Entry(name, v), [], other, kind);
      assert Values([], other, kind) == [];
    }
    hide Nth, Values, KindOf;
  }

  lemma FoundValues(store: seq<Entry>, name: string, v: Value, index: nat, other: string, kind: Kind)
    requires Nth(store, name, KindOf(v), index, 0) < |store|
    ensures var p := Nth(store, name, KindOf(v), index, 0);
      var vs, now := Values(store, other, kind), Values(store[p := Entry(name, v)], other, kind);
      now == if other != name || kind != KindOf(v) then vs else if index < |vs| then vs[index := v] else vs + [v]
  {
    var e, p := Entry(name, v), Nth(store, name, KindOf(v), index, 0);
    var a, b := store[..p], store[p + 1..];
    NthSplits(store, name, KindOf(v), index, 0);
    assert store[0..p] == a && store == a + [store[p]] + b && store[p := e] == a + [e] + b;
    ValuesAround(a, store[p], b, other, kind);
    ValuesAround(a, e, b, other, kind);
    hide Nth, Values, KindOf;
    SetMiddle(Values(a, other, kind), store[p].value, Values(b, other, kind), v);
  }

  lemma SetMiddle(a: seq<Value>, x: Value, b: seq<Value>, v: Value)
    ensures (a + [x] + b)[|a| := v] == a + [v] + b
  {
  }

  /** Position of the keyword's `index`-th item of any kind, counting from `from`, or the length. */
  function NthNamed(store: seq<Entry>, name: string, index: int, from: nat): (p: nat)
    requires from <= |store|
    ensures from <= p <= |store|
    decreases |store| - from
  {
    if from == |store| then from
    else if store[from].name != name then NthNamed(store, name, index, from + 1)
    else if index == 0 then from
    else NthNamed(store, name, index - 1, from + 1)
  }

  /** How many items the keyword has, of any kind. */
  function Named(store: seq<Entry>, name: string): nat {
    if store == [] then 0 else (if store[0].name == name then 1 else 0) + Named(store[1..], name)
  }

  /** It is an item of the keyword with exactly `index` of them before it; there is none exactly if the
      keyword has no more than `index`. */
  lemma {:induction false} NthNamedIs(store: seq<Entry>, name: string, index: nat, from: nat)
    requires from <= |store|
    ensures var p := NthNamed(store, name, index, from);
      && (p < |store| ==> store[p].name == name && Named(store[from..p], name) == index)
      && (p == |store| <==> Named(store[from..], name) <= index)
    decreases |store| - from
  {
    if from < |store| {
      var p := NthNamed(store, name, index, from);
      assert store[from..][1..] == store[from + 1..];
      if store[from].name != name || index > 0 {
        NthNamedIs(store, name, if store[from].name == name then index - 1 else index, from + 1);
        if p < |store| {
          assert store[from..p][1..] == store[from + 1..p];
        }
      }
    }
  }

  function RemovedItem(store: seq<Entry>, name: string, index: nat): seq<Entry> {
    var p := NthNamed(store, name, index, 0);
    if p == |store| then store else if p == 0 then [] else store[..p] + store[p + 1..]
  }

  /** Removing an item keeps all others exactly if it is not the list's first, with others behind. */
  lemma RemovalKeepsOthers(store: seq<Entry>, name: string, index: nat)
    ensures var p := NthNamed(store, name, index, 0);
      p < |store| ==>
        (RemovedItem(store, name, index) == store[..p] + store[p + 1..]
         <==> !(store[0].name == name && index == 0) || |store| == 1)
    ensures var p := NthNamed(store, name, index, 0);
      p < |store| ==> store[p].name == name && Named(store[..p], name) == index
    ensures var p := NthNamed(store, name, index, 0);
      p == |store| ==> Named(store, name) <= index && RemovedItem(store, name, index) == store
  {
    NthNamedIs(store, name, index, 0);
    assert store[0..] == store;
    hide NthNamed, Named;
    var p := NthNamed(store, name, index, 0);
    if p == 0 && |store| > 1 {
      assert |store[..p] + store[p + 1..]| > 0;
    }
  }

  method SkipKeyword(line: string) returns (e: nat)
    ensures e == KeyEnd(line, 0)
  {
    e := 0;
    while e < |line| && !IsSpace(line[e])
      invariant 0 <= e <= |line| && KeyEnd(line, 0) == KeyEnd(line, e)
    {
      e := e + 1;
    }
  }

  method SkipSpace(line: string, from: nat) returns (v: nat)
    requires from <= |line|
    ensures v == ValueStart(line, from)
  {
    v := from;
    while v < |line| && IsSpace(line[v])
      invariant from <= v <= |line| && ValueStart(line, from) == ValueStart(line, v)
    {
      v := v + 1;
    }
  }

  method LookUp(descs: seq<Desc>, name: string) returns (i: nat)
    ensures i == FindDesc(descs, name, 0)
  {
    i := 0;
    while i < |descs| && descs[i].name != name
      invariant 0 <= i <= |descs| && FindDesc(descs, name, 0) == FindDesc(descs, name, i)
    {
      i := i + 1;
    }
  }

  lemma PrintedNothing()
    ensures Printed([]) == ""
  {
  }

  lemma NoStringLines(name: string)
    ensures StringLines(name, []) == [] && Printed([]) == ""
  {
  }

  lemma OneLine(line: string)
    ensures Printed([line]) == line + "\n"
  {
    assert [line][1..] == [];
  }

  lemma StringLineNext(name: string, vs: seq<Value>, i: nat)
    requires i < |vs| && vs[i].Str?
    ensures StringLines(name, vs[..i + 1]) == StringLines(name, vs[..i]) + [name + " " + vs[i].s]
  {
    assert vs[..i + 1][..i] == vs[..i];
  }

  lemma {:induction false} PrintedAppend(a: seq<string>, b: seq<string>)
    ensures Printed(a + b) == Printed(a) + Printed(b)
    decreases |a|
  {
    if a == [] {
      assert a + b == b;
    } else {
      assert (a + b)[1..] == a[1..] + b;
      PrintedAppend(a[1..], b);
    }
  }

  /** The arguments not yet processed, in order. */
  function Remaining(args: seq<Option<string>>): seq<Option<string>> {
    if args == [] then [] else
    var n := |args| - 1;
    Remaining(args[..n]) + if args[n].Some? then [args[n]] else []
  }

  lemma {:induction false} RemainingAppend(a: seq<Option<string>>, b: seq<Option<string>>)
    ensures Remaining(a + b) == Remaining(a) + Remaining(b)
    decreases |b|
  {
    if b == [] {
      assert a + b == a;
    } else {
      var n := |b| - 1;
      assert (a + b)[..|a| + n] == a + b[..n];
      RemainingAppend(a, b[..n]);
    }
  }

  lemma {:induction false} NoneRemains(args: seq<Option<string>>)
    requires forall i | 0 <= i < |args| :: args[i].None?
    ensures Remaining(args) == []
    decreases |args|
  {
    if args != [] {
      NoneRemains(args[..|args| - 1]);
    }
  }

  lemma {:induction false} AllRemain(args: seq<Option<string>>)
    requires forall i | 0 <= i < |args| :: args[i].Some?
    ensures Remaining(args) == args
    decreases |args|
  {
    if args != [] {
      AllRemain(args[..|args| - 1]);
    }
  }

  /** Removes the processed (null) arguments in place, keeping the program name and the order of
      the others. */
  method CompactArgs(argv: array<Option<string>>, argc: nat) returns (left: nat)
    requires 1 <= argc <= argv.Length
    modifies argv
    ensures 1 <= left <= argc && argv[0] == old(argv[0])
    ensures argv[1..left] == Remaining(old(argv[1..argc]))
  {
    hide Remaining;
    left := argc;
    var i := 1;
    while i < left
      invariant 1 <= i && 1 <= left <= argc && argv[0] == old(argv[0])
      invariant Remaining(argv[1..left]) == Remaining(old(argv[1..argc]))
      invariant forall j | 1 <= j < i && j < left :: argv[j].Some?
      decreases argc - i
    {
      var k := i;
      while k < left && argv[k].None?
        invariant i <= k <= left && forall j | i <= j < k :: argv[j].None?
      {
        k := k + 1;
      }
      if k > i {
        ghost var next := argv[k..left];
        Squeeze(argv, i, k - i, left);
        left := left - (k - i);
        assert i < left ==> argv[i..left][0] == next[0];
      }
      i := i + 1;
    }
    AllRemain(argv[1..left]);
  }

  /** Moves the arguments behind a run of `n` nulls at `i` down over it. */
  method Squeeze(argv: array<Option<string>>, i: nat, n: nat, argc: nat)
    requires 1 <= i && i + n <= argc <= argv.Length
    requires forall j | i <= j < i + n :: argv[j].None?
    modifies argv
    ensures forall j | 0 <= j < i :: argv[j] == old(argv[j])
    ensures argv[i..argc - n] == old(argv[i + n..argc])
    ensures Remaining(argv[1..argc - n]) == Remaining(old(argv[1..argc]))
  {
    hide Remaining;
    ghost var before := argv[..];
    ShiftDown(argv, i, n, argc);
    ShiftedRemains(before, argv[..], i, n, argc);
  }

  lemma ShiftedRemains(before: seq<Option<string>>, after: seq<Option<string>>, i: nat, n: nat, argc: nat)
    requires 1 <= i && i + n <= argc <= |before| == |after|
    requires forall j | i <= j < i + n :: before[j].None?
    requires forall j | 0 <= j < i :: after[j] == before[j]
    requires forall j | i + n <= j < argc :: after[j - n] == before[j]
    ensures after[i..argc - n] == before[i + n..argc]
    ensures Remaining(after[1..argc - n]) == Remaining(before[1..argc])
  {
    hide Remaining;
    var a, nulls, b := before[1..i], before[i..i + n], before[i + n..argc];
    assert after[i..argc - n] == b by {
      forall j | 0 <= j < |b|
        ensures after[i..argc - n][j] == b[j]
      {
        assert after[(i + n + j) - n] == before[i + n + j];
      }
    }
    assert after[1..argc - n] == after[1..i] + after[i..argc - n];
    assert after[1..i] == a;
    assert before[1..argc] == a + nulls + b;
    SqueezedRemains(a, nulls, b);
  }

  method ShiftDown(argv: array<Option<string>>, i: nat, n: nat, argc: nat)
    requires i + n <= argc <= argv.Length
    modifies argv
    ensures forall j | 0 <= j < i :: argv[j] == old(argv[j])
    ensures forall j | i + n <= j < argc :: argv[j - n] == old(argv[j])
  {
    ghost var before := argv[..];
    for j := i + n to argc
      invariant forall x | i + n <= x < j :: argv[x - n] == before[x]
      invariant forall x | 0 <= x < i || j - n <= x < argv.Length :: argv[x] == before[x]
    {
      argv[j - n] := argv[j];
    }
  }

  lemma SqueezedRemains(a: seq<Option<string>>, nulls: seq<Option<string>>, b: seq<Option<string>>)
    requires forall i | 0 <= i < |nulls| :: nulls[i].None?
    ensures Remaining(a + nulls + b) == Remaining(a + b)
  {
    NoneRemains(nulls);
    RemainingAppend(a, nulls);
    RemainingAppend(a + nulls, b);
    RemainingAppend(a, b);
  }
}
