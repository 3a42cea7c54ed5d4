/** Preferences as a value: the item list, its text form, and loading that text back. */
module PrefsText {
  import opened Bytes

  datatype Kind = StringKind | BoolKind | IntKind

  datatype Value = Str(s: string) | Bool(b: bool) | Int(i: int)

  datatype Entry = Entry(name: string, value: Value)

  datatype Desc = Desc(name: string, kind: Kind, multiple: bool)

  function KindOf(v: Value): Kind {
    match v
    case Str(_) => StringKind
    case Bool(_) => BoolKind
    case Int(_) => IntKind
  }

  predicate Is(e: Entry, name: string, kind: Kind) {
    e.name == name && KindOf(e.value) == kind
  }

  /** All values of a keyword, in list order. */
  function Values(store: seq<Entry>, name: string, kind: Kind): (r: seq<Value>) {
    if store == [] then [] else
    var n := |store| - 1;
    Values(store[..n], name, kind) + if Is(store[n], name, kind) then [store[n].value] else []
  }

  /** Position of the `index`-th item of a keyword, counting from position `from`, or the length. */
  function Nth(store: seq<Entry>, name: string, kind: Kind, index: int, from: nat): (p: nat)
    requires from <= |store|
    ensures p <= |store|
    decreases |store| - from
  {
    if from == |store| then from
    else if !Is(store[from], name, kind) then Nth(store, name, kind, index, from + 1)
    else if index == 0 then from
    else Nth(store, name, kind, index - 1, from + 1)
  }

  function Replaced(store: seq<Entry>, name: string, v: Value): seq<Entry> {
    var p := Nth(store, name, KindOf(v), 0, 0);
    if p < |store| then store[p := Entry(name, v)] else store + [Entry(name, v)]
  }

  function FindString(store: seq<Entry>, name: string, index: nat): Option<string> {
    var vs := Values(store, name, StringKind);
    if index < |vs| && vs[index].Str? then Some(vs[index].s) else None
  }

  function FindBool(store: seq<Entry>, name: string): bool {
    var vs := Values(store, name, BoolKind);
    vs != [] && vs[0].Bool? && vs[0].b
  }

  function FindInt(store: seq<Entry>, name: string): int {
    var vs := Values(store, name, IntKind);
    if vs != [] && vs[0].Int? then vs[0].i else 0
  }

  /** Decimal numbers as `%d` prints them. */
  function Digits(n: nat): (s: string)
    ensures |s| >= 1
  {
    if n < 10 then [Digit(n)] else Digits(n / 10) + [Digit(n % 10)]
  }

  function Digit(d: nat): char
    requires d < 10
  {
    "0123456789"[d]
  }

  function Decimal(i: int): string {
    if i < 0 then "-" + Digits(-i) else Digits(i)
  }

  predicate IsDigit(c: char) {
    '0' <= c <= '9'
  }

  function DigitValue(c: char): nat
    requires IsDigit(c)
  {
    c as int - '0' as int
  }

  /** `atol`, from where the digits begin; stops at the first other character. */
  function Number(s: string, sofar: nat): nat
    decreases |s|
  {
    if s == "" || !IsDigit(s[0]) then sofar else Number(s[1..], 10 * sofar + DigitValue(s[0]))
  }

  function Atol(s: string): int {
    if s != "" && s[0] == '-' then -(Number(s[1..], 0) as int)
    else if s != "" && s[0] == '+' then Number(s[1..], 0)
    else Number(s, 0)
  }

  predicate IsSpace(c: char) {
    c == ' ' || ('\t' <= c <= '\r')
  }

  /** First whitespace at or after position `i`, or the length. */
  function KeyEnd(s: string, i: nat): (e: nat)
    requires i <= |s|
    ensures i <= e <= |s|
    decreases |s| - i
  {
    if i == |s| || IsSpace(s[i]) then i else KeyEnd(s, i + 1)
  }

  /** First non-whitespace at or after position `i`, or the length. */
  function ValueStart(s: string, i: nat): (e: nat)
    requires i <= |s|
    ensures i <= e <= |s|
    decreases |s| - i
  {
    if i == |s| || !IsSpace(s[i]) then i else ValueStart(s, i + 1)
  }

  /** First descriptor of that name, or the length. */
  function FindDesc(descs: seq<Desc>, name: string, from: nat): (i: nat)
    requires from <= |descs|
    ensures from <= i <= |descs|
    decreases |descs| - from
  {
    if from == |descs| || descs[from].name == name then from else FindDesc(descs, name, from + 1)
  }

  /** What one value for a described keyword does to the list. */
  function Stored(store: seq<Entry>, d: Desc, value: string): seq<Entry> {
    match d.kind
    case StringKind => if d.multiple then store + [Entry(d.name, Str(value))] else Replaced(store, d.name, Str(value))
    case BoolKind => Replaced(store, d.name, Bool(value == "true"))
    case IntKind => Replaced(store, d.name, Int(Signed32(Atol(value))))
  }

  /** One line of the file, its last character dropped. Comments, lines without whitespace and
      unknown keywords change nothing. */
  function Applied(store: seq<Entry>, descs: seq<Desc>, line: string): seq<Entry> {
    if line == "" || line[0] == '#' || line[0] == ';' || KeyEnd(line, 0) == |line| then store else
    var e := KeyEnd(line, 0);
    var i := FindDesc(descs, line[..e], 0);
    if i == |descs| then store else Stored(store, descs[i], line[ValueStart(line, e + 1)..])
  }

  /** How much of the text one `fgets` takes: a line with its newline, or as much as fits. */
  function LineLen(text: string, sofar: nat): (n: nat)
    requires sofar <= |text| && sofar <= 254
    ensures sofar <= n <= |text| && n <= 254
    ensures text != "" && sofar == 0 ==> n > 0
    decreases |text| - sofar
  {
    if sofar == |text| || sofar == 254 then sofar
    else if text[sofar] == '\n' then sofar + 1
    else LineLen(text, sofar + 1)
  }

  function Loaded(store: seq<Entry>, descs: seq<Desc>, text: string): seq<Entry>
    decreases |text|
  {
    if text == "" then store else
    var n := LineLen(text, 0);
    Loaded(Applied(store, descs, text[..n - 1]), descs, text[n..])
  }

  /** The lines printed for one descriptor. */
  function LinesOf(store: seq<Entry>, d: Desc): seq<string> {
    match d.kind
    case StringKind => StringLines(d.name, Values(store, d.name, StringKind))
    case BoolKind => [d.name + " " + (if FindBool(store, d.name) then "true" else "false")]
    case IntKind => [d.name + " " + Decimal(FindInt(store, d.name))]
  }

  function StringLines(name: string, vs: seq<Value>): seq<string> {
    if vs == [] then [] else
    var n := |vs| - 1;
    StringLines(name, vs[..n]) + [name + " " + if vs[n].Str? then vs[n].s else ""]
  }

  function Lines(store: seq<Entry>, descs: seq<Desc>): seq<string> {
    if descs == [] then [] else
    var n := |descs| - 1;
    Lines(store, descs[..n]) + LinesOf(store, descs[n])
  }

  function Printed(lines: seq<string>): string {
    if lines == [] then "" else lines[0] + "\n" + Printed(lines[1..])
  }

  /** The settings file. */
  function Saved(store: seq<Entry>, descs: seq<Desc>): string {
    Printed(Lines(store, descs))
  }

  // Numbers

  lemma {:induction false} NumberOfDigits(n: nat, rest: string)
    ensures Number(Digits(n) + rest, 0) == Number(rest, n)
    ensures IsDigit(Digits(n)[0])
  {
    DigitReads(n % 10, rest, n / 10);
    if n < 10 {
      DigitReads(n, rest, 0);
    } else {
      NumberOfDigits(n / 10, [Digit(n % 10)] + rest);
      assert Digits(n) + rest == Digits(n / 10) + ([Digit(n % 10)] + rest);
    }
  }

  lemma DigitReads(d: nat, rest: string, sofar: nat)
    requires d < 10
    ensures Number([Digit(d)] + rest, sofar) == Number(rest, 10 * sofar + d)
    ensures IsDigit(Digit(d))
  {
    assert ([Digit(d)] + rest)[1..] == rest;
  }

  /** What `%d` prints, `atol` reads back. */
  lemma AtolOfDecimal(i: int)
    ensures Atol(Decimal(i)) == i
    ensures Decimal(i) != "" && !IsSpace(Decimal(i)[0])
  {
    hide Digits, Number;
    var n: nat := if i < 0 then -i else i;
    NumberOfDigits(n, "");
    assert Digits(n) + "" == Digits(n);
    NumberEnds(n);
    if i < 0 {
      assert Decimal(i)[1..] == Digits(n);
    }
  }

  lemma NumberEnds(n: nat)
    ensures Number("", n) == n
  {
  }

  lemma {:induction false} DigitCount(n: nat, k: nat)
    requires n < 10000000000
    ensures n < Power(k) && k >= 1 ==> |Digits(n)| <= k
    decreases k
  {
    if k >= 2 && n >= 10 && n < Power(k) {
      DigitCount(n / 10, k - 1);
    }
  }

  function Power(k: nat): nat {
    if k == 0 then 1 else 10 * Power(k - 1)
  }

  lemma DecimalIsShort(i: int)
    requires IsInt32(i)
    ensures |Decimal(i)| <= 11
  {
    var n: nat := if i < 0 then -i else i;
    assert Power(10) == 10000000000 by {
      assert Power(5) == 100000;
    }
    DigitCount(n, 10);
  }

  lemma {:induction false} NoNewlineInDigits(n: nat)
    ensures '\n' !in Digits(n)
  {
    if n >= 10 {
      NoNewlineInDigits(n / 10);
    }
  }

  // Lines

  /** A keyword that can stand at the start of a line. */
  predicate IsKeyword(name: string) {
    && name != "" && |name| <= 241 && name[0] != '#' && name[0] != ';'
    && forall i | 0 <= i < |name| :: !IsSpace(name[i])
  }

  /** A value that survives on a line behind its keyword. */
  predicate Readable(name: string, value: string) {
    && '\n' !in value && |name| + 1 + |value| <= 253
    && (value == "" || !IsSpace(value[0]))
  }

  lemma {:induction false} KeyEndIs(name: string, rest: string, i: nat)
    requires i <= |name| && rest != "" && IsSpace(rest[0])
    requires forall j | 0 <= j < |name| :: !IsSpace(name[j])
    ensures KeyEnd(name + rest, i) == |name|
    decreases |name| - i
  {
    if i < |name| {
      KeyEndIs(name, rest, i + 1);
    }
  }

  /** A printed line is taken apart into its keyword and value. */
  lemma LineParses(store: seq<Entry>, descs: seq<Desc>, name: string, value: string)
    requires IsKeyword(name) && Readable(name, value)
    ensures var i := FindDesc(descs, name, 0);
      Applied(store, descs, name + " " + value) == if i == |descs| then store else Stored(store, descs[i], value)
  {
    hide Stored, FindDesc, KeyEnd;
    var line := name + " " + value;
    KeyEndIs(name, " " + value, 0);
    assert line == name + (" " + value);
    assert line[..|name|] == name && line[|name| + 1..] == value;
    assert value == "" || line[|name| + 1] == value[0];
  }

  lemma {:induction false} LineLenIs(line: string, rest: string, i: nat)
    requires '\n' !in line && |line| <= 253 && i <= |line|
    ensures LineLen(line + "\n" + rest, i) == |line| + 1
    decreases |line| - i
  {
    var text := line + "\n" + rest;
    if i < |line| {
      assert text[i] == line[i];
      LineLenIs(line, rest, i + 1);
    } else {
      assert text[i] == '\n';
    }
  }

  function Folded(store: seq<Entry>, descs: seq<Desc>, lines: seq<string>): seq<Entry> {
    if lines == [] then store else
    var n := |lines| - 1;
    Applied(Folded(store, descs, lines[..n]), descs, lines[n])
  }

  predicate GoodLine(line: string) {
    '\n' !in line && |line| <= 253
  }

  lemma {:induction false} FoldedFront(store: seq<Entry>, descs: seq<Desc>, lines: seq<string>)
    requires lines != []
    ensures Folded(store, descs, lines) == Folded(Applied(store, descs, lines[0]), descs, lines[1..])
    decreases |lines|
  {
    hide Applied;
    var n := |lines| - 1;
    if n > 0 {
      FoldedFront(store, descs, lines[..n]);
      assert lines[..n][1..] == lines[1..][..n - 1];
    }
  }

  /** Reading printed lines is applying them one after the other. */
  lemma {:induction false} LoadedPrinted(store: seq<Entry>, descs: seq<Desc>, lines: seq<string>)
    requires forall i | 0 <= i < |lines| :: GoodLine(lines[i])
    ensures Loaded(store, descs, Printed(lines)) == Folded(store, descs, lines)
    decreases |lines|
  {
    hide Applied;
    if lines != [] {
      var rest := Printed(lines[1..]);
      var text := lines[0] + "\n" + rest;
      LineLenIs(lines[0], rest, 0);
      assert text[..|lines[0]|] == lines[0] && text[|lines[0]| + 1..] == rest;
      FoldedFront(store, descs, lines);
      LoadedPrinted(Applied(store, descs, lines[0]), descs, lines[1..]);
    }
  }

  // Items

  lemma {:induction false} NthFindsFirst(store: seq<Entry>, name: string, kind: Kind, from: nat)
    requires from <= |store|
    ensures var p := Nth(store, name, kind, 0, from);
      && from <= p && (p < |store| ==> Is(store[p], name, kind))
      && forall j | from <= j < p :: !Is(store[j], name, kind)
    decreases |store| - from
  {
    if from < |store| && !Is(store[from], name, kind) {
      NthFindsFirst(store, name, kind, from + 1);
    }
  }

  lemma {:induction false} NoValues(store: seq<Entry>, name: string, kind: Kind)
    ensures Values(store, name, kind) == [] <==> forall j | 0 <= j < |store| :: !Is(store[j], name, kind)
    decreases |store|
  {
    if store != [] {
      NoValues(store[..|store| - 1], name, kind);
    }
  }

  lemma FirstOfNone(store: seq<Entry>, name: string, v: Value)
    requires Values(store, name, KindOf(v)) == []
    ensures Replaced(store, name, v) == store + [Entry(name, v)]
  {
    NthFindsFirst(store, name, KindOf(v), 0);
    NoValues(store, name, KindOf(v));
  }

  lemma {:induction false} ValuesAppend(a: seq<Entry>, b: seq<Entry>, name: string, kind: Kind)
    ensures Values(a + b, name, kind) == Values(a, name, kind) + Values(b, name, kind)
    decreases |b|
  {
    if b == [] {
      assert a + b == a;
    } else {
      var n := |b| - 1;
      assert (a + b)[..|a| + n] == a + b[..n];
      ValuesAppend(a, b[..n], name, kind);
    }
  }

  predicate DescsOk(descs: seq<Desc>) {
    && (forall i | 0 <= i < |descs| :: IsKeyword(descs[i].name))
    && (forall i, j | 0 <= i < j < |descs| :: descs[i].name != descs[j].name)
  }

  /** The values of a store fit their C types. */
  predicate Typed(store: seq<Entry>) {
    forall i | 0 <= i < |store| :: store[i].value.Int? ==> IsInt32(store[i].value.i)
  }

  /** What saving and loading preserves of a keyword: readable strings, and no more than one for a
      keyword that holds a single value. */
  predicate Saveable(store: seq<Entry>, d: Desc) {
    d.kind.StringKind? ==>
      var vs := Values(store, d.name, StringKind);
      && (d.multiple || |vs| <= 1)
      && forall i | 0 <= i < |vs| :: vs[i].Str? && Readable(d.name, vs[i].s)
  }

  /** The items that come back for one descriptor. */
  function ItemsOf(store: seq<Entry>, d: Desc): seq<Entry> {
    match d.kind
    case StringKind => Renamed(d.name, Values(store, d.name, StringKind))
    case BoolKind => [Entry(d.name, Bool(FindBool(store, d.name)))]
    case IntKind => [Entry(d.name, Int(FindInt(store, d.name)))]
  }

  function Renamed(name: string, vs: seq<Value>): (r: seq<Entry>)
    ensures |r| == |vs|
  {
    seq(|vs|, i requires 0 <= i < |vs| => Entry(name, vs[i]))
  }

  function Items(store: seq<Entry>, descs: seq<Desc>): seq<Entry> {
    if descs == [] then [] else
    var n := |descs| - 1;
    Items(store, descs[..n]) + ItemsOf(store, descs[n])
  }

  lemma {:induction false} FindDescIs(descs: seq<Desc>, i: nat, from: nat)
    requires DescsOk(descs) && from <= i < |descs|
    ensures FindDesc(descs, descs[i].name, from) == i
    decreases i - from
  {
    if from < i {
      FindDescIs(descs, i, from + 1);
    }
  }

  lemma StoredAppends(store: seq<Entry>, d: Desc, value: string)
    requires Values(store, d.name, d.kind) == [] || (d.kind.StringKind? && d.multiple)
    ensures Stored(store, d, value) == store + [Entry(d.name,
      match d.kind
      case StringKind => Str(value)
      case BoolKind => Bool(value == "true")
      case IntKind => Int(Signed32(Atol(value))))]
  {
    hide Replaced, Nth, Atol, Signed32;
    if Values(store, d.name, d.kind) == [] {
      FirstOfNone(store, d.name,
        match d.kind
        case StringKind => Str(value)
        case BoolKind => Bool(value == "true")
        case IntKind => Int(Signed32(Atol(value))));
    }
  }

  lemma StringLineLoads(now: seq<Entry>, descs: seq<Desc>, i: nat, value: string)
    requires DescsOk(descs) && i < |descs| && descs[i].kind.StringKind? && Readable(descs[i].name, value)
    requires Values(now, descs[i].name, StringKind) == [] || descs[i].multiple
    ensures Applied(now, descs, descs[i].name + " " + value) == now + [Entry(descs[i].name, Str(value))]
  {
    hide Applied, Stored, Readable, IsKeyword, FindDesc, Values;
    LineParses(now, descs, descs[i].name, value);
    FindDescIs(descs, i, 0);
    StoredAppends(now, descs[i], value);
  }

  lemma RenamedSnoc(name: string, vs: seq<Value>)
    requires vs != []
    ensures Renamed(name, vs) == Renamed(name, vs[..|vs| - 1]) + [Entry(name, vs[|vs| - 1])]
  {
  }

  lemma StringLinesSnoc(store: seq<Entry>, descs: seq<Desc>, name: string, vs: seq<Value>)
    requires vs != [] && vs[|vs| - 1].Str?
    ensures Folded(store, descs, StringLines(name, vs))
         == Applied(Folded(store, descs, StringLines(name, vs[..|vs| - 1])), descs, name + " " + vs[|vs| - 1].s)
  {
    hide Applied;
    var front := StringLines(name, vs[..|vs| - 1]);
    assert (front + [name + " " + vs[|vs| - 1].s])[..|front|] == front;
  }

  /** Loading the string lines of a keyword not in the list yet appends its values in order. */
  lemma {:induction false} StringLinesLoad(store: seq<Entry>, descs: seq<Desc>, i: nat, vs: seq<Value>)
    requires DescsOk(descs) && i < |descs| && descs[i].kind.StringKind?
    requires Values(store, descs[i].name, StringKind) == [] && (descs[i].multiple || |vs| <= 1)
    requires forall k | 0 <= k < |vs| :: vs[k].Str? && Readable(descs[i].name, vs[k].s)
    ensures Folded(store, descs, StringLines(descs[i].name, vs)) == store + Renamed(descs[i].name, vs)
    decreases |vs|
  {
    hide Applied, Readable, IsKeyword, Values, Folded, StringLines, Renamed, DescsOk;
    var d := descs[i];
    if vs == [] {
      NoLines(store, descs, d.name);
    } else {
      var n := |vs| - 1;
      StringLinesLoad(store, descs, i, vs[..n]);
      StringLinesSnoc(store, descs, d.name, vs);
      RenamedSnoc(d.name, vs);
      if n == 0 {
        NoLines(store, descs, d.name);
        assert vs[..n] == [];
      }
      StringLineLoads(store + Renamed(d.name, vs[..n]), descs, i, vs[n].s);
    }
  }

  lemma NoLines(store: seq<Entry>, descs: seq<Desc>, name: string)
    ensures Folded(store, descs, StringLines(name, [])) == store && store + Renamed(name, []) == store
  {
  }

  lemma {:induction false} StringLineCount(name: string, vs: seq<Value>)
    ensures |StringLines(name, vs)| == |vs|
    ensures forall i | 0 <= i < |vs| :: StringLines(name, vs)[i] == name + " " + if vs[i].Str? then vs[i].s else ""
    decreases |vs|
  {
    if vs != [] {
      StringLineCount(name, vs[..|vs| - 1]);
    }
  }

  lemma SingleLine(store: seq<Entry>, descs: seq<Desc>, line: string)
    ensures Folded(store, descs, [line]) == Applied(store, descs, line)
  {
    hide Applied;
    assert [line][..0] == [];
  }

  lemma NumberLoads(store: seq<Entry>, descs: seq<Desc>, i: nat, x: int)
    requires DescsOk(descs) && i < |descs| && descs[i].kind.IntKind? && IsInt32(x)
    requires Values(store, descs[i].name, IntKind) == []
    ensures Folded(store, descs, [descs[i].name + " " + Decimal(x)]) == store + [Entry(descs[i].name, Int(x))]
    ensures Readable(descs[i].name, Decimal(x))
  {
    hide Applied, Stored, FindDesc, Values, Decimal, Atol;
    var d := descs[i];
    SingleLine(store, descs, d.name + " " + Decimal(x));
    AtolOfDecimal(x);
    DecimalIsShort(x);
    DecimalHasNoNewline(x);
    LineParses(store, descs, d.name, Decimal(x));
    FindDescIs(descs, i, 0);
    StoredAppends(store, d, Decimal(x));
  }

  lemma DecimalHasNoNewline(x: int)
    ensures '\n' !in Decimal(x)
  {
    hide Digits;
    NoNewlineInDigits(if x < 0 then -x else x);
  }

  lemma BoolLoads(store: seq<Entry>, descs: seq<Desc>, i: nat, b: bool)
    requires DescsOk(descs) && i < |descs| && descs[i].kind.BoolKind?
    requires Values(store, descs[i].name, BoolKind) == []
    ensures Folded(store, descs, [descs[i].name + " " + if b then "true" else "false"])
         == store + [Entry(descs[i].name, Bool(b))]
    ensures Readable(descs[i].name, if b then "true" else "false")
  {
    hide Applied, Stored, FindDesc, Values;
    var d := descs[i];
    var text := if b then "true" else "false";
    SingleLine(store, descs, d.name + " " + text);
    assert Readable(d.name, text);
    LineParses(store, descs, d.name, text);
    FindDescIs(descs, i, 0);
    StoredAppends(store, d, text);
  }

  lemma {:induction false} ValueKinds(store: seq<Entry>, name: string, kind: Kind)
    ensures forall i | 0 <= i < |Values(store, name, kind)| :: KindOf(Values(store, name, kind)[i]) == kind
    ensures Typed(store) ==> forall i | 0 <= i < |Values(store, name, kind)| ::
      var v := Values(store, name, kind)[i]; v.Int? ==> IsInt32(v.i)
    decreases |store|
  {
    if store != [] {
      ValueKinds(store[..|store| - 1], name, kind);
    }
  }

  /** One descriptor's lines bring back its items. */
  lemma LinesOfLoad(store: seq<Entry>, now: seq<Entry>, descs: seq<Desc>, i: nat)
    requires DescsOk(descs) && i < |descs| && Typed(store) && Saveable(store, descs[i])
    requires Values(now, descs[i].name, descs[i].kind) == []
    ensures Folded(now, descs, LinesOf(store, descs[i])) == now + ItemsOf(store, descs[i])
    ensures forall k | 0 <= k < |LinesOf(store, descs[i])| :: GoodLine(LinesOf(store, descs[i])[k])
  {
    hide Values, Folded, Decimal, Readable, IsKeyword, StringLines;
    var d := descs[i];
    ValueKinds(store, d.name, d.kind);
    match d.kind
    case StringKind =>
      var vs := Values(store, d.name, StringKind);
      StringLinesLoad(now, descs, i, vs);
      StringLineCount(d.name, vs);
      forall k | 0 <= k < |vs|
        ensures GoodLine(StringLines(d.name, vs)[k])
      {
        ReadableLine(d.name, vs[k].s);
      }
    case BoolKind =>
      BoolLoads(now, descs, i, FindBool(store, d.name));
      ReadableLine(d.name, if FindBool(store, d.name) then "true" else "false");
    case IntKind =>
      NumberLoads(now, descs, i, FindInt(store, d.name));
      ReadableLine(d.name, Decimal(FindInt(store, d.name)));
  }

  lemma ReadableLine(name: string, value: string)
    requires IsKeyword(name) && Readable(name, value)
    ensures GoodLine(name + " " + value)
  {
    assert forall i | 0 <= i < |name| :: name[i] != '\n';
  }

  lemma {:induction false} FoldedAppend(store: seq<Entry>, descs: seq<Desc>, a: seq<string>, b: seq<string>)
    ensures Folded(store, descs, a + b) == Folded(Folded(store, descs, a), descs, b)
    decreases |b|
  {
    hide Applied;
    if b == [] {
      assert a + b == a;
    } else {
      var n := |b| - 1;
      assert (a + b)[..|a| + n] == a + b[..n];
      FoldedAppend(store, descs, a, b[..n]);
    }
  }

  lemma {:induction false} RenamedValues(name: string, vs: seq<Value>, other: string, kind: Kind)
    requires forall k | 0 <= k < |vs| :: vs[k].Str?
    ensures Values(Renamed(name, vs), other, kind) == if name == other && kind.StringKind? then vs else []
    decreases |vs|
  {
    if vs != [] {
      var n := |vs| - 1;
      RenamedSnoc(name, vs);
      assert Renamed(name, vs)[..n] == Renamed(name, vs[..n]);
      RenamedValues(name, vs[..n], other, kind);
    }
  }

  lemma StringsOnly(store: seq<Entry>, name: string)
    ensures forall k | 0 <= k < |Values(store, name, StringKind)| :: Values(store, name, StringKind)[k].Str?
  {
    ValueKinds(store, name, StringKind);
  }

  lemma OneValue(e: Entry, name: string, kind: Kind)
    ensures Values([e], name, kind) == if Is(e, name, kind) then [e.value] else []
  {
    assert [e][..0] == [];
  }

  /** One descriptor's items hold values of its keyword and kind only. */
  lemma ItemsOfValues(store: seq<Entry>, d: Desc, name: string, kind: Kind)
    ensures name != d.name || kind != d.kind ==> Values(ItemsOf(store, d), name, kind) == []
    ensures Values(ItemsOf(store, d), d.name, d.kind) ==
      match d.kind
      case StringKind => Values(store, d.name, StringKind)
      case BoolKind => [Bool(FindBool(store, d.name))]
      case IntKind => [Int(FindInt(store, d.name))]
  {
    hide Values, FindBool, FindInt, Renamed;
    StringsOnly(store, d.name);
    match d.kind
    case StringKind =>
      RenamedValues(d.name, Values(store, d.name, StringKind), name, kind);
      RenamedValues(d.name, Values(store, d.name, StringKind), d.name, d.kind);
    case BoolKind =>
      OneValue(Entry(d.name, Bool(FindBool(store, d.name))), name, kind);
      OneValue(Entry(d.name, Bool(FindBool(store, d.name))), d.name, d.kind);
    case IntKind =>
      OneValue(Entry(d.name, Int(FindInt(store, d.name))), name, kind);
      OneValue(Entry(d.name, Int(FindInt(store, d.name))), d.name, d.kind);
  }

  lemma {:induction false} ItemsValues(store: seq<Entry>, descs: seq<Desc>, n: nat, i: nat)
    requires DescsOk(descs) && n <= |descs| && i < |descs|
    ensures Values(Items(store, descs[..n]), descs[i].name, descs[i].kind)
         == if i < n then Values(ItemsOf(store, descs[i]), descs[i].name, descs[i].kind) else []
    decreases n
  {
    hide ItemsOf, IsKeyword, Values;
    if n == 0 {
      NoItems(store, descs[i].name, descs[i].kind);
    } else {
      assert descs[..n][..n - 1] == descs[..n - 1];
      ItemsValues(store, descs, n - 1, i);
      ValuesAppend(Items(store, descs[..n - 1]), ItemsOf(store, descs[n - 1]), descs[i].name, descs[i].kind);
      if i != n - 1 {
        ItemsOfValues(store, descs[n - 1], descs[i].name, descs[i].kind);
      }
    }
  }

  lemma NoItems(store: seq<Entry>, name: string, kind: Kind)
    ensures Items(store, []) == [] && Values([], name, kind) == []
  {
  }

  /** Loading the lines of the first `n` descriptors into an empty list gives their items. */
  lemma {:induction false} LinesLoad(store: seq<Entry>, descs: seq<Desc>, n: nat)
    requires DescsOk(descs) && n <= |descs| && Typed(store)
    requires forall i | 0 <= i < |descs| :: Saveable(store, descs[i])
    ensures Folded([], descs, Lines(store, descs[..n])) == Items(store, descs[..n])
    ensures forall k | 0 <= k < |Lines(store, descs[..n])| :: GoodLine(Lines(store, descs[..n])[k])
    decreases n
  {
    hide LinesOf, ItemsOf, Saveable, Typed, DescsOk, GoodLine, Values;
    if n > 0 {
      assert descs[..n][..n - 1] == descs[..n - 1];
      LinesLoad(store, descs, n - 1);
      var front := Lines(store, descs[..n - 1]);
      FoldedAppend([], descs, front, LinesOf(store, descs[n - 1]));
      ItemsValues(store, descs, n - 1, n - 1);
      LinesOfLoad(store, Items(store, descs[..n - 1]), descs, n - 1);
    }
  }

  /** Every question about a keyword gets the same answer. */
  ghost predicate SameAnswers(a: seq<Entry>, b: seq<Entry>, d: Desc) {
    match d.kind
    case StringKind => forall index: nat :: FindString(a, d.name, index) == FindString(b, d.name, index)
    case BoolKind => FindBool(a, d.name) == FindBool(b, d.name)
    case IntKind => FindInt(a, d.name) == FindInt(b, d.name)
  }

  /** Saving and then loading into an empty list answers every question as before. */
  lemma {:induction false} SaveThenLoad(store: seq<Entry>, descs: seq<Desc>)
    requires DescsOk(descs) && Typed(store) && forall i | 0 <= i < |descs| :: Saveable(store, descs[i])
    ensures forall i | 0 <= i < |descs| :: SameAnswers(Loaded([], descs, Saved(store, descs)), store, descs[i])
  {
    hide DescsOk, Typed, Saveable, GoodLine, Lines, Folded, Items, Printed, Loaded;
    LinesLoad(store, descs, |descs|);
    assert descs[..|descs|] == descs;
    LoadedPrinted([], descs, Lines(store, descs));
    forall i | 0 <= i < |descs|
      ensures SameAnswers(Items(store, descs), store, descs[i])
    {
      ItemsValues(store, descs, |descs|, i);
      ItemsAnswer(store, Items(store, descs), descs[i]);
    }
  }

  lemma ItemsAnswer(store: seq<Entry>, items: seq<Entry>, d: Desc)
    requires Values(items, d.name, d.kind) == Values(ItemsOf(store, d), d.name, d.kind)
    ensures SameAnswers(items, store, d)
  {
    hide Values, ItemsOf;
    ItemsOfValues(store, d, d.name, d.kind);
  }

  // What any file can bring in

  /** Every keyword's items are such as a file can hold. */
  ghost predicate FromFile(store: seq<Entry>, descs: seq<Desc>) {
    forall i | 0 <= i < |descs| :: Saveable(store, descs[i])
  }

  lemma {:induction false} KeyEndStops(s: string, i: nat)
    requires i <= |s|
    ensures KeyEnd(s, i) < |s| ==> IsSpace(s[KeyEnd(s, i)])
    decreases |s| - i
  {
    if i < |s| && !IsSpace(s[i]) {
      KeyEndStops(s, i + 1);
    }
  }

  lemma {:induction false} ValueStarts(s: string, i: nat)
    requires i <= |s|
    ensures ValueStart(s, i) < |s| ==> !IsSpace(s[ValueStart(s, i)])
    decreases |s| - i
  {
    if i < |s| && IsSpace(s[i]) {
      ValueStarts(s, i + 1);
    }
  }

  lemma {:induction false} FoundDesc(descs: seq<Desc>, name: string, from: nat)
    requires from <= |descs|
    ensures var i := FindDesc(descs, name, from); i < |descs| ==> descs[i].name == name
    decreases |descs| - from
  {
    if from < |descs| && descs[from].name != name {
      FoundDesc(descs, name, from + 1);
    }
  }

  /** Replacing an item: the first value of that keyword and kind changes, or one is added. */
  lemma ReplacedValues(store: seq<Entry>, name: string, v: Value, other: string, kind: Kind)
    ensures var vs, after := Values(store, other, kind), Values(Replaced(store, name, v), other, kind);
      if other == name && kind == KindOf(v) then after == if vs == [] then [v] else [v] + vs[1..]
      else after == vs
  {
    hide Values, Nth;
    NthFindsFirst(store, name, KindOf(v), 0);
    var p := Nth(store, name, KindOf(v), 0, 0);
    OneValue(Entry(name, v), other, kind);
    if p < |store| {
      assert store == store[..p] + [store[p]] + store[p + 1..];
      assert store[p := Entry(name, v)] == store[..p] + [Entry(name, v)] + store[p + 1..];
      SplitValues(store[..p], store[p], store[p + 1..], other, kind);
      SplitValues(store[..p], Entry(name, v), store[p + 1..], other, kind);
      NoValues(store[..p], name, KindOf(v));
      OneValue(store[p], other, kind);
    } else {
      NoValues(store, name, KindOf(v));
      ValuesAppend(store, [Entry(name, v)], other, kind);
    }
  }

  lemma SplitValues(a: seq<Entry>, e: Entry, b: seq<Entry>, name: string, kind: Kind)
    ensures Values(a + [e] + b, name, kind) == Values(a, name, kind) + Values([e], name, kind) + Values(b, name, kind)
  {
    ValuesAppend(a + [e], b, name, kind);
    ValuesAppend(a, [e], name, kind);
  }

  lemma StoredKeepsOne(store: seq<Entry>, d: Desc, value: string, other: Desc)
    requires Saveable(store, other) && (d.kind.StringKind? ==> Readable(d.name, value))
    requires d.name == other.name ==> d == other
    ensures Saveable(Stored(store, d, value), other)
  {
    hide Values, Replaced, Readable, Atol, Signed32;
    match d.kind
    case StringKind =>
      ReplacedValues(store, d.name, Str(value), other.name, StringKind);
      ValuesAppend(store, [Entry(d.name, Str(value))], other.name, StringKind);
      OneValue(Entry(d.name, Str(value)), other.name, StringKind);
    case BoolKind =>
      ReplacedValues(store, d.name, Bool(value == "true"), other.name, StringKind);
    case IntKind =>
      ReplacedValues(store, d.name, Int(Signed32(Atol(value))), other.name, StringKind);
  }

  lemma AppliedKeeps(store: seq<Entry>, descs: seq<Desc>, line: string)
    requires DescsOk(descs) && FromFile(store, descs) && GoodLine(line)
    ensures FromFile(Applied(store, descs, line), descs)
  {
    hide Stored, Saveable, IsKeyword, KeyEnd, ValueStart, FindDesc;
    if line != "" && KeyEnd(line, 0) < |line| {
      var e := KeyEnd(line, 0);
      var i := FindDesc(descs, line[..e], 0);
      if i < |descs| {
        FoundDesc(descs, line[..e], 0);
        var value := line[ValueStart(line, e + 1)..];
        ValueStarts(line, e + 1);
        assert Readable(descs[i].name, value);
        forall j | 0 <= j < |descs|
          ensures Saveable(Stored(store, descs[i], value), descs[j])
        {
          StoredKeepsOne(store, descs[i], value, descs[j]);
        }
      }
    }
  }

  lemma {:induction false} LineHasNoNewline(text: string, i: nat)
    requires i <= |text| && i <= 254
    ensures forall j | i <= j < LineLen(text, i) - 1 :: text[j] != '\n'
    decreases |text| - i
  {
    if i < |text| && i < 254 && text[i] != '\n' {
      LineHasNoNewline(text, i + 1);
    }
  }

  /** Whatever the file holds, loading it leaves only items that saving could have written. */
  lemma {:induction false} LoadedFromFile(store: seq<Entry>, descs: seq<Desc>, text: string)
    requires DescsOk(descs) && FromFile(store, descs)
    ensures FromFile(Loaded(store, descs, text), descs)
    decreases |text|
  {
    hide Applied, FromFile, DescsOk;
    if text != "" {
      var n := LineLen(text, 0);
      LineHasNoNewline(text, 0);
      AppliedKeeps(store, descs, text[..n - 1]);
      LoadedFromFile(Applied(store, descs, text[..n - 1]), descs, text[n..]);
    }
  }

  lemma AnswersDecide(a: seq<Entry>, b: seq<Entry>, d: Desc)
    requires SameAnswers(a, b, d) && Saveable(a, d)
    ensures Saveable(b, d)
  {
    hide Values;
    if d.kind.StringKind? {
      var vs, ws := Values(a, d.name, StringKind), Values(b, d.name, StringKind);
      StringsOnly(a, d.name);
      StringsOnly(b, d.name);
      forall i | 0 <= i < |ws|
        ensures i < |vs| && vs[i] == ws[i]
      {
        assert FindString(a, d.name, i) == FindString(b, d.name, i);
      }
      assert |ws| >= 2 ==> ws[1].Str? && 1 < |vs|;
    }
  }

  /** Saving and loading is observationally the identity exactly when every keyword's strings are
      readable and single-valued keywords hold at most one. */
  lemma {:induction false} RoundTripExactly(store: seq<Entry>, descs: seq<Desc>)
    requires DescsOk(descs) && Typed(store)
    ensures (forall i | 0 <= i < |descs| :: SameAnswers(Loaded([], descs, Saved(store, descs)), store, descs[i]))
       <==> (forall i | 0 <= i < |descs| :: Saveable(store, descs[i]))
  {
    hide SameAnswers, Saveable, Loaded, Saved, DescsOk, Typed;
    var loaded := Loaded([], descs, Saved(store, descs));
    EmptyFromFile(descs);
    LoadedFromFile([], descs, Saved(store, descs));
    if forall i | 0 <= i < |descs| :: SameAnswers(loaded, store, descs[i]) {
      forall i | 0 <= i < |descs|
        ensures Saveable(store, descs[i])
      {
        AnswersDecide(loaded, store, descs[i]);
      }
    }
    if forall i | 0 <= i < |descs| :: Saveable(store, descs[i]) {
      SaveThenLoad(store, descs);
    }
  }

  lemma EmptyFromFile(descs: seq<Desc>)
    ensures FromFile([], descs)
  {
  }

  // ---------- what a line means ----------

  /** Lines that begin with a hash sign or a semicolon change nothing. */
  lemma CommentsSkipped(store: seq<Entry>, descs: seq<Desc>, comment: string)
    ensures Applied(store, descs, "#" + comment) == store && Applied(store, descs, ";" + comment) == store
  {
    hide KeyEnd, FindDesc, Stored;
  }

  /** A line of a keyword and a value decides the answer about that keyword, a boolean one being true
      for "true" only, and leaves the answers about all others alone. */
  lemma LineAnswers(store: seq<Entry>, descs: seq<Desc>, i: nat, value: string)
    requires DescsOk(descs) && i < |descs| && Readable(descs[i].name, value)
    ensures var d, after := descs[i], Applied(store, descs, descs[i].name + " " + value);
      match d.kind
      case BoolKind => FindBool(after, d.name) <==> value == "true"
      case IntKind => FindInt(after, d.name) == Signed32(Atol(value))
      case StringKind =>
        Values(after, d.name, StringKind) ==
          var vs := Values(store, d.name, StringKind);
          if d.multiple then vs + [Str(value)] else if vs == [] then [Str(value)] else [Str(value)] + vs[1..]
    ensures forall other, kind | other != descs[i].name ::
      Values(Applied(store, descs, descs[i].name + " " + value), other, kind) == Values(store, other, kind)
  {
    hide Values, Applied, Replaced, FindDesc, Readable, IsKeyword, Atol, Signed32;
    var d := descs[i];
    assert IsKeyword(d.name);
    LineParses(store, descs, d.name, value);
    FindDescIs(descs, i, 0);
    StoredAnswers(store, d, value, d.name, d.kind);
    forall other, kind | other != d.name
      ensures Values(Applied(store, descs, d.name + " " + value), other, kind) == Values(store, other, kind)
    {
      StoredAnswers(store, d, value, other, kind);
    }
  }

  lemma StoredAnswers(store: seq<Entry>, d: Desc, value: string, other: string, kind: Kind)
    ensures var vs, after := Values(store, other, kind), Values(Stored(store, d, value), other, kind);
      var v := match d.kind
               case StringKind => Str(value)
               case BoolKind => Bool(value == "true")
               case IntKind => Int(Signed32(Atol(value)));
      after == if other != d.name || kind != d.kind then vs
               else if d.kind.StringKind? && d.multiple then vs + [v]
               else if vs == [] then [v] else [v] + vs[1..]
  {
    hide Values, Replaced, Atol, Signed32;
    var v := match d.kind
             case StringKind => Str(value)
             case BoolKind => Bool(value == "true")
             case IntKind => Int(Signed32(Atol(value)));
    if d.kind.StringKind? && d.multiple {
      ValuesAppend(store, [Entry(d.name, v)], other, kind);
      OneValue(Entry(d.name, v), other, kind);
    } else {
      ReplacedValues(store, d.name, v, other, kind);
    }
  }
}
