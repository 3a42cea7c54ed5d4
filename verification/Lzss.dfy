/** The LZSS decoder for compressed ROM images (`decode_lzss`).

    The decoder works on a ring dictionary of 4096 cells.  Its specification does not mention
    a ring: a stream of bytes parses into tokens, and a match token copies from a distance in
    the output written so far.  The ring is shown to be a faithful window on that output. */
module Lzss {
  import opened Bytes

  const RING := 0x1000

  type Dictionary = d: seq<Byte> | |d| == RING witness seq(RING, _ => 0)

  // ---------- the specification: tokens and copying from the history ----------

  datatype Token = Literal(value: Byte) | Match(start: nat, count: nat) {
    predicate Valid() {
      Match? ==> start < RING && 3 <= count <= 18
    }
  }

  /** The ring cell that holds output byte `k`, once that byte is written. */
  function Slot(k: int): (j: nat)
    ensures j < RING
  {
    (0xfee + k) % 0x1000
  }

  lemma SlotNext(k: int)
    ensures Slot(k + 1) == (Slot(k) + 1) % 0x1000
  {
  }

  /** How far back in the output the ring cell `start` lies once `n` bytes are written. */
  function Distance(n: nat, start: nat): (d: nat)
    ensures 1 <= d <= RING
    ensures start < RING ==> Slot(n - d) == start
  {
    (0xfee + n - start - 1) % 0x1000 + 1
  }

  /** The byte `d` positions back; positions before the first output byte show the initial dictionary. */
  function Back(init: Dictionary, out: seq<Byte>, d: nat): Byte
    requires 1 <= d <= RING
  {
    if d <= |out| then out[|out| - d] else init[Slot(|out| - d)]
  }

  function CopyBack(init: Dictionary, out: seq<Byte>, d: nat, count: nat): (r: seq<Byte>)
    requires 1 <= d <= RING
    ensures |r| == |out| + count
    decreases count
  {
    if count == 0 then out else CopyBack(init, out + [Back(init, out, d)], d, count - 1)
  }

  function Apply(init: Dictionary, token: Token, out: seq<Byte>): (r: seq<Byte>) {
    match token
    case Literal(c) => out + [c]
    case Match(start, count) => CopyBack(init, out, Distance(|out|, start), count)
  }

  function Expand(init: Dictionary, tokens: seq<Token>, out: seq<Byte>): (r: seq<Byte>)
    ensures |out| <= |r|
    decreases |tokens|
  {
    if tokens == [] then out else Expand(init, tokens[1..], Apply(init, tokens[0], out))
  }

  /** The low `n` bits of `b`, least significant first. */
  function Bits(b: nat, n: nat): (bits: seq<bool>)
    ensures |bits| == n
  {
    if n == 0 then [] else [LowBit(b)] + Bits(ShiftRight(b), n - 1)
  }

  /** Tokens of `src`, given the flag bits still pending from the last flag byte.  A token cut
      short by the end of the input is dropped. */
  function Parse(src: seq<Byte>, flags: seq<bool>): (tokens: seq<Token>)
    decreases |src|, |flags|
  {
    if flags == [] then
      if src == [] then [] else Parse(src[1..], Bits(src[0], 8))
    else if flags[0] then
      if src == [] then [] else [Literal(src[0])] + Parse(src[1..], flags[1..])
    else
      if |src| < 2 then [] else
      [Match(MatchStart(src[0], src[1]), MatchCount(src[1]))] + Parse(src[2..], flags[1..])
  }

  /** Twelve bits of ring index: the low byte and the high nibble of the second byte. */
  function MatchStart(low: Byte, high: Byte): (idx: nat)
    ensures idx < RING
  {
    low as int + high as int / 16 * 256
  }

  function MatchCount(high: Byte): (cnt: nat)
    ensures 3 <= cnt <= 18
  {
    high as int % 16 + 3
  }

  /** What a complete decoding of `src` writes. */
  function Decoded(init: Dictionary, src: seq<Byte>): seq<Byte> {
    Expand(init, Parse(src, []), [])
  }

  // ---------- the ring dictionary ----------

  /** The ring after the bytes of `out` have been stored one after the other. */
  function Ring(init: Dictionary, out: seq<Byte>): Dictionary
    decreases |out|
  {
    if out == [] then init else
    var n := |out| - 1;
    Ring(init, out[..n])[Slot(n) := out[n]]
  }

  lemma RingStores(init: Dictionary, out: seq<Byte>, c: Byte)
    ensures Ring(init, out + [c]) == Ring(init, out)[Slot(|out|) := c]
  {
    assert (out + [c])[..|out|] == out;
  }

  /** Every ring cell shows the history at that cell's distance. */
  lemma {:induction false} RingIsHistory(init: Dictionary, out: seq<Byte>, j: nat)
    requires j < RING
    ensures Ring(init, out)[j] == Back(init, out, Distance(|out|, j))
    decreases |out|
  {
    if out == [] {
      assert Slot(0 - Distance(0, j)) == j;
    } else {
      var n := |out| - 1;
      RingIsHistory(init, out[..n], j);
      DistanceGrows(n, j);
    }
  }

  lemma DistanceGrows(n: nat, j: nat)
    requires j < RING
    ensures Distance(n + 1, j) == if Slot(n) == j then 1 else Distance(n, j) + 1
  {
  }

  lemma DistanceOfSlot(n: nat, k: int)
    requires n - RING <= k < n
    ensures Distance(n, Slot(k)) == n - k
  {
  }

  /** The ring agrees with the last 4096 bytes of output and is untouched elsewhere. */
  lemma RingAgreesWithOutput(init: Dictionary, out: seq<Byte>)
    ensures forall k | 0 <= k < |out| && |out| - RING <= k :: Ring(init, out)[Slot(k)] == out[k]
    ensures forall j | 0 <= j < RING && Distance(|out|, j) > |out| :: Ring(init, out)[j] == init[j]
  {
    forall k | 0 <= k < |out| && |out| - RING <= k
      ensures Ring(init, out)[Slot(k)] == out[k]
    {
      var j := Slot(k);
      RingIsHistory(init, out, j);
      DistanceOfSlot(|out|, k);
    }
    forall j | 0 <= j < RING && Distance(|out|, j) > |out|
      ensures Ring(init, out)[j] == init[j]
    {
      RingIsHistory(init, out, j);
    }
  }

  lemma {:induction false} CopyExtends(init: Dictionary, out: seq<Byte>, d: nat, count: nat)
    requires 1 <= d <= RING
    ensures out <= CopyBack(init, out, d, count)
    decreases count
  {
    if count > 0 {
      CopyExtends(init, out + [Back(init, out, d)], d, count - 1);
    }
  }

  /** A match repeats the last `d` bytes: every byte it adds equals the byte `d` before it,
      including bytes the same match has just written. */
  lemma {:induction false} CopyIsPeriodic(init: Dictionary, out: seq<Byte>, d: nat, count: nat)
    requires 1 <= d <= RING && d <= |out|
    ensures var r := CopyBack(init, out, d, count);
            forall i | |out| <= i < |r| :: r[i] == r[i - d]
    decreases count
  {
    if count > 0 {
      var next := out + [Back(init, out, d)];
      CopyIsPeriodic(init, next, d, count - 1);
      CopyExtends(init, next, d, count - 1);
      var r := CopyBack(init, out, d, count);
      forall i | |out| <= i < |r|
        ensures r[i] == r[i - d]
      {
        assert r == CopyBack(init, next, d, count - 1) && |next| == |out| + 1;
        if i == |out| {
          assert r[i] == next[i] && r[i - d] == next[i - d];
          assert next[i] == out[|out| - d] == next[|out| - d];
        }
      }
    }
  }

  // ---------- what a match copies, cell by cell ----------

  /** The `k`-th output byte is stored in ring cell `j`. */
  predicate InCell(k: int, j: nat) {
    (0xfee + k) % 0x1000 == j
  }

  /** Output byte `n` is what ring cell `j` holds then: the last byte stored there, or what was there
      in the first place. */
  ghost predicate ReadFrom(init: Dictionary, r: seq<Byte>, n: nat, j: nat)
    requires n < |r| && j < RING
  {
    && (forall k | 0 <= k < n && n <= k + 0x1000 && InCell(k, j) :: r[n] == r[k])
    && ((forall k | 0 <= k < n :: !InCell(k, j)) ==> r[n] == init[j])
  }

  /** Byte `i` of a match written from position `n` on is read from the `i`-th ring cell after `start`. */
  ghost predicate ReadAfter(init: Dictionary, r: seq<Byte>, n: nat, start: nat, i: nat) {
    n + i < |r| && ReadFrom(init, r, n + i, (start + i) % 0x1000)
  }

  /** The output `r` from byte `n` on, as the tokens say: a literal is its byte; byte `i` of a match is
      read from the ring cell `i` after the one where the match starts. */
  ghost predicate Spells(init: Dictionary, tokens: seq<Token>, n: nat, r: seq<Byte>)
    decreases |tokens|
  {
    if tokens == [] then n == |r| else
    match tokens[0]
    case Literal(c) => n < |r| && r[n] == c && Spells(init, tokens[1..], n + 1, r)
    case Match(start, count) =>
      && n + count <= |r|
      && (forall i | 0 <= i < count :: ReadAfter(init, r, n, start, i))
      && Spells(init, tokens[1..], n + count, r)
  }

  lemma {:induction false} CopyByte(init: Dictionary, out: seq<Byte>, d: nat, count: nat, i: nat)
    requires 1 <= d <= RING && i < count
    ensures var r := CopyBack(init, out, d, count);
            |r| == |out| + count && r[|out| + i] == Back(init, r[..|out| + i], d)
    decreases count
  {
    var next := out + [Back(init, out, d)];
    CopyExtends(init, next, d, count - 1);
    if i > 0 {
      CopyByte(init, next, d, count - 1, i - 1);
    } else {
      assert CopyBack(init, out, d, count)[..|out|] == out;
    }
  }

  /** Two bytes in the same cell are a multiple of the ring's size apart. */
  lemma SameCell(k: int, l: int, j: nat)
    requires InCell(k, j) && InCell(l, j) && -0x1000 < k - l < 0x1000
    ensures k == l
  {
  }

  lemma BackIsCell(init: Dictionary, r: seq<Byte>, n: nat, d: nat, j: nat)
    requires 1 <= d <= RING && j < RING && n < |r| && InCell(n - d, j) && r[n] == Back(init, r[..n], d)
    ensures ReadFrom(init, r, n, j)
  {
    if forall k | 0 <= k < n :: !InCell(k, j) {
      assert d > n;
    }
    forall k | 0 <= k < n && n <= k + 0x1000 && InCell(k, j)
      ensures r[n] == r[k]
    {
      SameCell(k, n - d, j);
    }
    hide InCell;
  }

  lemma CellOfMatch(n: nat, start: nat, i: nat)
    requires start < RING
    ensures InCell(n + i - Distance(n, start), (start + i) % 0x1000)
  {
  }

  /** Byte `i` of a match from cell `start` is what cell `start + i`, counted around the ring, holds when
      it is copied. */
  lemma MatchReads(init: Dictionary, out: seq<Byte>, start: nat, count: nat, i: nat)
    requires start < RING && i < count
    ensures var r := Apply(init, Match(start, count), out);
            |r| == |out| + count && ReadAfter(init, r, |out|, start, i)
  {
    var d := Distance(|out|, start);
    CopyByte(init, out, d, count, i);
    CellOfMatch(|out|, start, i);
    hide ReadFrom, InCell, CopyBack, Back;
    BackIsCell(init, Apply(init, Match(start, count), out), |out| + i, d, (start + i) % 0x1000);
  }

  /** A match that starts in the cell of output byte `p` repeats the output from there on. */
  lemma MatchRepeats(init: Dictionary, out: seq<Byte>, p: nat, count: nat, i: nat)
    requires p < |out| <= p + 0x1000 && i < count
    ensures var r := Apply(init, Match((0xfee + p) % 0x1000, count), out);
            |r| == |out| + count && r[|out| + i] == r[p + i]
  {
    hide Apply, ReadAfter;
    var start := (0xfee + p) % 0x1000;
    MatchReads(init, out, start, count, i);
    ReadsLast(init, Apply(init, Match(start, count), out), |out|, p, i);
  }

  lemma ReadsLast(init: Dictionary, r: seq<Byte>, n: nat, p: nat, i: nat)
    requires p < n <= p + 0x1000 && ReadAfter(init, r, n, (0xfee + p) % 0x1000, i)
    ensures n + i < |r| && r[n + i] == r[p + i]
  {
    CellAfter(p, i);
    hide InCell;
  }

  lemma CellAfter(p: nat, i: nat)
    ensures InCell(p + i, ((0xfee + p) % 0x1000 + i) % 0x1000)
  {
  }

  /** A match that starts in a cell not written yet reads what was there in the first place, up to the
      first cell that is. */
  lemma MatchOfInitial(init: Dictionary, out: seq<Byte>, start: nat, count: nat, i: nat, j: nat)
    requires start < RING && i < count && j == (start + i) % 0x1000
    requires forall k | 0 <= k < |out| + i :: !InCell(k, j)
    ensures var r := Apply(init, Match(start, count), out);
            |r| == |out| + count && r[|out| + i] == init[j]
  {
    MatchReads(init, out, start, count, i);
    hide Apply;
  }

  lemma TokenExtends(init: Dictionary, token: Token, out: seq<Byte>)
    ensures out <= Apply(init, token, out)
  {
    if token.Match? {
      CopyExtends(init, out, Distance(|out|, token.start), token.count);
    }
  }

  lemma {:induction false} ExpandExtends(init: Dictionary, tokens: seq<Token>, out: seq<Byte>)
    ensures out <= Expand(init, tokens, out)
    decreases |tokens|
  {
    if tokens != [] {
      TokenExtends(init, tokens[0], out);
      ExpandExtends(init, tokens[1..], Apply(init, tokens[0], out));
    }
  }

  /** What is read from a cell depends on the output so far and the byte itself only. */
  lemma ReadFromPrefix(init: Dictionary, s: seq<Byte>, r: seq<Byte>, n: nat, j: nat)
    requires s <= r && n < |s| && j < RING
    ensures ReadFrom(init, s, n, j) <==> ReadFrom(init, r, n, j)
  {
    hide InCell;
  }

  predicate InRing(tokens: seq<Token>) {
    forall t | t in tokens :: t.Match? ==> t.start < RING
  }

  /** The expansion of the tokens spells them out. */
  lemma {:induction false} ExpandSpells(init: Dictionary, tokens: seq<Token>, out: seq<Byte>)
    requires InRing(tokens)
    ensures Spells(init, tokens, |out|, Expand(init, tokens, out))
    decreases |tokens|
  {
    if tokens != [] {
      var next, r := Apply(init, tokens[0], out), Expand(init, tokens, out);
      ExpandSpells(init, tokens[1..], next);
      ExpandExtends(init, tokens[1..], next);
      assert r == Expand(init, tokens[1..], next);
      TokenSpells(init, tokens[0], out, r);
      hide Apply, Expand, ReadAfter;
    }
  }

  lemma TokenSpells(init: Dictionary, token: Token, out: seq<Byte>, r: seq<Byte>)
    requires (token.Match? ==> token.start < RING) && Apply(init, token, out) <= r
    ensures match token
            case Literal(c) => |out| < |r| && r[|out|] == c && |Apply(init, token, out)| == |out| + 1
            case Match(start, count) =>
              && |out| + count <= |r| && |Apply(init, token, out)| == |out| + count
              && forall i | 0 <= i < count :: ReadAfter(init, r, |out|, start, i)
  {
    if token.Match? {
      var next := Apply(init, token, out);
      forall i | 0 <= i < token.count
        ensures ReadAfter(init, r, |out|, token.start, i)
      {
        MatchReads(init, out, token.start, token.count, i);
        ReadFromPrefix(init, next, r, |out| + i, (token.start + i) % 0x1000);
      }
    }
  }

  lemma {:induction false} ParseInRing(src: seq<Byte>, flags: seq<bool>)
    ensures InRing(Parse(src, flags))
    decreases |src|, |flags|
  {
    hide Bits, MatchStart, MatchCount;
    if flags == [] {
      if src != [] {
        ParseInRing(src[1..], Bits(src[0], 8));
      }
    } else if flags[0] {
      if src != [] {
        ParseInRing(src[1..], flags[1..]);
      }
    } else if |src| >= 2 {
      ParseInRing(src[2..], flags[1..]);
    }
  }

  lemma ReadDetermined(init: Dictionary, r: seq<Byte>, s: seq<Byte>, n: nat, j: nat)
    requires n < |r| && n < |s| && r[..n] == s[..n] && j < RING
    requires ReadFrom(init, r, n, j) && ReadFrom(init, s, n, j)
    ensures r[n] == s[n]
  {
    var k := n - 1 - (0xfee + n - 1 - j) % 0x1000;
    assert InCell(k, j);
    if k < 0 {
      forall l | 0 <= l < n
        ensures !InCell(l, j)
      {
        if InCell(l, j) {
          SameCell(l, k, j);
        }
      }
    } else {
      assert r[k] == r[..n][k] == s[k];
    }
  }

  lemma {:induction false} MatchDetermined(init: Dictionary, r: seq<Byte>, s: seq<Byte>, n: nat, start: nat, i: nat)
    requires start < RING && n + i <= |r| && n + i <= |s| && r[..n] == s[..n]
    requires forall k | 0 <= k < i :: ReadAfter(init, r, n, start, k) && ReadAfter(init, s, n, start, k)
    ensures r[..n + i] == s[..n + i]
  {
    if i > 0 {
      MatchDetermined(init, r, s, n, start, i - 1);
      assert ReadAfter(init, r, n, start, i - 1) && ReadAfter(init, s, n, start, i - 1);
      ReadDetermined(init, r, s, n + i - 1, (start + i - 1) % 0x1000);
      hide ReadFrom, ReadAfter;
    }
  }

  lemma TokenDetermined(init: Dictionary, token: Token, n: nat, r: seq<Byte>)
    requires (token.Match? ==> token.start < RING) && n <= |r|
    requires match token
             case Literal(c) => n < |r| && r[n] == c
             case Match(start, count) =>
               n + count <= |r| && forall i | 0 <= i < count :: ReadAfter(init, r, n, start, i)
    ensures var m := n + if token.Literal? then 1 else token.count;
            m <= |r| && r[..m] == Apply(init, token, r[..n])
  {
    if token.Match? {
      var s := Apply(init, token, r[..n]);
      TokenSpells(init, token, r[..n], s);
      TokenExtends(init, token, r[..n]);
      hide Apply, ReadAfter;
      MatchDetermined(init, r, s, n, token.start, token.count);
    }
  }

  /** No other output spells out the tokens. */
  lemma {:induction false} SpelledOnce(init: Dictionary, tokens: seq<Token>, n: nat, r: seq<Byte>)
    requires InRing(tokens) && n <= |r| && Spells(init, tokens, n, r)
    ensures r == Expand(init, tokens, r[..n])
    decreases |tokens|
  {
    if tokens == [] {
      assert r[..n] == r;
    } else {
      var m := n + if tokens[0].Literal? then 1 else tokens[0].count;
      TokenDetermined(init, tokens[0], n, r);
      SpelledOnce(init, tokens[1..], m, r);
      hide Apply, ReadAfter;
    }
  }

  /** The decoded output is the one that spells out the tokens of the input, each match read from its
      ring cells. */
  lemma DecodedSpells(init: Dictionary, src: seq<Byte>, r: seq<Byte>)
    ensures r == Decoded(init, src) <==> Spells(init, Parse(src, []), 0, r)
  {
    ParseInRing(src, []);
    ExpandSpells(init, Parse(src, []), []);
    if Spells(init, Parse(src, []), 0, r) {
      SpelledOnce(init, Parse(src, []), 0, r);
      assert r[..0] == [];
    }
    hide Parse, Expand, Spells;
  }

  // ---------- the run mask ----------

  /** The mask word standing for a list of pending flags: a sentinel of ones above the flags. */
  function MaskOf(flags: seq<bool>): (m: nat)
    ensures m >= 0xff && (m < 0x100 <==> flags == [])
  {
    if flags == [] then 0xff else (if flags[0] then 1 else 0) + 2 * MaskOf(flags[1..])
  }

  function LowBit(m: nat): bool {
    m % 2 == 1
  }

  function ShiftRight(m: nat): nat {
    m / 2
  }

  /** Shifting the mask right takes the first pending flag. */
  lemma MaskShift(flags: seq<bool>)
    requires flags != []
    ensures ShiftRight(MaskOf(flags)) == MaskOf(flags[1..])
    ensures LowBit(MaskOf(flags)) <==> flags[0]
  {
  }

  lemma MaskOfFlagByte(b: Byte)
    ensures MaskOf(Bits(b, 8)) == b + 0xff00
  {
    MaskOfBits(b, 8);
    assert Pow2(8) == 256 by {
      assert Pow2(4) == 16;
    }
  }

  function Pow2(n: nat): nat {
    if n == 0 then 1 else 2 * Pow2(n - 1)
  }

  lemma {:induction false} MaskOfBits(b: nat, n: nat)
    requires b < Pow2(n)
    ensures MaskOf(Bits(b, n)) == b + 0xff * Pow2(n)
  {
    if n > 0 {
      MaskOfBits(ShiftRight(b), n - 1);
      assert Bits(b, n)[1..] == Bits(ShiftRight(b), n - 1);
    }
  }

  function Shifted(m: nat, k: nat): nat {
    if k == 0 then m else ShiftRight(Shifted(m, k - 1))
  }

  /** The mask word made from a flag byte delivers the byte's eight flags, lowest first, and shows
      itself empty after exactly eight shifts. */
  lemma {:induction false} MaskHoldsEight(b: Byte, k: nat)
    requires k <= 8
    ensures Shifted(b + 0xff00, k) < 0x100 <==> k == 8
    ensures k < 8 ==> (LowBit(Shifted(b + 0xff00, k)) <==> Bits(b, 8)[k])
  {
    MaskAfter(b, k);
    if k < 8 {
      MaskShift(Bits(b, 8)[k..]);
    }
    hide Shifted, MaskOf, LowBit;
  }

  lemma {:induction false} MaskAfter(b: Byte, k: nat)
    requires k <= 8
    ensures Shifted(b + 0xff00, k) == MaskOf(Bits(b, 8)[k..])
  {
    hide MaskOf, ShiftRight, Bits;
    if k == 0 {
      MaskOfFlagByte(b);
      assert Bits(b, 8)[0..] == Bits(b, 8);
    } else {
      MaskAfter(b, k - 1);
      MaskShift(Bits(b, 8)[k - 1..]);
      assert Bits(b, 8)[k - 1..][1..] == Bits(b, 8)[k..];
    }
  }

  // ---------- the decoder ----------

  /** Decodes `size` bytes of `src` into `dest`; `dict` is the decoder's dictionary, whose initial
      content the source leaves undefined. */
  method DecodeLzss(src: seq<Byte>, dest: array<Byte>, size: int, dict: array<Byte>)
    returns (written: nat, consumed: nat)
    requires size <= |src| && dict.Length == RING && dest != dict
    requires |Decoded(dict[..], src[..Clip(size)])| <= dest.Length
    modifies dest, dict
    ensures written <= dest.Length && dest[..written] == Decoded(old(dict[..]), src[..Clip(size)])
    ensures Spells(old(dict[..]), Parse(src[..Clip(size)], []), 0, dest[..written])
    ensures forall k | written <= k < dest.Length :: dest[k] == old(dest[k])
    ensures dict[..] == Ring(old(dict[..]), dest[..written])
    ensures consumed == Clip(size)
    ensures written <= 9 * Clip(size)
  {
    ghost var before := dest[..];
    OutputBound(dict[..], src[..Clip(size)], [], []);
    DecodedSpells(dict[..], src[..Clip(size)], Decoded(dict[..], src[..Clip(size)]));
    written, consumed := DecodeTokens(src, dest, size, dict);
    assert forall k | written <= k < dest.Length :: dest[k] == before[k];
  }

  /** Nothing from `w` on has been written. */
  ghost predicate Kept(dest: array<Byte>, w: int, before: seq<Byte>)
    reads dest
  {
    |before| == dest.Length && forall k | 0 <= k < dest.Length && w <= k :: dest[k] == before[k]
  }

  /** The decoder's loop. */
  method DecodeTokens(src: seq<Byte>, dest: array<Byte>, size: int, dict: array<Byte>) returns (w: nat, s: nat)
    requires size <= |src| && dict.Length == RING && dest != dict
    requires |Decoded(dict[..], src[..Clip(size)])| <= dest.Length
    modifies dest, dict
    ensures w <= dest.Length && dest[..w] == Decoded(old(dict[..]), src[..Clip(size)])
    ensures dict[..] == Ring(old(dict[..]), dest[..w]) && s == Clip(size) && Kept(dest, w, old(dest[..]))
  {
    var runMask, dictIdx, left := 0, 0xfee, size;
    s, w := 0, 0;
    ghost var before: seq<Byte>, init: Dictionary, input, flags := dest[..], dict[..], src[..Clip(size)], [];
    ghost var goal, out := Decoded(init, input), [];
    assert Stored(dest, dict, w, dictIdx, init, out) by {
      NothingStored(init);
    }
    assert goal == Finish(init, input, 0, flags, out) && Kept(dest, 0, before);
    hide Slot, Distance, MatchStart, MatchCount, Apply, Finish, Ring, Bits, MaskOf, ShiftRight, LowBit;
    hide Decoded, Stored, Kept;
    while true
      invariant 0 <= s <= |input| && (0 <= left ==> s + left == size)
      invariant size >= 0 ==> left >= 0
      invariant size < 0 ==> left == size
      invariant runMask == MaskOf(flags) || (runMask == 0 && flags == [])
      invariant Stored(dest, dict, w, dictIdx, init, out) && Kept(dest, w, before)
      invariant goal == Finish(init, input, s, flags, out)
      decreases left
    {
      if runMask < 0x100 {
        left := left - 1;
        if left < 0 {
          FinishEnds(init, input, s, flags, out);
          break;
        }
        assert src[s] == input[s];
        runMask := src[s] as int + 0xff00;
        FetchFlags(init, input, s, out);
        flags := Bits(input[s], 8);
        s := s + 1;
      }
      MaskShift(flags);
      var bit := LowBit(runMask);
      runMask := ShiftRight(runMask);
      ghost var pending := flags;
      flags := flags[1..];
      left := left - 1;
      if left < 0 {
        FinishEnds(init, input, s, pending, out);
        break;
      }
      assert src[s] == input[s];
      if bit {
        w, dictIdx, out := DecodeLiteral(src[s], dest, dict, w, dictIdx, before, init, input, s, pending, out);
        s := s + 1;
      } else {
        var low := src[s];
        s := s + 1;
        left := left - 1;
        if left < 0 {
          FinishEnds(init, input, s - 1, pending, out);
          break;
        }
        var high := src[s];
        assert high == input[s];
        s := s + 1;
        w, dictIdx, out := DecodeMatch(low, high, dest, dict, w, dictIdx, before, init, input, s - 2, pending, out);
      }
    }
    StoredSize(dest, dict, w, dictIdx, init, out);
  }

  /** One literal byte; `s` is where it stands in the input. */
  method DecodeLiteral(c: Byte, dest: array<Byte>, dict: array<Byte>, pos: nat, dictPos: nat, ghost before: seq<Byte>,
                       ghost init: Dictionary, ghost input: seq<Byte>, ghost s: nat, ghost flags: seq<bool>,
                       ghost sofar: seq<Byte>)
    returns (w: nat, dictIdx: nat, ghost out: seq<Byte>)
    requires Stored(dest, dict, pos, dictPos, init, sofar) && Kept(dest, pos, before)
    requires s < |input| && input[s] == c && flags != [] && flags[0]
    requires |Finish(init, input, s, flags, sofar)| <= dest.Length
    modifies dest, dict
    ensures Stored(dest, dict, w, dictIdx, init, out) && Kept(dest, w, before)
    ensures Finish(init, input, s + 1, flags[1..], out) == Finish(init, input, s, flags, sofar)
  {
    StoredSize(dest, dict, pos, dictPos, init, sofar);
    hide Finish, Stored, Ring, Slot;
    FinishLiteral(init, input, s, flags, sofar);
    w, dictIdx := Emit(dest, dict, pos, dictPos, c, init, sofar);
    out := sofar + [c];
  }

  /** One match of two bytes; `s` is where they stand in the input. */
  method DecodeMatch(low: Byte, high: Byte, dest: array<Byte>, dict: array<Byte>, pos: nat, dictPos: nat,
                     ghost before: seq<Byte>, ghost init: Dictionary, ghost input: seq<Byte>, ghost s: nat,
                     ghost flags: seq<bool>, ghost sofar: seq<Byte>)
    returns (w: nat, dictIdx: nat, ghost out: seq<Byte>)
    requires Stored(dest, dict, pos, dictPos, init, sofar) && Kept(dest, pos, before)
    requires s + 1 < |input| && input[s] == low && input[s + 1] == high && flags != [] && !flags[0]
    requires |Finish(init, input, s, flags, sofar)| <= dest.Length
    modifies dest, dict
    ensures Stored(dest, dict, w, dictIdx, init, out) && Kept(dest, w, before)
    ensures Finish(init, input, s + 2, flags[1..], out) == Finish(init, input, s, flags, sofar)
  {
    StoredSize(dest, dict, pos, dictPos, init, sofar);
    hide Finish, Stored, Ring, Slot, MatchStart, MatchCount, Apply;
    var idx, cnt := MatchStart(low, high), MatchCount(high);
    FinishMatch(init, input, s, flags, sofar, idx, cnt);
    w, dictIdx := CopyMatch(dest, dict, pos, dictPos, idx, cnt, init, sofar);
    out := Apply(init, Match(idx, cnt), sofar);
  }

  /** The output of a decoder that has written `out` and still has `src[s..]` and `flags` to go. */
  ghost function Finish(init: Dictionary, src: seq<Byte>, s: int, flags: seq<bool>, out: seq<Byte>): (r: seq<Byte>)
    requires 0 <= s <= |src|
    ensures |out| <= |r|
  {
    Expand(init, Parse(src[s..], flags), out)
  }

  /** Input that holds no whole token adds nothing. */
  lemma FinishEnds(init: Dictionary, src: seq<Byte>, s: nat, flags: seq<bool>, out: seq<Byte>)
    requires s == |src| || (s + 1 == |src| && flags != [] && !flags[0])
    ensures Finish(init, src, s, flags, out) == out
  {
  }

  lemma FinishFlagByte(init: Dictionary, src: seq<Byte>, s: nat, out: seq<Byte>)
    requires s < |src|
    ensures Finish(init, src, s, [], out) == Finish(init, src, s + 1, Bits(src[s], 8), out)
  {
    assert src[s..][1..] == src[s + 1..];
  }

  lemma FetchFlags(init: Dictionary, src: seq<Byte>, s: nat, out: seq<Byte>)
    requires s < |src|
    ensures MaskOf(Bits(src[s], 8)) == src[s] as int + 0xff00
    ensures Finish(init, src, s, [], out) == Finish(init, src, s + 1, Bits(src[s], 8), out)
  {
    hide *;
    MaskOfFlagByte(src[s]);
    FinishFlagByte(init, src, s, out);
  }

  lemma FinishLiteral(init: Dictionary, src: seq<Byte>, s: nat, flags: seq<bool>, out: seq<Byte>)
    requires s < |src| && flags != [] && flags[0]
    ensures Finish(init, src, s, flags, out) == Finish(init, src, s + 1, flags[1..], out + [src[s]])
  {
    assert src[s..][1..] == src[s + 1..];
    assert Parse(src[s..], flags)[1..] == Parse(src[s + 1..], flags[1..]);
  }

  lemma FinishMatch(init: Dictionary, src: seq<Byte>, s: nat, flags: seq<bool>, out: seq<Byte>, idx: nat, cnt: nat)
    requires s + 1 < |src| && flags != [] && !flags[0]
    requires idx == MatchStart(src[s], src[s + 1]) && cnt == MatchCount(src[s + 1])
    ensures |Apply(init, Match(idx, cnt), out)| == |out| + cnt
    ensures Finish(init, src, s, flags, out) == Finish(init, src, s + 2, flags[1..], Apply(init, Match(idx, cnt), out))
  {
    hide Slot, Distance, Bits, MatchStart, MatchCount;
    assert src[s..][2..] == src[s + 2..];
    assert Parse(src[s..], flags) == [Match(idx, cnt)] + Parse(src[s + 2..], flags[1..]);
  }

  lemma NothingStored(init: Dictionary)
    ensures Slot(0) == 0xfee && Ring(init, []) == init
  {
  }

  /** `dest` holds the output so far and `dict` the ring after it. */
  ghost predicate Stored(dest: array<Byte>, dict: array<Byte>, w: int, dictIdx: int,
                         init: Dictionary, out: seq<Byte>)
    reads dest, dict
  {
    && dest != dict && dict.Length == RING
    && 0 <= w <= dest.Length && dest[..w] == out
    && dictIdx == Slot(w) && dict[..] == Ring(init, out)
  }

  lemma StoredSize(dest: array<Byte>, dict: array<Byte>, w: int, dictIdx: int, init: Dictionary, out: seq<Byte>)
    requires Stored(dest, dict, w, dictIdx, init, out)
    ensures 0 <= w <= dest.Length && w == |out| && 0 <= dictIdx < RING
    ensures dest[..w] == out && dict[..] == Ring(init, out)
  {
  }

  /** Writes one byte to the output and to the ring. */
  method Emit(dest: array<Byte>, dict: array<Byte>, pos: nat, dictPos: nat, c: Byte,
              ghost init: Dictionary, ghost out: seq<Byte>)
    returns (w: nat, dictIdx: nat)
    requires Stored(dest, dict, pos, dictPos, init, out) && pos < dest.Length
    modifies dest, dict
    ensures w == pos + 1 && Stored(dest, dict, w, dictIdx, init, out + [c])
    ensures forall k | w <= k < dest.Length :: dest[k] == old(dest[k])
  {
    RingStores(init, out, c);
    SlotNext(pos);
    dict[dictPos] := c;
    dest[pos] := c;
    w, dictIdx := pos + 1, (dictPos + 1) % 0x1000;
    assert dest[..w] == out + [c];
  }

  /** The inner loop: copies `count` bytes from ring cell `start` on, storing each as it goes. */
  method CopyMatch(dest: array<Byte>, dict: array<Byte>, pos: nat, dictPos: nat, start: nat, count: nat,
                   ghost init: Dictionary, ghost out: seq<Byte>)
    returns (w: nat, dictIdx: nat)
    requires Stored(dest, dict, pos, dictPos, init, out)
    requires pos + count <= dest.Length && start < RING
    modifies dest, dict
    ensures w == pos + count && Stored(dest, dict, w, dictIdx, init, Apply(init, Match(start, count), out))
    ensures forall k | w <= k < dest.Length :: dest[k] == old(dest[k])
  {
    ghost var d, soFar := Distance(pos, start), out;
    var idx, cnt := start, count;
    w, dictIdx := pos, dictPos;
    StoredSize(dest, dict, pos, dictPos, init, out);
    hide Distance, Slot, Ring, Back, Stored;
    while cnt > 0
      invariant 0 <= cnt <= count && w == pos + count - cnt && idx == Slot(w - d)
      invariant Stored(dest, dict, w, dictIdx, init, soFar)
      invariant CopyBack(init, out, d, count) == CopyBack(init, soFar, d, cnt)
      invariant forall k | w <= k < dest.Length :: dest[k] == old(dest[k])
    {
      CellIsBack(dest, dict, w, dictIdx, init, soFar, d, idx);
      var c := dict[idx];
      StoredSize(dest, dict, w, dictIdx, init, soFar);
      SlotNext(w - d);
      w, dictIdx := Emit(dest, dict, w, dictIdx, c, init, soFar);
      idx, cnt, soFar := (idx + 1) % 0x1000, cnt - 1, soFar + [c];
    }
  }

  /** The ring cell a match reads is the output byte at its distance. */
  lemma CellIsBack(dest: array<Byte>, dict: array<Byte>, w: nat, dictIdx: int, init: Dictionary, out: seq<Byte>,
                   d: nat, idx: int)
    requires Stored(dest, dict, w, dictIdx, init, out) && 1 <= d <= RING && idx == Slot(w - d)
    ensures 0 <= idx < dict.Length && dict[idx] == Back(init, out, d)
  {
    RingIsHistory(init, out, idx);
    DistanceOfSlot(w, w - d);
    assert dict[idx] == dict[..][idx];
  }

  function Clip(size: int): nat {
    if size < 0 then 0 else size
  }

  /** Nine output bytes for each input byte are always room enough. */
  lemma {:induction false} OutputBound(init: Dictionary, src: seq<Byte>, flags: seq<bool>, out: seq<Byte>)
    ensures |Expand(init, Parse(src, flags), out)| <= |out| + 9 * |src|
    decreases |src|, |flags|
  {
    if flags == [] {
      if src != [] {
        OutputBound(init, src[1..], Bits(src[0], 8), out);
      }
    } else if flags[0] {
      if src != [] {
        OutputBound(init, src[1..], flags[1..], out + [src[0]]);
        assert Parse(src, flags)[1..] == Parse(src[1..], flags[1..]);
      }
    } else if |src| >= 2 {
      var token := Match(MatchStart(src[0], src[1]), MatchCount(src[1]));
      OutputBound(init, src[2..], flags[1..], Apply(init, token, out));
      assert Parse(src, flags)[1..] == Parse(src[2..], flags[1..]);
    }
  }

  // ---------- round trip ----------

  function Payload(token: Token): seq<Byte>
    requires token.Valid()
  {
    match token
    case Literal(c) => [c]
    case Match(start, count) => [start % 256, start / 256 * 16 + count - 3]
  }

  function Payloads(tokens: seq<Token>): seq<Byte>
    requires forall t | t in tokens :: t.Valid()
  {
    if tokens == [] then [] else Payload(tokens[0]) + Payloads(tokens[1..])
  }

  function Flags(tokens: seq<Token>): (f: seq<bool>)
    ensures |f| == |tokens|
  {
    if tokens == [] then [] else [tokens[0].Literal?] + Flags(tokens[1..])
  }

  function FlagValue(flags: seq<bool>): (b: nat)
    ensures b < Pow2(|flags|)
  {
    if flags == [] then 0 else (if flags[0] then 1 else 0) + 2 * FlagValue(flags[1..])
  }

  function FlagByte(flags: seq<bool>): Byte
    requires |flags| <= 8
  {
    Pow2Monotone(|flags|, 8);
    assert Pow2(8) == 256 by {
      assert Pow2(4) == 16;
    }
    FlagValue(flags)
  }

  /** The stream format: a flag byte, then the payloads of up to eight tokens, and so on. */
  function Serialise(tokens: seq<Token>): seq<Byte>
    requires forall t | t in tokens :: t.Valid()
    decreases |tokens|
  {
    if tokens == [] then [] else
    var g := if |tokens| < 8 then |tokens| else 8;
    [FlagByte(Flags(tokens[..g]))] + Payloads(tokens[..g]) + Serialise(tokens[g..])
  }

  lemma {:induction false} Pow2Monotone(m: nat, n: nat)
    requires m <= n
    ensures Pow2(m) <= Pow2(n)
    decreases n
  {
    if m < n {
      Pow2Monotone(m, n - 1);
    }
  }

  lemma {:induction false} BitsOfFlags(flags: seq<bool>, n: nat)
    requires |flags| <= n
    ensures Bits(FlagValue(flags), n) == flags + seq(n - |flags|, _ => false)
  {
    if n > 0 {
      var rest := if flags == [] then [] else flags[1..];
      BitsOfFlags(rest, n - 1);
      Doubled(FlagValue(rest));
      hide LowBit, ShiftRight;
      if flags == [] {
        assert Bits(0, n) == [false] + Bits(0, n - 1);
      } else {
        assert Bits(FlagValue(flags), n) == [flags[0]] + Bits(FlagValue(rest), n - 1);
      }
    }
  }

  lemma Doubled(x: nat)
    ensures ShiftRight(2 * x) == ShiftRight(1 + 2 * x) == x && !LowBit(2 * x) && LowBit(1 + 2 * x)
    ensures ShiftRight(0) == 0 && !LowBit(0)
  {
  }

  lemma ParseOne(token: Token, rest: seq<Byte>, flags: seq<bool>)
    requires token.Valid()
    ensures Parse(Payload(token) + rest, [token.Literal?] + flags) == [token] + Parse(rest, flags)
  {
    var src, all := Payload(token) + rest, [token.Literal?] + flags;
    assert all[1..] == flags && src[|Payload(token)|..] == rest;
  }

  lemma {:induction false} ParseGroup(group: seq<Token>, rest: seq<Byte>, flags: seq<bool>)
    requires forall t | t in group :: t.Valid()
    ensures Parse(Payloads(group) + rest, Flags(group) + flags) == group + Parse(rest, flags)
    decreases |group|
  {
    hide Parse, Bits, Payload;
    if group == [] {
      assert Payloads(group) + rest == rest && Flags(group) + flags == flags;
    } else {
      var bytes, pending := Payloads(group[1..]) + rest, Flags(group[1..]) + flags;
      ParseGroup(group[1..], rest, flags);
      ParseOne(group[0], bytes, pending);
      assert Payloads(group) + rest == Payload(group[0]) + bytes;
      assert Flags(group) + flags == [group[0].Literal?] + pending;
      assert group + Parse(rest, flags) == [group[0]] + (group[1..] + Parse(rest, flags));
    }
  }

  /** One flag byte with its payloads parses to its tokens; only the last group may be short. */
  lemma ParseChunk(group: seq<Token>, rest: seq<Byte>)
    requires forall t | t in group :: t.Valid()
    requires |group| <= 8 && (|group| < 8 ==> rest == [])
    ensures Parse([FlagByte(Flags(group))] + Payloads(group) + rest, []) == group + Parse(rest, [])
  {
    var flags, padding := Flags(group), seq(8 - |group|, _ => false);
    BitsOfFlags(flags, 8);
    var src := [FlagByte(flags)] + Payloads(group) + rest;
    assert src[0] == FlagByte(flags) && src[1..] == Payloads(group) + rest;
    ParseGroup(group, rest, padding);
    hide *;
    if |group| == 8 {
      assert padding == [];
    }
  }

  /** Parsing undoes serialising, whatever the number of tokens in the last group. */
  lemma {:induction false} ParseSerialise(tokens: seq<Token>)
    requires forall t | t in tokens :: t.Valid()
    ensures Parse(Serialise(tokens), []) == tokens
    decreases |tokens|
  {
    if tokens != [] {
      hide Parse, Flags, Payloads, FlagByte;
      var g := if |tokens| < 8 then |tokens| else 8;
      ParseChunk(tokens[..g], Serialise(tokens[g..]));
      ParseSerialise(tokens[g..]);
      assert tokens == tokens[..g] + tokens[g..];
    }
  }

  /** Round trip: decoding a serialised token list writes its expansion. */
  lemma RoundTrip(init: Dictionary, tokens: seq<Token>)
    requires forall t | t in tokens :: t.Valid()
    ensures Decoded(init, Serialise(tokens)) == Expand(init, tokens, [])
  {
    ParseSerialise(tokens);
  }
}
