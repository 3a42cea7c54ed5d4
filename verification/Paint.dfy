/** Rectangle inversion and filling through wide cells and an unrolled loop (`do_invrect`,
    `do_fillrect`, `NQD_invrect`, `NQD_fillrect`). */
module Paint {
  import opened Bytes
  import opened Rows

  /** What happens to a row: complement it, or fill it with a 32-bit colour, given by its bytes in
      memory order. */
  datatype Brush = Invert | Fill(b0: Byte, b1: Byte, b2: Byte, b3: Byte)

  predicate IsPixelSize(px: nat) {
    px == 1 || px == 2 || px == 4
  }

  /** A whole number of pixels. */
  predicate Whole(n: int, px: nat) {
    if px == 2 then n % 2 == 0 else px != 4 || n % 4 == 0
  }

  /** The colour repeats with the pixel size: 16-bit colours come with equal halves. */
  predicate Suits(p: Brush, px: nat) {
    && IsPixelSize(px)
    && (p.Fill? && px < 4 ==> p.b0 == p.b2 && p.b1 == p.b3)
    && (p.Fill? && px < 2 ==> p.b0 == p.b1)
  }

  function ColourByte(p: Brush, i: int): Byte
    requires p.Fill?
  {
    if i % 4 == 0 then p.b0 else if i % 4 == 1 then p.b1 else if i % 4 == 2 then p.b2 else p.b3
  }

  /** Byte `i` of a painted row that held `was`. */
  function PaintByte(p: Brush, i: int, was: Byte): Byte {
    if p.Invert? then 255 - was else ColourByte(p, i)
  }

  function PaintBytes(p: Brush, row: seq<Byte>): (r: seq<Byte>)
    ensures |r| == |row|
  {
    seq(|row|, i requires 0 <= i < |row| => PaintByte(p, i, row[i]))
  }

  /** The simple form: memory with the `n` bytes at `at` painted one by one. */
  function Painted(p: Brush, mem: seq<Byte>, at: nat, n: nat): (r: seq<Byte>)
    requires at + n <= |mem|
    ensures |r| == |mem|
  {
    Overwrite(mem, at, PaintBytes(p, mem[at..at + n]))
  }

  lemma PaintedAt(p: Brush, mem: seq<Byte>, at: nat, n: nat, a: nat)
    requires at + n <= |mem| && a < |mem|
    ensures Painted(p, mem, at, n)[a] == if at <= a < at + n then PaintByte(p, a - at, mem[a]) else mem[a]
  {
    hide PaintByte;
  }

  lemma ShiftEven(n: int, i: int)
    requires n % 2 == 0
    ensures (n + i) % 2 == i % 2
  {
  }

  lemma ShiftByFours(n: int, i: int)
    requires n % 4 == 0
    ensures (n + i) % 4 == i % 4
  {
    var q := n / 4;
    assert n == 4 * q;
  }

  lemma EvenResidue(i: int)
    ensures i % 2 == 0 <==> i % 4 == 0 || i % 4 == 2
  {
    var q, r := i / 4, i % 4;
    ShiftEven(2 * (2 * q), r);
    assert i == 2 * (2 * q) + r;
  }

  /** The pattern looks the same from every pixel boundary. */
  lemma PhaseShift(p: Brush, px: nat, n: nat, i: int, was: Byte)
    requires Suits(p, px) && Whole(n, px)
    ensures PaintByte(p, n + i, was) == PaintByte(p, i, was)
  {
    if px == 2 {
      ShiftEven(n, i);
      EvenResidue(n + i);
      EvenResidue(i);
    } else if px == 4 {
      ShiftByFours(n, i);
    }
  }

  /** Painting a stretch and then the stretch after it paints both together. */
  lemma PaintedSplit(p: Brush, px: nat, mem: seq<Byte>, at: nat, n: nat, k: nat)
    requires Suits(p, px) && Whole(n, px) && at + n + k <= |mem|
    ensures Painted(p, Painted(p, mem, at, n), at + n, k) == Painted(p, mem, at, n + k)
  {
    hide Painted, PaintByte, Suits;
    var once := Painted(p, mem, at, n);
    var both, whole := Painted(p, once, at + n, k), Painted(p, mem, at, n + k);
    forall a | 0 <= a < |mem|
      ensures both[a] == whole[a]
    {
      PaintedAt(p, mem, at, n, a);
      PaintedAt(p, once, at + n, k, a);
      PaintedAt(p, mem, at, n + k, a);
      PhaseShift(p, px, n, a - at - n, mem[a]);
    }
  }

  lemma PaintedNothing(p: Brush, mem: seq<Byte>, at: nat)
    requires at <= |mem|
    ensures Painted(p, mem, at, 0) == mem
  {
  }

  /** The byte a store of a `size`-byte cell puts at its offset `i`; narrow stores keep the
      colour's low-order bytes, which come last on a big-endian host. */
  function CellByte(p: Brush, bigEndian: bool, size: nat, i: nat, was: Byte): Byte {
    if p.Invert? then 255 - was
    else ColourByte(p, if bigEndian && size < 4 then 4 - size + i else i)
  }

  lemma CellIsPattern(p: Brush, px: nat, bigEndian: bool, size: nat, i: nat, was: Byte)
    requires Suits(p, px) && (size == 1 || size == 2 || size == 4 || size == 8) && px <= size && i < size
    ensures CellByte(p, bigEndian, size, i, was) == PaintByte(p, i, was)
  {
  }

  method PaintCell(mem: array<Byte>, at: nat, size: nat, p: Brush, px: nat, bigEndian: bool)
    requires Suits(p, px) && (size == 1 || size == 2 || size == 4 || size == 8) && px <= size
    requires at + size <= mem.Length
    modifies mem
    ensures mem[..] == Painted(p, old(mem[..]), at, size)
  {
    hide CellByte, PaintByte, Suits, Painted;
    ghost var before := mem[..];
    for i := 0 to size
      invariant forall a | 0 <= a < mem.Length && !(at <= a < at + i) :: mem[a] == before[a]
      invariant forall a | at <= a < at + i :: mem[a] == PaintByte(p, a - at, before[a])
    {
      CellIsPattern(p, px, bigEndian, size, i, before[at + i]);
      mem[at + i] := CellByte(p, bigEndian, size, i, mem[at + i]);
    }
    forall a | 0 <= a < mem.Length
      ensures mem[a] == Painted(p, before, at, size)[a]
    {
      PaintedAt(p, before, at, size, a);
    }
  }

  /** One more cell after a stretch that is already painted. */
  method Extend(mem: array<Byte>, start: nat, at: nat, size: nat, p: Brush, px: nat, bigEndian: bool,
                ghost before: seq<Byte>)
    requires Suits(p, px) && (size == 1 || size == 2 || size == 4 || size == 8) && px <= size
    requires |before| == mem.Length && start <= at && Whole(at - start, px) && at + size <= mem.Length
    requires mem[..] == Painted(p, before, start, at - start)
    modifies mem
    ensures mem[..] == Painted(p, before, start, at + size - start)
  {
    hide Painted, Suits;
    PaintCell(mem, at, size, p, px, bigEndian);
    PaintedSplit(p, px, before, start, at - start, size);
  }

  lemma WordsSplit(words: nat)
    ensures words == 8 * ((words + 7) / 8 - 1) + (if words % 8 == 0 then 8 else words % 8)
  {
  }

  lemma Steps(px: nat, a: nat, size: nat)
    requires Whole(a, px) && (size == 1 || size == 2 || size == 4 || size == 8) && px <= size
    ensures Whole(a + size, px)
  {
    if px == 2 {
      ShiftEven(a, size);
    } else if px == 4 {
      ShiftByFours(a, size);
    }
  }

  /** The eightfold unrolled loop, entered in its middle by a jump: `k` is the number of cells left
      in the current round. */
  method PaintWords(mem: array<Byte>, start: nat, at: nat, words: nat, p: Brush, px: nat, bigEndian: bool,
                    ghost before: seq<Byte>) returns (dest: nat)
    requires words > 0 && Suits(p, px)
    requires |before| == mem.Length && start <= at && Whole(at - start, px) && at + 8 * words <= mem.Length
    requires mem[..] == Painted(p, before, start, at - start)
    modifies mem
    ensures dest == at + 8 * words && Whole(dest - start, px)
    ensures mem[..] == Painted(p, before, start, dest - start)
  {
    hide Painted;
    var r, n := words % 8, (words + 7) / 8;
    dest := at + r * 8;
    WordsSplit(words);
    var k := r;
    if r == 0 {
      dest, k := dest + 64, 8;
    }
    while true
      invariant n > 0 && 0 <= k <= 8 && start <= dest - 8 * k && dest + 64 * (n - 1) == at + 8 * words
      invariant Whole(dest - 8 * k - start, px)
      invariant mem[..] == Painted(p, before, start, dest - 8 * k - start)
      decreases n
    {
      while k > 0
        invariant 0 <= k <= 8 && start <= dest - 8 * k
        invariant Whole(dest - 8 * k - start, px)
        invariant mem[..] == Painted(p, before, start, dest - 8 * k - start)
      {
        Extend(mem, start, dest - 8 * k, 8, p, px, bigEndian, before);
        Steps(px, dest - 8 * k - start, 8);
        k := k - 1;
      }
      n := n - 1;
      if n <= 0 {
        break;
      }
      dest, k := dest + 64, 8;
    }
  }

  /** Bytes consumed to bring `address` to a 32-bit boundary, where the pixels are that narrow. */
  function Prefix(address: nat, px: nat, unaligned: bool): nat {
    if unaligned then 0 else
    var odd := if px < 2 && address % 2 == 1 then 1 else 0;
    odd + if px < 4 && (address + odd) % 4 >= 2 then 2 else 0
  }

  lemma Residue4(q: int, r: int)
    requires 0 <= r < 4
    ensures (4 * q + r) % 4 == r
  {
  }

  lemma Quotient4(a: int) returns (q: int, r: int)
    ensures 0 <= r < 4 && a == 4 * q + r
  {
    q, r := a / 4, a % 4;
  }

  lemma NextResidue(a: nat)
    ensures a % 2 == 1 <==> a % 4 == 1 || a % 4 == 3
    ensures (a + 1) % 4 == if a % 4 == 3 then 0 else a % 4 + 1
  {
    EvenResidue(a);
    var q, r := Quotient4(a);
    Residue4(q, r);
    if r == 3 {
      Residue4(q + 1, 0);
    } else {
      Residue4(q, r + 1);
    }
  }

  /** The prefix depends on the last two address bits alone. */
  lemma PrefixOfResidue(address: nat, px: nat)
    requires IsPixelSize(px)
    ensures px == 1 ==> Prefix(address, px, false) == if address % 4 == 0 then 0 else 4 - address % 4
    ensures px == 2 ==> Prefix(address, px, false) == if address % 4 >= 2 then 2 else 0
    ensures px == 4 ==> Prefix(address, px, false) == 0
  {
    NextResidue(address);
    if address % 2 == 1 {
      assert px == 1 ==> Prefix(address, px, false) == 1 + if address % 4 == 3 then 0 else 2;
    } else {
      assert px == 1 ==> Prefix(address, px, false) == if address % 4 >= 2 then 2 else 0;
    }
  }

  /** Rows whose length is a multiple of the pixel size, down to a single 16- or 32-bit pixel, hold
      their prefix; only empty rows and 8-bit rows of one or two pixels may not. */
  lemma PrefixFits(address: nat, px: nat, length: nat)
    requires IsPixelSize(px) && Whole(length, px)
    ensures Prefix(address, px, false) <= length <==>
      || px == 4
      || (px == 2 && (length > 0 || address % 4 < 2))
      || (px == 1 && (address % 4 == 0 || length + address % 4 >= 4))
  {
    hide Prefix;
    PrefixOfResidue(address, px);
  }

  /** A row shorter than its prefix leaves the 32-bit counter just below 2^32. */
  lemma ShortRowWraps(address: nat, px: nat, unaligned: bool, length: nat)
    requires length < 0x1_0000_0000
    ensures Wrap32(length - Prefix(address, px, unaligned)) == length - Prefix(address, px, unaligned)
       <==> Prefix(address, px, unaligned) <= length
    ensures Prefix(address, px, unaligned) > length ==>
      Wrap32(length - Prefix(address, px, unaligned)) >= 0xffff_fffd
  {
  }

  lemma LowerResidue(x: nat)
    ensures x % 4 == if x % 8 >= 4 then x % 8 - 4 else x % 8
  {
    var q, r := x / 8, x % 8;
    assert x == 4 * (2 * q) + r;
  }

  lemma LowestResidue(x: nat)
    ensures x % 2 == if x % 4 >= 2 then x % 4 - 2 else x % 4
  {
    EvenResidue(x);
  }

  lemma TailSplit(length: nat, px: nat)
    requires Whole(length, px)
    ensures length == 8 * (length / 8) + length % 8
    ensures length % 4 == if length % 8 >= 4 then length % 8 - 4 else length % 8
    ensures length % 2 == if length % 4 >= 2 then length % 4 - 2 else length % 4
    ensures px == 4 ==> length % 4 == 0
    ensures px == 2 || px == 4 ==> length % 2 == 0
  {
    LowerResidue(length);
    LowestResidue(length);
  }

  lemma EvenDifference(a: int, b: int)
    requires a % 2 == 0 && b % 2 == 0
    ensures (a - b) % 2 == 0
  {
  }

  lemma PrefixLeavesPixels(length: nat, address: nat, px: nat, unaligned: bool)
    requires IsPixelSize(px) && Whole(length, px)
    ensures Whole(length - Prefix(address, px, unaligned), px) && Whole(Prefix(address, px, unaligned), px)
  {
    if px == 2 {
      EvenDifference(length, Prefix(address, px, unaligned));
    } else if px == 4 {
      assert Prefix(address, px, unaligned) == 0;
    }
  }

  /** The fast form paints every byte of the row exactly once and nothing else, for every length
      and alignment. `origin` is the host address of the memory's first byte. */
  method PaintRow(mem: array<Byte>, origin: nat, start: nat, length: nat, p: Brush, px: nat,
                  bigEndian: bool, unaligned: bool)
    requires Suits(p, px) && Whole(length, px) && start + length <= mem.Length
    requires Prefix(origin + start, px, unaligned) <= length
    modifies mem
    ensures mem[..] == Painted(p, old(mem[..]), start, length)
  {
    hide Painted, PaintByte;
    ghost var before := mem[..];
    PaintedNothing(p, before, start);
    PrefixLeavesPixels(length, origin + start, px, unaligned);
    var dest, left := start, length;
    if !unaligned {
      if px < 2 && (origin + dest) % 2 == 1 {
        Extend(mem, start, dest, 1, p, px, bigEndian, before);
        dest, left := dest + 1, left - 1;
      }
      if px < 4 && (origin + dest) % 4 >= 2 {
        Extend(mem, start, dest, 2, p, px, bigEndian, before);
        Steps(px, dest - start, 2);
        dest, left := dest + 2, left - 2;
      }
    }
    PaintRest(mem, start, dest, left, p, px, bigEndian, before);
  }

  method PaintRest(mem: array<Byte>, start: nat, at: nat, length: nat, p: Brush, px: nat,
                   bigEndian: bool, ghost before: seq<Byte>)
    requires IsPixelSize(px) && Suits(p, px) && Whole(length, px) && |before| == mem.Length
    requires start <= at && Whole(at - start, px) && at + length <= mem.Length
    requires mem[..] == Painted(p, before, start, at - start)
    modifies mem
    ensures mem[..] == Painted(p, before, start, at + length - start)
  {
    hide Painted, Suits;
    var dest := at;
    TailSplit(length, px);
    if length >= 8 {
      dest := PaintWords(mem, start, dest, length / 8, p, px, bigEndian, before);
    }
    assert dest == at + 8 * (length / 8);
    if length % 8 >= 4 {
      Extend(mem, start, dest, 4, p, px, bigEndian, before);
      Steps(px, dest - start, 4);
      if px <= 2 {
        dest := dest + 4;
      }
    }
    if px <= 2 && length % 4 >= 2 {
      Extend(mem, start, dest, 2, p, px, bigEndian, before);
      Steps(px, dest - start, 2);
      if px <= 1 {
        dest := dest + 2;
      }
    }
    if px <= 1 && length % 2 == 1 {
      Extend(mem, start, dest, 1, p, px, bigEndian, before);
    }
  }

  /** `memset`, which fills 8-bit rows. */
  method SetBytes(mem: array<Byte>, at: nat, value: Byte, n: nat)
    requires at + n <= mem.Length
    modifies mem
    ensures mem[..] == Painted(Fill(value, value, value, value), old(mem[..]), at, n)
  {
    hide PaintByte, Painted;
    ghost var before, p := mem[..], Fill(value, value, value, value);
    for i := 0 to n
      invariant forall a | 0 <= a < mem.Length :: mem[a] == if at <= a < at + i then value else before[a]
    {
      mem[at + i] := value;
    }
    forall a | 0 <= a < mem.Length
      ensures mem[a] == Painted(p, before, at, n)[a]
    {
      PaintedAt(p, before, at, n, a);
      FlatColour(value, a - at, before[a]);
    }
  }

  lemma FlatColour(value: Byte, i: int, was: Byte)
    ensures PaintByte(Fill(value, value, value, value), i, was) == value
  {
  }

  predicate RowFits(start: int, stride: int, w: nat, k: nat, size: nat) {
    0 <= Row(start, stride, k) && Row(start, stride, k) + w <= size
  }

  ghost predicate RowsFit(start: int, stride: int, w: nat, n: nat, size: nat) {
    forall k | 0 <= k < n :: RowFits(start, stride, w, k, size)
  }

  lemma RowFitsAt(start: int, stride: int, w: nat, n: nat, size: nat, k: nat)
    requires RowsFit(start, stride, w, n, size) && k < n
    ensures 0 <= Row(start, stride, k) && Row(start, stride, k) + w <= size
  {
    assert RowFits(start, stride, w, k, size);
  }

  /** Memory with the first `n` rows painted. */
  ghost function RowsPainted(p: Brush, mem: seq<Byte>, start: int, stride: int, w: nat, n: nat): (r: seq<Byte>)
    requires RowsFit(start, stride, w, n, |mem|)
    ensures |r| == |mem|
  {
    if n == 0 then mem else
    RowFitsAt(start, stride, w, n, |mem|, n - 1);
    Painted(p, RowsPainted(p, mem, start, stride, w, n - 1), Row(start, stride, n - 1), w)
  }

  /** How many of the first `n` rows cover address `a`. */
  function Cover(start: int, stride: int, w: nat, n: nat, a: int): nat {
    if n == 0 then 0 else
    Cover(start, stride, w, n - 1, a)
    + if Row(start, stride, n - 1) <= a < Row(start, stride, n - 1) + w then 1 else 0
  }

  /** The colour the brush `p` really lays down on pixels of `px` bytes: 8-bit rows take the
      colour's low-order byte. */
  function Laid(p: Brush, px: nat, bigEndian: bool): Brush {
    if p.Invert? || px > 1 then p
    else
      var low := ColourByte(p, if bigEndian then 3 else 0);
      Fill(low, low, low, low)
  }

  /** The rectangle operations. Rows of 8-bit fills go through `memset` and have no prefix. */
  method PaintRect(mem: array<Byte>, origin: nat, d: Rect, px: nat, width: int, height: int, p: Brush,
                   bigEndian: bool, unaligned: bool)
    requires IsPixelSize(px) && Suits(Laid(p, px, bigEndian), px) && Signed16(width * px) >= 0
    requires height > 0 ==> RowsFit(RectRow(d, true, px, 0), d.rowBytes, Signed16(width * px), height, mem.Length)
    requires p.Invert? || px > 1 ==> forall k | 0 <= k < height ::
      Row(RectRow(d, true, px, 0), d.rowBytes, k) >= 0
      && Prefix(origin + Row(RectRow(d, true, px, 0), d.rowBytes, k), px, unaligned) <= Signed16(width * px)
    modifies mem
    ensures height <= 0 ==> mem[..] == old(mem[..])
    ensures height > 0 ==> mem[..] == RowsPainted(Laid(p, px, bigEndian), old(mem[..]),
      RectRow(d, true, px, 0), d.rowBytes, Signed16(width * px), height)
  {
    hide Painted, Laid, RectRow, Prefix, Suits, RowsFit, Signed16;
    ghost var before := mem[..];
    ghost var start, q := RectRow(d, true, px, 0), Laid(p, px, bigEndian);
    var w := Signed16(width * px);
    WidthIsWhole(width, px);
    var dest := RectRow(d, true, px, 0);
    if height <= 0 {
      return;
    }
    FewerRowsFit(start, d.rowBytes, w, height, mem.Length, 0);
    for i := 0 to height
      invariant dest == Row(start, d.rowBytes, i) && RowsFit(start, d.rowBytes, w, i, |before|)
      invariant mem[..] == RowsPainted(q, before, start, d.rowBytes, w, i)
    {
      RowFitsAt(start, d.rowBytes, w, height, mem.Length, i);
      FewerRowsFit(start, d.rowBytes, w, height, mem.Length, i + 1);
      LaidIs(p, px, bigEndian);
      if px == 1 && p.Fill? {
        SetBytes(mem, dest, ColourByte(p, if bigEndian then 3 else 0), w);
      } else {
        PaintRow(mem, origin, dest, w, p, px, bigEndian, unaligned);
      }
      dest := dest + d.rowBytes;
    }
  }

  lemma LaidIs(p: Brush, px: nat, bigEndian: bool)
    ensures p.Invert? || px > 1 ==> Laid(p, px, bigEndian) == p
    ensures p.Fill? && px == 1 ==>
      var low := ColourByte(p, if bigEndian then 3 else 0); Laid(p, px, bigEndian) == Fill(low, low, low, low)
  {
  }

  lemma FewerRowsFit(start: int, stride: int, w: nat, n: nat, size: nat, k: nat)
    requires RowsFit(start, stride, w, n, size) && k <= n
    ensures RowsFit(start, stride, w, k, size)
  {
  }

  /** Even when the `int16` width wraps, it stays a whole number of pixels. */
  lemma WidthIsWhole(width: int, px: nat)
    requires IsPixelSize(px)
    ensures Whole(Signed16(width * px), px)
    ensures 0 <= width && 0 <= Signed16(width * px) ==> (Signed16(width * px) == width * px <==> width * px <= 32767)
  {
    hide *;
    SignedExact(width * px);
    PixelsAreWhole(width, px);
    WrapKeepsWhole(width * px, px);
  }

  lemma PixelsAreWhole(width: int, px: nat)
    requires IsPixelSize(px)
    ensures Whole(width * px, px)
  {
    if px == 4 {
      MultipleOfFour(width);
    }
  }

  lemma WrapKeepsWhole(x: int, px: nat)
    requires Whole(x, px)
    ensures Whole(Signed16(x), px)
  {
    WrapKeepsPixels(x);
    hide Signed16;
  }

  lemma SignedExact(x: int)
    ensures 0 <= x && 0 <= Signed16(x) ==> (Signed16(x) == x <==> x <= 32767)
  {
  }

  lemma WrapKeepsPixels(x: int)
    ensures x % 2 == 0 ==> Signed16(x) % 2 == 0
    ensures x % 4 == 0 ==> Signed16(x) % 4 == 0
  {
    var q := (x + 0x8000) / 0x1_0000;
    SignedIsShift(x, q);
    MultipleOfFour(-0x4000 * q);
    if x % 2 == 0 {
      ShiftEven(x, 4 * (-0x4000 * q));
    }
    if x % 4 == 0 {
      ShiftByFours(x, 4 * (-0x4000 * q));
    }
  }

  lemma SignedIsShift(x: int, q: int)
    requires q == (x + 0x8000) / 0x1_0000
    ensures Signed16(x) == x + 4 * (-0x4000 * q)
  {
  }

  lemma MultipleOfFour(k: int)
    ensures 4 * k % 4 == 0 && 4 * k % 2 == 0
  {
    assert 4 * k == 2 * (2 * k);
  }

  /** A byte under none of the rows keeps its value. */
  lemma {:induction false} PaintedOutside(p: Brush, mem: seq<Byte>, start: int, stride: int, w: nat, n: nat, a: nat)
    requires RowsFit(start, stride, w, n, |mem|) && a < |mem|
    requires forall k | 0 <= k < n :: Apart(Row(start, stride, k), w, a, 1)
    ensures RowsPainted(p, mem, start, stride, w, n)[a] == mem[a]
  {
    hide Painted, PaintByte, Row, RowsFit;
    if n > 0 {
      FewerRowsFit(start, stride, w, n, |mem|, n - 1);
      RowFitsAt(start, stride, w, n, |mem|, n - 1);
      PaintedOutside(p, mem, start, stride, w, n - 1, a);
      PaintedAt(p, RowsPainted(p, mem, start, stride, w, n - 1), Row(start, stride, n - 1), w, a);
    }
  }

  /** With rows no longer than their distance, every byte of the rectangle is painted exactly once:
      it becomes what the brush makes of the original byte at its place in the row. */
  lemma {:induction false} PaintedInside(p: Brush, mem: seq<Byte>, start: int, stride: int, w: nat, n: nat,
                                         k: nat, x: nat)
    requires RowsFit(start, stride, w, n, |mem|) && (w <= stride || w <= -stride) && k < n && x < w
    ensures RowFits(start, stride, w, k, |mem|)
    ensures RowsPainted(p, mem, start, stride, w, n)[Row(start, stride, k) + x]
         == PaintByte(p, x, mem[Row(start, stride, k) + x])
  {
    hide Painted, PaintByte, RowsFit;
    FewerRowsFit(start, stride, w, n, |mem|, n - 1);
    RowFitsAt(start, stride, w, n, |mem|, n - 1);
    RowFitsAt(start, stride, w, n, |mem|, k);
    var a := Row(start, stride, k) + x;
    PaintedAt(p, RowsPainted(p, mem, start, stride, w, n - 1), Row(start, stride, n - 1), w, a);
    if k < n - 1 {
      PaintedInside(p, mem, start, stride, w, n - 1, k, x);
      RowDistance(start, stride, k, n - 1);
      RowGrows(stride, n - 1 - k);
    } else {
      forall j | 0 <= j < k
        ensures Apart(Row(start, stride, j), w, a, 1)
      {
        RowDistance(start, stride, j, k);
        RowGrows(stride, k - j);
      }
      PaintedOutside(p, mem, start, stride, w, k, a);
    }
  }

  /** Inverting flips a byte once for every row that covers it. */
  lemma {:induction false} InvertedAt(mem: seq<Byte>, start: int, stride: int, w: nat, n: nat, a: nat)
    requires RowsFit(start, stride, w, n, |mem|) && a < |mem|
    ensures RowsPainted(Invert, mem, start, stride, w, n)[a]
         == if Cover(start, stride, w, n, a) % 2 == 0 then mem[a] else 255 - mem[a]
  {
    hide Painted, Row, RowsFit;
    if n > 0 {
      FewerRowsFit(start, stride, w, n, |mem|, n - 1);
      RowFitsAt(start, stride, w, n, |mem|, n - 1);
      InvertedAt(mem, start, stride, w, n - 1, a);
      PaintedAt(Invert, RowsPainted(Invert, mem, start, stride, w, n - 1), Row(start, stride, n - 1), w, a);
    }
  }

  /** Inverting a rectangle twice is the identity, overlapping rows included. */
  lemma InvertTwice(mem: seq<Byte>, start: int, stride: int, w: nat, n: nat)
    requires RowsFit(start, stride, w, n, |mem|)
    ensures RowsPainted(Invert, RowsPainted(Invert, mem, start, stride, w, n), start, stride, w, n) == mem
  {
    hide RowsPainted, RowsFit, Cover;
    var once := RowsPainted(Invert, mem, start, stride, w, n);
    forall a | 0 <= a < |mem|
      ensures RowsPainted(Invert, once, start, stride, w, n)[a] == mem[a]
    {
      InvertedAt(mem, start, stride, w, n, a);
      InvertedAt(once, start, stride, w, n, a);
    }
  }

  lemma PixelIsWhole(i: nat, px: nat)
    requires IsPixelSize(px)
    ensures Whole(i * px, px)
  {
  }

  /** The brush's byte `b` of a pixel: for 8-bit pixels the low-order byte of the colour. */
  function PixelByte(p: Brush, px: nat, bigEndian: bool, b: nat, was: Byte): Byte
    requires b < 4
  {
    if p.Invert? then 255 - was
    else if px == 1 then (if bigEndian then p.b3 else p.b0)
    else [p.b0, p.b1, p.b2, p.b3][b]
  }

  lemma LaidByte(p: Brush, px: nat, bigEndian: bool, b: nat, was: Byte)
    requires IsPixelSize(px) && b < px
    ensures PaintByte(Laid(p, px, bigEndian), b, was) == PixelByte(p, px, bigEndian, b, was)
  {
  }

  /** Every pixel of the rectangle gets the colour, or its complement. */
  lemma PixelPainted(p: Brush, mem: seq<Byte>, d: Rect, px: nat, width: nat, height: int, bigEndian: bool,
                     i: nat, j: nat, b: nat)
    requires IsPixelSize(px) && Suits(Laid(p, px, bigEndian), px) && i < width && j < height && b < px
    requires width * px <= d.rowBytes || width * px <= -d.rowBytes
    requires RowsFit(RectRow(d, true, px, 0), d.rowBytes, width * px, height, |mem|)
    ensures var a := PixelAt(d.base, d.rowBytes, px, d.x + i, d.y + j) + b;
      && 0 <= a < |mem|
      && RowsPainted(Laid(p, px, bigEndian), mem, RectRow(d, true, px, 0), d.rowBytes, width * px, height)[a]
         == PixelByte(p, px, bigEndian, b, mem[a])
  {
    hide RowsFit, RowsPainted, RectRow, Laid, PaintByte, PixelByte, PixelAt, Suits, Row, Whole;
    var start, q := RectRow(d, true, px, 0), Laid(p, px, bigEndian);
    PixelInRow(px, width, i);
    PaintedInside(q, mem, start, d.rowBytes, width * px, height, j, i * px + b);
    RowFitsAt(start, d.rowBytes, width * px, height, |mem|, j);
    PixelPlace(d, px, i, j);
    PixelIsWhole(i, px);
    var a := PixelAt(d.base, d.rowBytes, px, d.x + i, d.y + j) + b;
    PhaseShift(q, px, i * px, b, mem[a]);
    LaidByte(p, px, bigEndian, b, mem[a]);
  }

  lemma PixelPlace(d: Rect, px: nat, i: nat, j: nat)
    ensures PixelAt(d.base, d.rowBytes, px, d.x + i, d.y + j) == Row(RectRow(d, true, px, 0), d.rowBytes, j) + i * px
  {
    RowHoldsPixels(d, true, px, i, j);
    RowIs(RectRow(d, true, px, 0), d.rowBytes, j);
    assert (d.y + j) * d.rowBytes == (d.y + 0) * d.rowBytes + j * d.rowBytes;
  }
}
