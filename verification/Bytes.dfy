/** Bytes, fixed-width integers and little helpers shared by the modules of this project. */
module Bytes {
  type Byte = x: int | 0 <= x < 256

  type Word = x: int | 0 <= x < 0x1_0000_0000

  function Wrap16(x: int): (w: int)
    ensures 0 <= w < 0x1_0000
  {
    x % 0x1_0000
  }

  function Wrap32(x: int): (w: Word) {
    x % 0x1_0000_0000
  }

  predicate IsInt32(x: int) {
    -0x8000_0000 <= x < 0x8000_0000
  }

  predicate IsInt64(x: int) {
    -0x8000_0000_0000_0000 <= x < 0x8000_0000_0000_0000
  }

  function Signed32(x: int): (w: int)
    ensures IsInt32(w) && (IsInt32(x) ==> w == x)
  {
    (x + 0x8000_0000) % 0x1_0000_0000 - 0x8000_0000
  }

  function Signed64(x: int): (w: int)
    ensures IsInt64(w) && (IsInt64(x) ==> w == x)
  {
    (x + 0x8000_0000_0000_0000) % 0x1_0000_0000_0000_0000 - 0x8000_0000_0000_0000
  }

  /** The value an `int16` variable keeps of `x`. */
  function Signed16(x: int): (w: int)
    ensures -32768 <= w < 32768
  {
    (x + 0x8000) % 0x1_0000 - 0x8000
  }

  predicate NoDuplicates<T(==)>(a: seq<T>) {
    forall i, j | 0 <= i < j < |a| :: a[i] != a[j]
  }

  /** `mem` with `data` stored from position `at` on. */
  function Overwrite(mem: seq<Byte>, at: nat, data: seq<Byte>): (r: seq<Byte>)
    requires at + |data| <= |mem|
    ensures |r| == |mem|
  {
    mem[..at] + data + mem[at + |data|..]
  }

  /** Two stretches of memory share no byte. */
  predicate Apart(a: int, n: nat, b: int, m: nat) {
    a + n <= b || b + m <= a
  }

  lemma OverwriteHits(mem: seq<Byte>, at: nat, data: seq<Byte>)
    requires at + |data| <= |mem|
    ensures Overwrite(mem, at, data)[at..at + |data|] == data
  {
  }

  lemma OverwriteMisses(mem: seq<Byte>, at: nat, data: seq<Byte>, b: nat, m: nat)
    requires at + |data| <= |mem| && b + m <= |mem| && Apart(at, |data|, b, m)
    ensures Overwrite(mem, at, data)[b..b + m] == mem[b..b + m]
  {
    var after := Overwrite(mem, at, data);
    var now, was := after[b..b + m], mem[b..b + m];
    forall i | 0 <= i < m
      ensures now[i] == was[i]
    {
      assert after[b + i] == mem[b + i];
    }
  }

  lemma OverwriteSlice(mem: seq<Byte>, lo: nat, hi: nat, off: nat, data: seq<Byte>)
    requires lo <= hi <= |mem| && off + |data| <= hi - lo
    ensures Overwrite(mem, lo + off, data)[lo..hi] == Overwrite(mem[lo..hi], off, data)
  {
    var after, mid, end := Overwrite(mem, lo + off, data), lo + off, lo + off + |data|;
    OverwriteMisses(mem, mid, data, lo, off);
    OverwriteHits(mem, mid, data);
    OverwriteMisses(mem, mid, data, end, hi - end);
    assert after[lo..hi] == after[lo..mid] + after[mid..end] + after[end..hi];
    assert mem[lo..hi][..off] == mem[lo..mid] && mem[lo..hi][off + |data|..] == mem[end..hi];
  }

  lemma OverwriteFront(front: seq<Byte>, back: seq<Byte>, at: nat, data: seq<Byte>)
    requires at + |data| <= |front|
    ensures Overwrite(front + back, at, data) == Overwrite(front, at, data) + back
  {
  }

  datatype Option<+T> = None | Some(value: T)
}
