/** The bit-level parts of a stream: its flag word and the bits of its group SAP map. */
module EtherBits {
  const SNAP_STREAM: bv32 := 1
  const ACCEPT_MULTICASTS: bv32 := 2
  const ACCEPT_ALL_8022: bv32 := 4
  const FAST_PATH: bv32 := 8

  predicate Odd(b: bv8) {
    b & 1 == 1
  }

  /** A SAP's bit number within its word. */
  function BitOf(sap: bv8): bv8 {
    (sap >> 1) & 0x1f
  }

  function Mask(sap: bv8): bv32 {
    (1 as bv32) << BitOf(sap)
  }

  function WithBit(w: bv32, sap: bv8): bv32 {
    Raised(w, Mask(sap))
  }

  function WithoutBit(w: bv32, sap: bv8): bv32 {
    Lowered(w, Mask(sap))
  }

  predicate BitIn(w: bv32, sap: bv8) {
    Has(w, Mask(sap))
  }

  lemma GlobalIsOdd()
    ensures Odd(0xff)
  {
  }

  lemma BitDetermines(s: bv8, t: bv8)
    requires Odd(s) && Odd(t) && s >> 6 == t >> 6 && BitOf(s) == BitOf(t)
    ensures s == t
  {
  }

  lemma ShiftsDisjoint(a: bv8, b: bv8)
    requires a < 32 && b < 32 && a != b
    ensures ((1 as bv32) << a) & ((1 as bv32) << b) == 0
  {
  }

  lemma BitSmall(s: bv8)
    ensures BitOf(s) < 32
  {
  }

  lemma ShiftNonZero(a: bv8)
    requires a < 32
    ensures ((1 as bv32) << a) != 0
  {
  }

  lemma OtherBitKept(w: bv32, m: bv32, n: bv32)
    requires !Has(m, n)
    ensures Has(Raised(w, m), n) <==> Has(w, n)
  {
  }

  lemma OtherBitStays(w: bv32, m: bv32, n: bv32)
    requires !Has(m, n)
    ensures Has(Lowered(w, m), n) <==> Has(w, n)
  {
  }

  lemma OwnBitRaised(w: bv32, m: bv32)
    requires m != 0
    ensures Has(Raised(w, m), m)
  {
    assert (w | m) & m == m;
  }

  lemma OwnBitLowered(w: bv32, m: bv32)
    ensures !Has(Lowered(w, m), m)
  {
  }

  /** Within one word, two group SAPs have different bits. */
  lemma MasksDisjoint(s: bv8, t: bv8)
    requires Odd(s) && Odd(t) && s >> 6 == t >> 6 && s != t
    ensures !Has(Mask(s), Mask(t))
  {
    hide Odd, BitOf;
    BitSmall(s);
    BitSmall(t);
    if BitOf(s) == BitOf(t) {
      BitDetermines(s, t);
    } else {
      ShiftsDisjoint(BitOf(s), BitOf(t));
    }
  }

  lemma MaskNonZero(s: bv8)
    ensures Mask(s) != 0
  {
    hide BitOf;
    BitSmall(s);
    ShiftNonZero(BitOf(s));
  }

  lemma OneBitSet(w: bv32, s: bv8, t: bv8)
    requires Odd(s) && Odd(t) && s >> 6 == t >> 6
    ensures BitIn(WithBit(w, s), t) <==> s == t || BitIn(w, t)
  {
    hide Odd, Mask, Has, Raised;
    if s == t {
      MaskNonZero(s);
      OwnBitRaised(w, Mask(s));
    } else {
      MasksDisjoint(s, t);
      OtherBitKept(w, Mask(s), Mask(t));
    }
  }

  lemma OneBitCleared(w: bv32, s: bv8, t: bv8)
    requires Odd(s) && Odd(t) && s >> 6 == t >> 6
    ensures BitIn(WithoutBit(w, s), t) <==> s != t && BitIn(w, t)
  {
    hide Odd, Mask, Has, Lowered;
    if s == t {
      OwnBitLowered(w, Mask(s));
    } else {
      MasksDisjoint(s, t);
      OtherBitStays(w, Mask(s), Mask(t));
    }
  }

  lemma NoBitIn(s: bv8)
    ensures !BitIn(0, s)
  {
  }

  predicate Has(flags: bv32, flag: bv32) {
    flags & flag != 0
  }

  function Raised(flags: bv32, flag: bv32): bv32 {
    flags | flag
  }

  function Lowered(flags: bv32, flag: bv32): bv32 {
    flags & !flag
  }

  predicate IsFlag(m: bv32) {
    m == SNAP_STREAM || m == ACCEPT_MULTICASTS || m == ACCEPT_ALL_8022 || m == FAST_PATH
  }

  lemma RaiseFlag(f: bv32, m: bv32)
    requires IsFlag(m)
    ensures Has(Raised(f, m), SNAP_STREAM) <==> m == SNAP_STREAM || Has(f, SNAP_STREAM)
    ensures Has(Raised(f, m), ACCEPT_MULTICASTS) <==> m == ACCEPT_MULTICASTS || Has(f, ACCEPT_MULTICASTS)
    ensures Has(Raised(f, m), ACCEPT_ALL_8022) <==> m == ACCEPT_ALL_8022 || Has(f, ACCEPT_ALL_8022)
    ensures Has(Raised(f, m), FAST_PATH) <==> m == FAST_PATH || Has(f, FAST_PATH)
  {
  }

  lemma LowerFlag(f: bv32, m: bv32)
    requires IsFlag(m)
    ensures Has(Lowered(f, m), SNAP_STREAM) <==> m != SNAP_STREAM && Has(f, SNAP_STREAM)
    ensures Has(Lowered(f, m), ACCEPT_MULTICASTS) <==> m != ACCEPT_MULTICASTS && Has(f, ACCEPT_MULTICASTS)
    ensures Has(Lowered(f, m), ACCEPT_ALL_8022) <==> m != ACCEPT_ALL_8022 && Has(f, ACCEPT_ALL_8022)
    ensures Has(Lowered(f, m), FAST_PATH) <==> m != FAST_PATH && Has(f, FAST_PATH)
  {
  }

  lemma NoFlags()
    ensures !Has(0, SNAP_STREAM) && !Has(0, ACCEPT_MULTICASTS) && !Has(0, ACCEPT_ALL_8022) && !Has(0, FAST_PATH)
  {
  }
}
