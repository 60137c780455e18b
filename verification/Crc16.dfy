/** The table-driven CRC-16 of src/crc16.c, refining division by the generator. */
module Crc16 {
  import opened Gf2
  import opened Bytes

  /** One shift of the CRC register, for a generator with these low sixteen coefficients. */
  function ShiftBy(poly: bv16, w: bv16): bv16 {
    (w << 1) ^ (if w & 0x8000 != 0 then poly else 0)
  }

  function ShiftsBy(poly: bv16, w: bv16, n: nat): bv16 {
    if n == 0 then w else ShiftBy(poly, ShiftsBy(poly, w, n - 1))
  }

  const BYTE_BITS: nat := 8

  /** Addition of words; hidden where only its laws matter, like the functions below. */
  function Xored(v: bv16, w: bv16): bv16 { v ^ w }

  function Up(w: bv16): bv16 { w << 8 }

  function CrcWord(poly: bv16, crc: bv16, w: bv16): bv16 { ShiftsBy(poly, Xored(crc, Up(w)), BYTE_BITS) }

  /** The register after one message byte. */
  function CrcByte(poly: bv16, crc: bv16, b: byte): bv16 { CrcWord(poly, crc, b as bv16) }

  /** The register after a message. */
  function CrcFrom(poly: bv16, crc: bv16, data: seq<byte>): bv16 {
    if data == [] then crc else CrcByte(poly, CrcFrom(poly, crc, data[..|data| - 1]), data[|data| - 1])
  }

  /** The generator of the library, x^16 + x^12 + x^5 + 1. */
  function ShiftWord(w: bv16): bv16 { ShiftBy(0x1021, w) }

  /** The CRC of a block: initial value and final xor are zero (src/lmodem_priv.h). */
  function Crc(data: seq<byte>): bv16 { CrcFrom(0x1021, 0, data) }

  // ----------------------------------------------- the register is a remainder

  predicate Carry(w: bv16) { w & 0x8000 != 0 }

  lemma WithoutCarry(poly: bv16, w: bv16, next: bv16)
    requires !Carry(w) && next == ShiftBy(poly, w)
    ensures next == w << 1
  {
    assert (w << 1) ^ 0 == w << 1;
  }

  lemma WithCarry(poly: bv16, w: bv16, next: bv16)
    requires Carry(w) && next == ShiftBy(poly, w)
    ensures next == (w << 1) ^ poly
  {
  }

  lemma ShiftSetBits(w: bv16, x: bv16)
    requires Carry(w) && x == w << 1
    ensures WordBits(ShiftWord(w)) == WordBits(x ^ 0x1021)
  {
    WithCarry(0x1021, w, ShiftWord(w));
  }

  lemma ShiftSetAdds(w: bv16, x: bv16)
    requires Carry(w) && x == w << 1
    ensures WordBits(ShiftWord(w)) == Add(WordBits(x), WordBits(0x1021))
  {
    ShiftSetBits(w, x);
    XorIsAdd(x, 0x1021);
  }

  lemma ShiftWordIsStep(w: bv16)
    ensures WordBits(ShiftWord(w)) == Step(WordBits(w))
  {
    ConstantBits();
    ShiftBits(w);
    assert WordBits(w)[0] == (w & 0x8000 != 0);
    if Carry(w) {
      ShiftSetAdds(w, w << 1);
    } else {
      WithoutCarry(0x1021, w, ShiftWord(w));
    }
  }

  lemma {:induction false} ShiftsAreSteps(w: bv16, n: nat)
    ensures WordBits(ShiftsBy(0x1021, w, n)) == Steps(WordBits(w), n)
  {
    hide ShiftBy, WordBits, Step;
    if n == 0 {
    } else {
      ShiftsAreSteps(w, n - 1);
      ShiftWordIsStep(ShiftsBy(0x1021, w, n - 1));
    }
  }

  /** Eight shifts of a polynomial of degree below eight reduce nothing. */
  lemma StepsLowByte(p: Poly)
    requires |p| == 8
    ensures Steps(Zeros(8) + p, 8) == p + Zeros(8)
  {
    RemainderShort(p);
    RemainderConcat(p, Zeros(8));
    RemainderZeros(8);
    AddZero(Steps(Zeros(8) + p, 8));
    RemainderShort(p + Zeros(8));
  }

  lemma CrcWordBits(crc: bv16, w: bv16)
    ensures WordBits(CrcWord(0x1021, crc, w)) == Steps(Add(WordBits(crc), WordBits(w)[8..] + Zeros(8)), 8)
  {
    hide WordBits, Xored, Up, ShiftsBy, Steps, Add;
    CrcWordIs(0x1021, crc, w);
    UpBits(w);
    SumBits(crc, Up(w));
    ShiftsAreSteps(Xored(crc, Up(w)), 8);
  }

  lemma CrcWordIs(poly: bv16, crc: bv16, w: bv16)
    ensures CrcWord(poly, crc, w) == ShiftsBy(poly, Xored(crc, Up(w)), 8)
  {
    hide ShiftsBy, Xored, Up;
  }

  lemma UpBits(w: bv16)
    ensures WordBits(Up(w)) == WordBits(w)[8..] + Zeros(8)
  {
    hide WordBits;
    ByteShiftBits(w);
  }

  lemma SumBits(v: bv16, w: bv16)
    ensures WordBits(Xored(v, w)) == Add(WordBits(v), WordBits(w))
  {
    hide WordBits, Add;
    XorIsAdd(v, w);
  }

  /** The remainder of M(x) * X^16, one message byte at a time. */
  lemma RemainderNextByte(m: Poly, p: Poly)
    requires |p| == 8
    ensures Remainder(m + p + Zeros(16)) ==
            Steps(Add(Remainder(m + Zeros(16)), p + Zeros(8)), 8)
  {
    var r := Remainder(m);
    TimesX16(m);
    TimesX16(m + p);
    RemainderConcat(m, p);
    RemainderShort(p);
    StepsLinear(Steps(r, 8), Zeros(8) + p, 16);
    StepsAdd(r, 8, 16);
    StepsAdd(Zeros(8) + p, 8, 8);
    StepsLowByte(p);
    StepsLinear(Steps(r, 16), p + Zeros(8), 8);
    StepsAdd(r, 16, 8);
  }

  lemma TimesX16(m: Poly)
    ensures Remainder(m + Zeros(16)) == Steps(Remainder(m), 16)
  {
    RemainderConcat(m, Zeros(16));
    RemainderZeros(16);
    AddZero(Steps(Remainder(m), 16));
  }

  /**
   Section 8.1.1 of the Protocol Reference: the CRC is the remainder of the message polynomial
   multiplied by X^16.
   */
  lemma {:induction false} CrcIsRemainder(data: seq<byte>)
    ensures WordBits(Crc(data)) == Remainder(Bits(data) + Zeros(16))
    decreases |data|
  {
    hide CrcWord, WordBits, ByteBits, Remainder, Steps, Add;
    if data == [] {
      ConstantBits();
      RemainderZeros(16);
      assert Bits(data) + Zeros(16) == Zeros(16);
    } else {
      var n := |data| - 1;
      CrcIsRemainder(data[..n]);
      CrcNextByte(Crc(data[..n]), data[n]);
      RemainderNextByte(Bits(data[..n]), ByteBits(data[n]));
    }
  }

  lemma CrcNextByte(crc: bv16, b: byte)
    ensures WordBits(CrcByte(0x1021, crc, b)) == Steps(Add(WordBits(crc), ByteBits(b) + Zeros(8)), 8)
  {
    CrcWordBits(crc, b as bv16);
  }

  // -------------------------------------------------------------- the lookup table

  /** The low half of the builder's 32-bit accumulator. */
  function Low(x: bv32): bv16 { (x & 0xffff) as bv16 }

  function TableEntry(poly: bv16, k: bv32): bv16 { ShiftsBy(poly, Low(k << 8), BYTE_BITS) }

  function Entry(poly: bv16, k: nat): bv16
    requires k < 256
  {
    TableEntry(poly, k as bv32)
  }

  lemma ShiftClearWide(poly: bv16, crc: bv32, next: bv32)
    requires crc & 0x8000 == 0 && next == crc << 1
    ensures Low(next) == ShiftBy(poly, Low(crc))
  {
    hide ShiftBy, Low, Carry;
    LowOf(crc);
    LowOf(next);
    WideNoCarry(crc, next, Low(crc), Low(next));
    WithoutCarry(poly, Low(crc), ShiftBy(poly, Low(crc)));
  }

  lemma WideNoCarry(crc: bv32, next: bv32, low: bv16, nextLow: bv16)
    requires crc & 0x8000 == 0 && next == crc << 1
    requires low == (crc & 0xffff) as bv16 && nextLow == (next & 0xffff) as bv16
    ensures !Carry(low) && nextLow == low << 1
  {
  }

  lemma ShiftSetWide(poly: bv16, crc: bv32, next: bv32)
    requires crc & 0x8000 != 0 && next == (crc << 1) ^ (poly as bv32)
    ensures Low(next) == ShiftBy(poly, Low(crc))
  {
    hide ShiftBy, Low, Carry;
    LowOf(crc);
    LowOf(next);
    WideCarry(poly, crc, next, Low(crc), Low(next));
    WithCarry(poly, Low(crc), ShiftBy(poly, Low(crc)));
  }

  lemma LowOf(x: bv32)
    ensures Low(x) == (x & 0xffff) as bv16
  {
  }

  lemma WideCarry(poly: bv16, crc: bv32, next: bv32, low: bv16, nextLow: bv16)
    requires crc & 0x8000 != 0 && next == (crc << 1) ^ (poly as bv32)
    requires low == (crc & 0xffff) as bv16 && nextLow == (next & 0xffff) as bv16
    ensures Carry(low) && nextLow == (low << 1) ^ poly
  {
  }

  lemma SumOf(v: bv16, w: bv16)
    ensures Xored(v, w) == v ^ w
  {
  }

  lemma SumCommutes(v: bv16, w: bv16)
    ensures Xored(v, w) == Xored(w, v)
  {
  }

  lemma CarryOfSum(v: bv16, w: bv16, x: bv16)
    requires x == Xored(v, w)
    ensures Carry(x) <==> (Carry(v) <==> !Carry(w))
  {
  }

  lemma XorNoCarry(v: bv16, w: bv16, x: bv16, a: bv16, b: bv16, c: bv16)
    requires x == v ^ w && a == v << 1 && b == w << 1 && c == x << 1
    ensures c == a ^ b
  {
  }

  lemma XorOneCarry(poly: bv16, v: bv16, w: bv16, x: bv16, a: bv16, b: bv16, c: bv16)
    requires x == v ^ w && a == v << 1 && b == (w << 1) ^ poly && c == (x << 1) ^ poly
    ensures c == a ^ b
  {
  }

  lemma XorTwoCarries(poly: bv16, v: bv16, w: bv16, x: bv16, a: bv16, b: bv16, c: bv16)
    requires x == v ^ w && a == (v << 1) ^ poly && b == (w << 1) ^ poly && c == x << 1
    ensures c == a ^ b
  {
  }

  lemma NoCarry(v: bv16, w: bv16, x: bv16, a: bv16, b: bv16, c: bv16)
    requires x == Xored(v, w) && a == v << 1 && b == w << 1 && c == x << 1
    ensures c == Xored(a, b)
  {
    hide Xored;
    SumOf(v, w);
    SumOf(a, b);
    XorNoCarry(v, w, x, a, b, c);
  }

  lemma OneCarry(poly: bv16, v: bv16, w: bv16, x: bv16, a: bv16, b: bv16, c: bv16)
    requires x == Xored(v, w) && a == v << 1 && b == (w << 1) ^ poly && c == (x << 1) ^ poly
    ensures c == Xored(a, b)
  {
    hide Xored;
    SumOf(v, w);
    SumOf(a, b);
    XorOneCarry(poly, v, w, x, a, b, c);
  }

  lemma TwoCarries(poly: bv16, v: bv16, w: bv16, x: bv16, a: bv16, b: bv16, c: bv16)
    requires x == Xored(v, w) && a == (v << 1) ^ poly && b == (w << 1) ^ poly && c == x << 1
    ensures c == Xored(a, b)
  {
    hide Xored;
    SumOf(v, w);
    SumOf(a, b);
    XorTwoCarries(poly, v, w, x, a, b, c);
  }

  /** A shift of a sum is the sum of the shifts: carries out of both words cancel. */
  lemma ShiftLinear(poly: bv16, v: bv16, w: bv16, x: bv16, a: bv16, b: bv16, c: bv16)
    requires x == Xored(v, w) && a == ShiftBy(poly, v) && b == ShiftBy(poly, w) && c == ShiftBy(poly, x)
    ensures c == Xored(a, b)
  {
    hide ShiftBy, Carry, Xored;
    CarryOfSum(v, w, x);
    if !Carry(v) {
      WithoutCarry(poly, v, a);
      if !Carry(w) {
        WithoutCarry(poly, w, b);
        WithoutCarry(poly, x, c);
        NoCarry(v, w, x, a, b, c);
      } else {
        WithCarry(poly, w, b);
        WithCarry(poly, x, c);
        OneCarry(poly, v, w, x, a, b, c);
      }
    } else {
      WithCarry(poly, v, a);
      if !Carry(w) {
        WithoutCarry(poly, w, b);
        WithCarry(poly, x, c);
        SumCommutes(v, w);
        OneCarry(poly, w, v, x, b, a, c);
        SumCommutes(a, b);
      } else {
        WithCarry(poly, w, b);
        WithoutCarry(poly, x, c);
        TwoCarries(poly, v, w, x, a, b, c);
      }
    }
  }

  lemma {:induction false} ShiftsLinear(poly: bv16, v: bv16, w: bv16, x: bv16, n: nat)
    requires x == Xored(v, w)
    ensures ShiftsBy(poly, x, n) == Xored(ShiftsBy(poly, v, n), ShiftsBy(poly, w, n))
  {
    hide ShiftBy, Xored;
    if n == 0 {
    } else {
      ShiftsLinear(poly, v, w, x, n - 1);
      ShiftLinear(poly, ShiftsBy(poly, v, n - 1), ShiftsBy(poly, w, n - 1), ShiftsBy(poly, x, n - 1),
                  ShiftsBy(poly, v, n), ShiftsBy(poly, w, n), ShiftsBy(poly, x, n));
    }
  }

  function Double(w: bv16): bv16 { w << 1 }

  /** One shift of a word without its highest bit. */
  lemma ShiftOnce(poly: bv16, w: bv16, v: bv16, n: nat)
    requires ShiftsBy(poly, w, n) == v && !Carry(v)
    ensures ShiftsBy(poly, w, n + 1) == Double(v)
  {
    hide ShiftBy, Carry, Double;
    ShiftIsDouble(poly, v);
  }

  lemma ShiftIsDouble(poly: bv16, v: bv16)
    requires !Carry(v)
    ensures ShiftBy(poly, v) == Double(v)
  {
    WithoutCarry(poly, v, ShiftBy(poly, v));
  }

  /** Four shifts of a word without its four highest bits. */
  lemma FourShifts(poly: bv16, w: bv16, v: bv16, n: nat, next: bv16)
    requires ShiftsBy(poly, w, n) == v && IsNibbleUp(v, next)
    ensures ShiftsBy(poly, w, n + 4) == next
  {
    hide ShiftsBy, Carry, Double, IsNibbleUp;
    NibbleShiftsUp(v, Double(v), Double(Double(v)), Double(Double(Double(v))), next);
    ShiftOnce(poly, w, v, n);
    ShiftOnce(poly, w, Double(v), n + 1);
    ShiftOnce(poly, w, Double(Double(v)), n + 2);
    ShiftOnce(poly, w, Double(Double(Double(v))), n + 3);
  }

  ghost predicate IsNibbleUp(v: bv16, next: bv16) { v & 0xf000 == 0 && next == v << 4 }

  lemma NibbleShiftsUp(v: bv16, v1: bv16, v2: bv16, v3: bv16, next: bv16)
    requires IsNibbleUp(v, next) && v1 == Double(v) && v2 == Double(v1) && v3 == Double(v2)
    ensures !Carry(v) && !Carry(v1) && !Carry(v2) && !Carry(v3) && next == Double(v3)
  {
  }

  lemma NoShift(poly: bv16, w: bv16)
    ensures ShiftsBy(poly, w, 0) == w
  {
  }

  /** Eight shifts of a byte meet no carry. */
  lemma LowByteShifts(poly: bv16, w: bv16)
    requires FitsByte(w)
    ensures ShiftsBy(poly, w, 8) == Up(w)
  {
    hide ShiftsBy, FitsByte, Up, IsNibbleUp;
    NoShift(poly, w);
    ByteInNibbles(w, w << 4);
    FourShifts(poly, w, w, 0, w << 4);
    FourShifts(poly, w, w << 4, 4, Up(w));
  }

  lemma ByteInNibbles(w: bv16, v: bv16)
    requires FitsByte(w) && v == w << 4
    ensures IsNibbleUp(w, v) && IsNibbleUp(v, Up(w))
  {
  }

  predicate FitsByte(w: bv16) { w & 0xff == w }

  function LowPart(w: bv16): bv16 { w & 0xff }

  /** The index of the look-up. */
  function High(crc: bv16, w: bv16): bv16 { ((crc >> 8) ^ w) & 0xff }

  ghost predicate IsIndex(crc: bv16, w: bv16, k: bv32) { k == High(crc, w) as bv32 }

  /** Looking up the high byte does eight shifts at once, whatever the polynomial. */
  lemma TableDoesEightShifts(poly: bv16, crc: bv16, w: bv16, k: bv32, entry: bv16)
    requires FitsByte(w) && IsIndex(crc, w, k) && entry == TableEntry(poly, k)
    ensures Xored(Up(crc), entry) == CrcWord(poly, crc, w)
  {
    hide FitsByte, High, Up, Xored, Low, ShiftsBy, TableEntry, CrcWord, LowPart;
    EntryOfByte(poly, High(crc, w), k);
    SplitWords(crc, w, High(crc, w), LowPart(crc));
    ShiftsLinear(poly, Up(High(crc, w)), LowPart(crc), Xored(crc, Up(w)), 8);
    LowByteShifts(poly, LowPart(crc));
    SumCommutes(Up(crc), entry);
    CrcWordIs(poly, crc, w);
  }

  lemma EntryOfByte(poly: bv16, x: bv16, k: bv32)
    requires k == x as bv32
    ensures TableEntry(poly, k) == ShiftsBy(poly, Up(x), 8)
  {
    hide ShiftsBy, Low, Up;
    LowOfByte(x, k);
  }

  lemma LowOfByte(x: bv16, k: bv32)
    requires k == x as bv32
    ensures Low(k << 8) == Up(x)
  {
  }

  /** The register with the message byte folded in: the looked up part and the rest. */
  lemma SplitWords(crc: bv16, w: bv16, x: bv16, low: bv16)
    requires FitsByte(w) && x == High(crc, w) && low == LowPart(crc)
    ensures Xored(crc, Up(w)) == Xored(Up(x), low) && FitsByte(low) && Up(low) == Up(crc)
  {
    hide Xored, Up;
    UpIs(x);
    UpIs(w);
    UpIs(low);
    UpIs(crc);
    SumOf(crc, w << 8);
    SumOf(x << 8, low);
    XorSplit(crc, w, x, x << 8, low, crc ^ (w << 8));
  }

  lemma IsUp(w: bv16, up: bv16)
    requires up == w << 8
    ensures Up(w) == up
  {
  }

  lemma IsXored(v: bv16, w: bv16, x: bv16)
    requires x == v ^ w
    ensures Xored(v, w) == x
  {
  }

  lemma UpIs(w: bv16)
    ensures Up(w) == w << 8
  {
  }

  lemma XorSplit(crc: bv16, w: bv16, x: bv16, high: bv16, low: bv16, all: bv16)
    requires w & 0xff == w && x == ((crc >> 8) ^ w) & 0xff
    requires high == x << 8 && low == crc & 0xff && all == crc ^ (w << 8)
    ensures all == high ^ low && low & 0xff == low && low << 8 == crc << 8
  {
  }

  /** A table for a polynomial. */
  ghost predicate IsTable(poly: bv16, tab: seq<bv16>) {
    |tab| == 256 && forall k: int :: 0 <= k < 256 ==> tab[k] == Entry(poly, k)
  }

  lemma EntryAt(poly: bv16, tab: seq<bv16>, k: int)
    requires IsTable(poly, tab) && 0 <= k < 256
    ensures |tab| == 256 && tab[k] == TableEntry(poly, k as bv32)
  {
    hide TableEntry;
  }

  /** The entry that the high byte and the message byte select takes the register one byte further. */
  lemma Lookup(poly: bv16, tab: seq<bv16>, crc: bv16, w: bv16, k: bv32, i: int)
    requires IsTable(poly, tab) && FitsByte(w) && IsIndex(crc, w, k) && 0 <= i < 256 && i as bv32 == k
    ensures |tab| == 256 && Xored(Up(crc), tab[i]) == CrcWord(poly, crc, w)
  {
    hide IsTable, TableEntry, CrcWord, FitsByte, IsIndex, Xored, Up;
    EntryAt(poly, tab, i);
    TableDoesEightShifts(poly, crc, w, k, TableEntry(poly, k));
  }

  lemma IndexIsByte(crc: bv16, w: bv16, k: bv32)
    requires IsIndex(crc, w, k)
    ensures k < 256
  {
  }

  lemma IndexFits(k: bv32)
    requires k < 256
    ensures k as int < 256 && (k as int) as bv32 == k
  {
  }

  lemma CrcOfNext(poly: bv16, init: bv16, data: seq<byte>, i: nat)
    requires i < |data|
    ensures CrcFrom(poly, init, data[..i + 1]) == CrcByte(poly, CrcFrom(poly, init, data[..i]), data[i])
  {
    hide CrcByte;
    assert data[..i + 1][..i] == data[..i];
  }

  lemma CrcOfNothing(poly: bv16, init: bv16)
    ensures CrcFrom(poly, init, []) == init
  {
  }

  /** crc16_context_t: the lookup table. */
  class Crc16Context {
    const crctab: array<bv16>
    const polynome: bv16

    ghost predicate Valid()
      reads crctab
    {
      IsTable(polynome, crctab[..])
    }

    constructor Init(polynome: bv16)
      ensures Valid() && fresh(crctab)
      ensures this.polynome == polynome
    {
      hide TableEntry;
      this.polynome := polynome;
      crctab := new bv16[256];
      new;
      var i := 0;
      while i < 256
        invariant 0 <= i <= 256
        invariant forall k: int :: 0 <= k < i ==> crctab[k] == Entry(polynome, k)
      {
        crctab[i] := BuildEntry(polynome, i as bv32);
        i := i + 1;
      }
    }

    /** The inner loop of crc16_init: eight shifts of a 32-bit accumulator nobody masks. */
    static method BuildEntry(polynome: bv16, i: bv32) returns (entry: bv16)
      ensures entry == TableEntry(polynome, i)
    {
      hide ShiftBy, Low;
      var crc := i << 8;
      var j := 0;
      while j < BYTE_BITS
        invariant 0 <= j <= BYTE_BITS
        invariant Low(crc) == ShiftsBy(polynome, Low(i << 8), j)
      {
        crc := ShiftAccumulator(polynome, crc);
        j := j + 1;
      }
      entry := LowHalf(crc);
    }

    static method ShiftAccumulator(polynome: bv16, crc: bv32) returns (next: bv32)
      ensures Low(next) == ShiftBy(polynome, Low(crc))
    {
      hide ShiftBy, Low;
      var highbit := crc & 0x8000;
      next := crc << 1;
      if highbit != 0 {
        next := next ^ (polynome as bv32);
        ShiftSetWide(polynome, crc, next);
      } else {
        ShiftClearWide(polynome, crc, next);
      }
    }

    static method LowHalf(crc: bv32) returns (entry: bv16)
      ensures entry == Low(crc)
    {
      entry := (crc & 0xffff) as bv16;
    }

    /** crc16_doCalcul over len bytes of the buffer, from an offset. */
    method DoCalcul(data: array<byte>, offset: nat, len: nat, initValue: bv16, xorFinal: bv16)
      returns (crc: bv16)
      requires Valid() && offset + len <= data.Length
      ensures crc == CrcFrom(polynome, initValue, data[offset..offset + len]) ^ xorFinal
    {
      hide IsTable, CrcWord, CrcFrom;
      ghost var bytes := data[offset..offset + len];
      crc := initValue;
      CrcOfNothing(polynome, initValue);
      assert bytes[..0] == [];
      var i := 0;
      while i < len
        invariant 0 <= i <= len
        invariant crc == CrcFrom(polynome, initValue, bytes[..i])
      {
        var b := data[offset + i];
        assert b == bytes[i];
        CrcOfNext(polynome, initValue, bytes, i);
        crc := NextCrc(crc, b);
        i := i + 1;
      }
      assert bytes[..len] == bytes;
      crc := crc ^ xorFinal;
    }

    /** The body of the loop: one look-up. */
    method NextCrc(crc: bv16, b: byte) returns (next: bv16)
      requires Valid()
      ensures next == CrcByte(polynome, crc, b)
    {
      hide IsTable, CrcWord, FitsByte, IsIndex, Xored, Up;
      ghost var k;
      var w := WordOf(b);
      var i;
      i, k := IndexOf(crc, w);
      Lookup(polynome, crctab[..], crc, w, k, i);
      next := FoldEntry(crc, crctab[i]);
    }

    static method WordOf(b: byte) returns (w: bv16)
      ensures w == b as bv16 && FitsByte(w)
    {
      ByteAsWord(b);
      w := b as bv16;
    }

    static method IndexOf(crc: bv16, w: bv16) returns (i: int, ghost k: bv32)
      ensures IsIndex(crc, w, k) && 0 <= i < 256 && i as bv32 == k
    {
      hide IsIndex;
      var index := MaskedHigh(crc, w);
      k := index;
      IndexIsByte(crc, w, index);
      i := AsIndex(index);
    }

    static method MaskedHigh(crc: bv16, w: bv16) returns (k: bv32)
      ensures IsIndex(crc, w, k)
    {
      k := (((crc >> 8) ^ w) & 0xff) as bv32;
    }

    static method AsIndex(k: bv32) returns (i: int)
      requires k < 256
      ensures 0 <= i < 256 && i as bv32 == k
    {
      IndexFits(k);
      i := k as int;
    }

    static method FoldEntry(crc: bv16, entry: bv16) returns (next: bv16)
      ensures next == Xored(Up(crc), entry)
    {
      hide Xored, Up;
      var up := crc << 8;
      next := up ^ entry;
      IsUp(crc, up);
      IsXored(up, entry, next);
    }
  }
}
