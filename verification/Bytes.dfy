/** Bytes, and the sixteen-bit words of the C program seen as polynomials. */
module Bytes {
  import opened Gf2

  type byte = x: int | 0 <= x < 256

  /** A one-bit mask; bit 0 is the high order bit of a word. */
  function Mask(i: nat): bv16
    requires i < 16
  {
    if i < 8 then
      if i < 4 then
        if i < 2 then (if i == 0 then 0x8000 else 0x4000) else (if i == 2 then 0x2000 else 0x1000)
      else
        if i < 6 then (if i == 4 then 0x0800 else 0x0400) else (if i == 6 then 0x0200 else 0x0100)
    else
      if i < 12 then
        if i < 10 then (if i == 8 then 0x0080 else 0x0040) else (if i == 10 then 0x0020 else 0x0010)
      else
        if i < 14 then (if i == 12 then 0x0008 else 0x0004) else (if i == 14 then 0x0002 else 0x0001)
  }

  function BitAt(w: bv16, i: nat): bool
    requires i < 16
  {
    w & Mask(i) != 0
  }

  /** The bits of a word, high order bit first. */
  function WordBits(w: bv16): (p: Residue)
    ensures forall i :: 0 <= i < 16 ==> p[i] == BitAt(w, i)
  {
    seq(16, i requires 0 <= i < 16 => BitAt(w, i))
  }

  function ByteBits(b: byte): (p: Poly)
    ensures |p| == 8
  {
    WordBits(b as bv16)[8..]
  }

  /** The message polynomial: the high order bit of the first byte leads. */
  function Bits(data: seq<byte>): (p: Poly)
    ensures |p| == 8 * |data|
  {
    if data == [] then [] else Bits(data[..|data| - 1]) + ByteBits(data[|data| - 1])
  }

  // --------------------------------------------------------------------------- xor

  lemma XorMask(v: bv16, w: bv16, m: bv16)
    requires m != 0 && m & (m - 1) == 0
    ensures ((v ^ w) & m != 0) == Xor(v & m != 0, w & m != 0)
  {
    AllOrNothing(v, m);
    AllOrNothing(w, m);
    MaskedXor(v, w, m);
    XorOfMasked(v & m, w & m, m);
  }

  lemma AllOrNothing(v: bv16, m: bv16)
    requires m & (m - 1) == 0
    ensures v & m == 0 || v & m == m
  {
  }

  lemma MaskedXor(v: bv16, w: bv16, m: bv16)
    ensures (v ^ w) & m == (v & m) ^ (w & m)
  {
  }

  lemma XorOfMasked(a: bv16, b: bv16, m: bv16)
    requires m != 0 && (a == 0 || a == m) && (b == 0 || b == m)
    ensures (a ^ b != 0) == Xor(a != 0, b != 0)
  {
  }

  lemma MaskIsBit(i: nat)
    requires i < 16
    ensures Mask(i) != 0 && Mask(i) & (Mask(i) - 1) == 0
  {
  }

  lemma XorBit(v: bv16, w: bv16, i: nat)
    requires i < 16
    ensures BitAt(v ^ w, i) == Xor(BitAt(v, i), BitAt(w, i))
  {
    MaskIsBit(i);
    XorMask(v, w, Mask(i));
  }

  lemma XorIsAdd(v: bv16, w: bv16)
    ensures WordBits(v ^ w) == Add(WordBits(v), WordBits(w))
  {
    forall i | 0 <= i < 16 ensures WordBits(v ^ w)[i] == Add(WordBits(v), WordBits(w))[i] {
      XorBit(v, w, i);
    }
  }

  lemma ConstantBits()
    ensures WordBits(0x1021) == Generator()
    ensures WordBits(0) == ZERO
    ensures WordBits(1) == ONE
  {
    forall i | 0 <= i < 16
      ensures WordBits(0x1021)[i] == Generator()[i] && WordBits(0)[i] == ZERO[i] && WordBits(1)[i] == ONE[i]
    {
      ConstantBit(i);
    }
  }

  lemma ConstantBit(i: nat)
    requires i < 16
    ensures BitAt(0x1021, i) == Generator()[i] && BitAt(0, i) == false && BitAt(1, i) == (i == 15)
  {
  }

  // ------------------------------------------------------------- a word is its bits

  lemma WordBitsInjective(v: bv16, w: bv16)
    requires WordBits(v) == WordBits(w)
    ensures v == w
  {
    XorIsAdd(v, w);
    assert WordBits(v ^ w) == ZERO;
    NonZeroHasBit(v ^ w);
    assert v ^ w == 0;
  }

  lemma NonZeroHasBit(v: bv16)
    requires WordBits(v) == ZERO
    ensures v == 0
  {
    assert forall i :: 0 <= i < 16 ==> BitAt(v, i) == ZERO[i];
    FourBits(v, 0);
    FourBits(v, 4);
    FourBits(v, 8);
    FourBits(v, 12);
    NoNibble(v);
  }

  function NibbleMask(k: nat): bv16 {
    if k == 0 then 0xf000 else if k == 4 then 0x0f00 else if k == 8 then 0x00f0 else 0x000f
  }

  lemma FourBits(v: bv16, k: nat)
    requires k == 0 || k == 4 || k == 8 || k == 12
    requires !BitAt(v, k) && !BitAt(v, k + 1) && !BitAt(v, k + 2) && !BitAt(v, k + 3)
    ensures v & NibbleMask(k) == 0
  {
  }

  lemma NoNibble(v: bv16)
    requires v & 0xf000 == 0 && v & 0x0f00 == 0 && v & 0x00f0 == 0 && v & 0x000f == 0
    ensures v == 0
  {
  }

  // ----------------------------------------------------------------------- shifts

  lemma ShiftBit(w: bv16, i: nat)
    requires i < 16
    ensures BitAt(w << 1, i) == (i < 15 && BitAt(w, i + 1))
  {
  }

  lemma ShiftBits(w: bv16)
    ensures WordBits(w << 1) == WordBits(w)[1..] + [false]
  {
    forall i | 0 <= i < 16 ensures WordBits(w << 1)[i] == (WordBits(w)[1..] + [false])[i] {
      ShiftBit(w, i);
    }
  }

  lemma ShiftLeftByteBit(w: bv16, i: nat)
    requires i < 16
    ensures BitAt(w << 8, i) == (i < 8 && BitAt(w, i + 8))
  {
  }

  lemma ShiftRightByteBit(w: bv16, i: nat)
    requires i < 16
    ensures BitAt(w >> 8, i) == (8 <= i && BitAt(w, i - 8))
  {
  }

  lemma LowByteBit(w: bv16, i: nat)
    requires i < 16
    ensures BitAt(w & 0xff, i) == (8 <= i && BitAt(w, i))
  {
  }

  /** The two bytes of a word. */
  lemma ByteShiftBits(w: bv16)
    ensures WordBits(w << 8) == WordBits(w)[8..] + Zeros(8)
    ensures WordBits(w >> 8) == Zeros(8) + WordBits(w)[..8]
    ensures WordBits(w & 0xff) == Zeros(8) + WordBits(w)[8..]
  {
    forall i | 0 <= i < 16
      ensures WordBits(w << 8)[i] == (WordBits(w)[8..] + Zeros(8))[i]
      ensures WordBits(w >> 8)[i] == (Zeros(8) + WordBits(w)[..8])[i]
      ensures WordBits(w & 0xff)[i] == (Zeros(8) + WordBits(w)[8..])[i]
    {
      ShiftLeftByteBit(w, i);
      ShiftRightByteBit(w, i);
      LowByteBit(w, i);
    }
  }

  function HighByte(w: bv16): byte { HighByteFits(w); (w >> 8) as int }

  function LowByte(w: bv16): byte { LowByteFits(w); (w & 0xff) as int }

  lemma HighByteFits(w: bv16) ensures (w >> 8) as int < 256 {}

  lemma LowByteFits(w: bv16) ensures (w & 0xff) as int < 256 {}

  lemma WordAsInt(w: bv16)
    ensures (w as int) as bv16 == w
  {
  }

  lemma WordSuccessor(w: bv16)
    requires w < 255
    ensures (w + 1) as int == w as int + 1
  {
  }

  /** Counting up to b: the word whose value is b. */
  lemma {:induction false} WordOfValue(b: byte) returns (w: bv16)
    ensures w as int == b && w < 256
  {
    if b == 0 {
      w := 0;
    } else {
      var v := WordOfValue(b - 1);
      w := v + 1;
      WordSuccessor(v);
    }
  }

  lemma ByteAsWord(b: byte)
    ensures (b as bv16) as int == b && (b as bv16) & 0xff == b as bv16
  {
    var w := WordOfValue(b);
    WordAsInt(w);
    ByteWide(w);
  }

  lemma ByteWide(w: bv16)
    requires w < 256
    ensures w & 0xff == w
  {
  }

  lemma ByteOfWord(w: bv16)
    ensures HighByte(w) as bv16 == w >> 8
    ensures LowByte(w) as bv16 == w & 0xff
  {
    HighByteFits(w);
    LowByteFits(w);
    WordAsInt(w >> 8);
    WordAsInt(w & 0xff);
  }

  lemma ByteHasNoHighBits(b: byte)
    ensures WordBits(b as bv16) == Zeros(8) + ByteBits(b)
  {
    var w := b as bv16;
    ByteAsWord(b);
    ByteShiftBits(w);
  }

  /** High byte then low byte: the bits of the word. */
  lemma WordInBytes(w: bv16)
    ensures ByteBits(HighByte(w)) + ByteBits(LowByte(w)) == WordBits(w)
  {
    ByteOfWord(w);
    ByteShiftBits(w);
  }

  lemma ByteBitsInjective(a: byte, b: byte)
    requires ByteBits(a) == ByteBits(b)
    ensures a == b
  {
    ByteHasNoHighBits(a);
    ByteHasNoHighBits(b);
    WordBitsInjective(a as bv16, b as bv16);
    ByteAsWord(a);
    ByteAsWord(b);
  }

  lemma {:induction false} BitsConcat(a: seq<byte>, b: seq<byte>)
    ensures Bits(a + b) == Bits(a) + Bits(b)
    decreases |b|
  {
    if b == [] {
      assert a + b == a;
    } else {
      var n := |b| - 1;
      assert (a + b)[..|a + b| - 1] == a + b[..n];
      BitsConcat(a, b[..n]);
    }
  }
}
