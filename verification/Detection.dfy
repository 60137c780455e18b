/**
 Which damage to a block the CRC check notices.  Section 4.2 of the XMODEM/YMODEM Protocol
 Reference promises all single and double bit errors, all errors with an odd number of bits, all
 bursts of 16 bits or less, 99.9969% of 17-bit bursts and 99.9984% of longer ones.
 */
module Detection {
  import opened Gf2
  import opened Bytes
  import opened Crc16
  import opened PowersOfX

  /** The two check bytes of a block, high byte first. */
  function CrcBytes(data: seq<byte>): (r: seq<byte>)
    ensures |r| == 2
  {
    [HighByte(Crc(data)), LowByte(Crc(data))]
  }

  /** The comparison of lxmodem_check_crc, on the data bytes followed by the two check bytes. */
  predicate Accepts(code: seq<byte>)
    requires |code| >= 2
  {
    code[|code| - 2..] == CrcBytes(code[..|code| - 2])
  }

  /** The bits in which two codes differ. */
  function Flips(sent: seq<byte>, received: seq<byte>): Poly
    requires |sent| == |received|
  {
    Add(Bits(sent), Bits(received))
  }

  lemma BitsOfTwo(h: byte, l: byte)
    ensures Bits([h, l]) == ByteBits(h) + ByteBits(l)
  {
    BitsConcat([h], [l]);
    BitsOfOne(h);
    BitsOfOne(l);
    assert [h] + [l] == [h, l];
  }

  lemma BitsOfOne(b: byte)
    ensures Bits([b]) == ByteBits(b)
  {
    assert [b][..0] == [];
    assert Bits([]) == [];
  }

  /** The check passes exactly for the multiples of the generator. */
  lemma {:induction false} AcceptsIffMultiple(code: seq<byte>)
    requires |code| >= 2
    ensures Accepts(code) <==> IsMultiple(Bits(code))
  {
    hide CrcBytes, Bits, Crc, ByteBits, WordBits, IsMultiple, Remainder, Zeros;
    var n := |code| - 2;
    var data, h, l := code[..n], code[n], code[n + 1];
    assert code[n..] == [h, l];
    SameCrcBytes(data, h, l);
    assert code == data + [h, l];
    BitsConcat(data, [h, l]);
    BitsOfTwo(h, l);
    CrcIsRemainder(data);
    CheckBitsAreTheRemainder(Bits(data), ByteBits(h) + ByteBits(l));
  }

  lemma SameCrcBytes(data: seq<byte>, h: byte, l: byte)
    ensures [h, l] == CrcBytes(data) <==> ByteBits(h) + ByteBits(l) == WordBits(Crc(data))
  {
    var crc := Crc(data);
    WordInBytes(crc);
    var h', l' := HighByte(crc), LowByte(crc);
    assert CrcBytes(data) == [h', l'];
    hide *;
    if ByteBits(h) + ByteBits(l) == WordBits(crc) {
      SameBytes(h, l, h', l');
    } else {
      assert h != h' || l != l';
    }
  }

  lemma SameBytes(h: byte, l: byte, h': byte, l': byte)
    requires ByteBits(h) + ByteBits(l) == ByteBits(h') + ByteBits(l')
    ensures h == h' && l == l'
  {
    var p, q := ByteBits(h) + ByteBits(l), ByteBits(h') + ByteBits(l');
    assert p[..8] == ByteBits(h) && q[..8] == ByteBits(h');
    assert p[8..] == ByteBits(l) && q[8..] == ByteBits(l');
    ByteBitsInjective(h, h');
    ByteBitsInjective(l, l');
  }

  /** Damage to an accepted code goes unnoticed exactly when the generator divides it. */
  lemma UnnoticedIffMultiple(sent: seq<byte>, received: seq<byte>)
    requires |sent| == |received| >= 2 && Accepts(sent)
    ensures Accepts(received) <==> Remainder(Flips(sent, received)) == ZERO
  {
    AcceptsIffMultiple(sent);
    AcceptsIffMultiple(received);
    RemainderZeroIffMultiple(Bits(sent));
    RemainderZeroIffMultiple(Bits(received));
    RemainderAdd(Bits(sent), Bits(received));
    AddZero(Remainder(Bits(received)));
  }

  // --------------------------------------------------------------- an odd number of bits

  function Ones(p: Poly): nat {
    if p == [] then 0 else (if p[0] then 1 else 0) + Ones(p[1..])
  }

  lemma {:induction false} OnesAdd(p: Poly, q: Poly)
    requires |p| == |q|
    ensures Ones(Add(p, q)) % 2 == (Ones(p) + Ones(q)) % 2
    decreases |p|
  {
    if p == [] {
    } else {
      assert Add(p, q)[1..] == Add(p[1..], q[1..]);
      OnesAdd(p[1..], q[1..]);
    }
  }

  lemma {:induction false} OnesConcat(p: Poly, q: Poly)
    ensures Ones(p + q) == Ones(p) + Ones(q)
    decreases |p|
  {
    if p == [] {
      assert p + q == q;
    } else {
      assert (p + q)[1..] == p[1..] + q;
      OnesConcat(p[1..], q);
    }
  }

  lemma {:induction false} OnesZeros(n: nat)
    ensures Ones(Zeros(n)) == 0
  {
    if n == 0 {
    } else {
      assert Zeros(n)[1..] == Zeros(n - 1);
      OnesZeros(n - 1);
    }
  }

  /** The generator has an even number of terms. */
  lemma OnesGenerator()
    ensures Ones(Generator()) == 3
  {
    var g := Generator();
    assert g == Zeros(3) + ([true] + (Zeros(6) + ([true] + (Zeros(4) + [true]))));
    OnesConcat(Zeros(3), [true] + (Zeros(6) + ([true] + (Zeros(4) + [true]))));
    OnesConcat([true], Zeros(6) + ([true] + (Zeros(4) + [true])));
    OnesConcat(Zeros(6), [true] + (Zeros(4) + [true]));
    OnesConcat([true], Zeros(4) + [true]);
    OnesConcat(Zeros(4), [true]);
    OnesZeros(3);
    OnesZeros(4);
    OnesZeros(6);
    OnesOne(true);
  }

  lemma OnesOne(b: bool)
    ensures Ones([b]) == if b then 1 else 0
  {
    assert [b][1..] == [];
  }

  lemma OnesTap(b: bool)
    ensures Ones(if b then Generator() else ZERO) == if b then 3 else 0
  {
    OnesGenerator();
    OnesZeros(16);
  }

  lemma OnesHead(p: Poly)
    requires p != []
    ensures Ones(p) == (if p[0] then 1 else 0) + Ones(p[1..])
  {
  }

  lemma FeedParity(r: Residue, b: bool)
    ensures Ones(Feed(r, b)) % 2 == (Ones(r) + if b then 1 else 0) % 2
  {
    hide Ones, Generator, Add;
    OnesHead(r);
    OnesConcat(r[1..], [b]);
    OnesOne(b);
    OnesTap(r[0]);
    OnesAdd(r[1..] + [b], if r[0] then Generator() else ZERO);
  }

  /** Division keeps the parity. */
  lemma {:induction false} DivideParity(r: Residue, p: Poly)
    ensures Ones(Divide(r, p)) % 2 == (Ones(r) + Ones(p)) % 2
    decreases |p|
  {
    if p == [] {
    } else {
      FeedParity(r, p[0]);
      DivideParity(Feed(r, p[0]), p[1..]);
    }
  }

  lemma OddHasRemainder(e: Poly)
    requires Ones(e) % 2 == 1
    ensures Remainder(e) != ZERO
  {
    hide Ones, Divide;
    OnesZeros(16);
    DivideParity(ZERO, e);
  }

  lemma OddDamageIsNoticed(sent: seq<byte>, received: seq<byte>)
    requires |sent| == |received| >= 2 && Accepts(sent)
    requires Ones(Flips(sent, received)) % 2 == 1
    ensures !Accepts(received)
  {
    hide *;
    UnnoticedIffMultiple(sent, received);
    OddHasRemainder(Flips(sent, received));
  }

  // ------------------------------------------------------------------------- bursts

  /** All the flipped bits lie in the n bits from position a on. */
  ghost predicate IsBurst(e: Poly, a: nat, n: nat) {
    a + n <= |e| && forall i :: 0 <= i < |e| && e[i] ==> a <= i < a + n
  }

  lemma BurstShape(e: Poly, a: nat, n: nat)
    requires IsBurst(e, a, n)
    ensures e == Zeros(a) + (e[a..a + n] + Zeros(|e| - a - n))
  {
  }

  /** What lies around a burst does not count. */
  lemma BurstRemainder(e: Poly, a: nat, n: nat)
    requires IsBurst(e, a, n)
    ensures Remainder(e) == ZERO <==> Remainder(e[a..a + n]) == ZERO
  {
    BurstShape(e, a, n);
    ShiftedRemainder(a, e[a..a + n], |e| - a - n);
  }

  lemma ShiftedRemainder(a: nat, b: Poly, c: nat)
    ensures Remainder(Zeros(a) + (b + Zeros(c))) == ZERO <==> Remainder(b) == ZERO
  {
    hide *;
    RemainderConcat(Zeros(a), b + Zeros(c));
    RemainderZeros(a);
    StepsZero(ZERO, |b + Zeros(c)|);
    AddZero(Remainder(b + Zeros(c)));
    RemainderConcat(b, Zeros(c));
    RemainderZeros(c);
    AddZero(Steps(Remainder(b), c));
    StepsZero(Remainder(b), c);
  }

  lemma ShortBurstIsNothing(e: Poly, a: nat, n: nat)
    requires n <= 16 && IsBurst(e, a, n) && Remainder(e[a..a + n]) == ZERO
    ensures e == Zeros(|e|)
  {
    var b := e[a..a + n];
    RemainderShort(b);
    hide Divide, Remainder;
    assert Zeros(16 - n) + b == Zeros(16);
    forall i | 0 <= i < |e| ensures !e[i] {
      if a <= i < a + n {
        assert e[i] == (Zeros(16 - n) + b)[16 - n + i - a] == Zeros(16)[16 - n + i - a];
      }
    }
  }

  /** Damage confined to sixteen consecutive bits, single bits included. */
  lemma BurstIsNoticed(sent: seq<byte>, received: seq<byte>, a: nat, n: nat)
    requires |sent| == |received| >= 2 && Accepts(sent) && sent != received
    requires n <= 16 && IsBurst(Flips(sent, received), a, n)
    ensures !Accepts(received)
  {
    var e := Flips(sent, received);
    UnnoticedIffMultiple(sent, received);
    BurstRemainder(e, a, n);
    hide IsBurst, Accepts, Remainder;
    if Remainder(e) == ZERO {
      ShortBurstIsNothing(e, a, n);
      SameBits(sent, received);
    }
  }

  lemma {:induction false} SameBits(a: seq<byte>, b: seq<byte>)
    requires |a| == |b| && Add(Bits(a), Bits(b)) == Zeros(8 * |a|)
    ensures a == b
    decreases |a|
  {
    forall i | 0 <= i < 8 * |a| ensures Bits(a)[i] == Bits(b)[i] {
      assert !Add(Bits(a), Bits(b))[i];
    }
    assert Bits(a) == Bits(b);
    BitsInjective(a, b);
  }

  lemma {:induction false} BitsInjective(a: seq<byte>, b: seq<byte>)
    requires |a| == |b| && Bits(a) == Bits(b)
    ensures a == b
    decreases |a|
  {
    if a == [] {
    } else {
      var n := |a| - 1;
      assert Bits(a)[..8 * n] == Bits(a[..n]) && Bits(a)[8 * n..] == ByteBits(a[n]);
      assert Bits(b)[..8 * n] == Bits(b[..n]) && Bits(b)[8 * n..] == ByteBits(b[n]);
      BitsInjective(a[..n], b[..n]);
      ByteBitsInjective(a[n], b[n]);
      assert a == a[..n] + [a[n]] && b == b[..n] + [b[n]];
    }
  }

  /** Seventeen bits led by a one: the generator is the only multiple among them. */
  lemma SeventeenBits(b: Poly)
    requires |b| == 16
    ensures Remainder([true] + b) == ZERO <==> b == Generator()
  {
    RemainderShort([true]);
    RemainderShort(b);
    assert Zeros(0) + b == b;
    hide *;
    RemainderConcat([true], b);
    StepsOneSixteen();
    AddIsZero(Generator(), b);
  }

  /** Of the bursts of seventeen bits only one pattern in 2^15 is missed: the generator itself. */
  lemma SeventeenBitBurst(sent: seq<byte>, received: seq<byte>, a: nat)
    requires |sent| == |received| >= 2 && Accepts(sent)
    requires IsBurst(Flips(sent, received), a, 17) && Flips(sent, received)[a]
    ensures Accepts(received) <==> Flips(sent, received)[a + 1..a + 17] == Generator()
  {
    hide *;
    UnnoticedIffMultiple(sent, received);
    BurstOfSeventeen(Flips(sent, received), a);
  }

  lemma BurstOfSeventeen(e: Poly, a: nat)
    requires IsBurst(e, a, 17) && e[a]
    ensures a + 17 <= |e| && (Remainder(e) == ZERO <==> e[a + 1..a + 17] == Generator())
  {
    hide Remainder, Generator;
    BurstRemainder(e, a, 17);
    assert e[a..a + 17] == [true] + e[a + 1..a + 17];
    SeventeenBits(e[a + 1..a + 17]);
  }

  /**
   Of the longer bursts one in 2^16 is missed: whatever the other bits are, exactly one choice of the
   last sixteen goes unnoticed, the remainder of the others.
   */
  lemma LongBurst(sent: seq<byte>, received: seq<byte>, a: nat, n: nat)
    requires |sent| == |received| >= 2 && Accepts(sent)
    requires n >= 16 && IsBurst(Flips(sent, received), a, n)
    ensures var e := Flips(sent, received);
            Accepts(received) <==> e[a + n - 16..a + n] == Remainder(e[a..a + n - 16] + Zeros(16))
  {
    hide *;
    UnnoticedIffMultiple(sent, received);
    BurstWithCheck(Flips(sent, received), a, n);
  }

  lemma BurstWithCheck(e: Poly, a: nat, n: nat)
    requires n >= 16 && IsBurst(e, a, n)
    ensures a + n <= |e|
    ensures Remainder(e) == ZERO <==> e[a + n - 16..a + n] == Remainder(e[a..a + n - 16] + Zeros(16))
  {
    hide Remainder, IsMultiple, Zeros;
    BurstRemainder(e, a, n);
    var others, last := e[a..a + n - 16], e[a + n - 16..a + n];
    assert e[a..a + n] == others + last;
    RemainderZeroIffMultiple(others + last);
    CheckBitsAreTheRemainder(others, last);
  }

  // -------------------------------------------------------------------- double bits

  /** Exactly the bits i and j are flipped. */
  ghost predicate IsPair(e: Poly, i: nat, j: nat) {
    i < j < |e| && forall k :: 0 <= k < |e| ==> (e[k] <==> k == i || k == j)
  }

  lemma PairShape(e: Poly, i: nat, j: nat)
    requires IsPair(e, i, j)
    ensures IsBurst(e, i, j - i + 1) && e[i..j + 1] == [true] + (Zeros(j - i - 1) + [true])
  {
  }

  lemma PairHasRemainder(e: Poly, i: nat, j: nat)
    requires IsPair(e, i, j)
    ensures Remainder(e) == ZERO <==> (j - i) % 32767 == 0
  {
    hide IsPair, IsBurst, Remainder, Zeros, Steps, Add;
    var d := j - i;
    PairShape(e, i, j);
    BurstRemainder(e, i, d + 1);
    PairRemainder(d);
    OrderOfX(d);
    AddIsZero(Steps(ONE, d), ONE);
  }

  /** Two flipped bits go unnoticed exactly when 32767 divides their distance. */
  lemma PairUnnoticedIff(sent: seq<byte>, received: seq<byte>, i: nat, j: nat)
    requires |sent| == |received| >= 2 && Accepts(sent)
    requires IsPair(Flips(sent, received), i, j)
    ensures Accepts(received) <==> (j - i) % 32767 == 0
  {
    hide *;
    UnnoticedIffMultiple(sent, received);
    PairHasRemainder(Flips(sent, received), i, j);
  }

  lemma PairRemainder(d: nat)
    requires d > 0
    ensures Remainder([true] + (Zeros(d - 1) + [true])) == Add(Steps(ONE, d), ONE)
  {
    hide Remainder, Steps;
    RemainderConcat([true], Zeros(d - 1) + [true]);
    RemainderShort([true]);
    RemainderConcat(Zeros(d - 1), [true]);
    RemainderZeros(d - 1);
    StepsZero(ZERO, 1);
    AddZero(ONE);
  }

  /** In a block of up to 4093 data bytes every double bit error is noticed. */
  lemma PairIsNoticed(sent: seq<byte>, received: seq<byte>, i: nat, j: nat)
    requires 2 <= |sent| == |received| <= 4095 && Accepts(sent)
    requires IsPair(Flips(sent, received), i, j)
    ensures !Accepts(received)
  {
    PairUnnoticedIff(sent, received, i, j);
  }
}
