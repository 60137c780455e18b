/** The powers of x modulo the generator: x^n = 1 exactly when 32767 divides n. */
module PowersOfX {
  import opened Gf2
  import opened Bytes
  import opened Crc16

  // ------------------------------------------------------- multiplying remainders

  /** Horner's rule: p(x) * y, starting from a. */
  function Horner(a: Residue, p: Poly, y: Residue): Residue
    decreases |p|
  {
    if p == [] then a else Horner(Add(Step(a), if p[0] then y else ZERO), p[1..], y)
  }

  lemma FeedShifted(r: Residue, b: bool, n: nat)
    ensures Add(Step(Steps(r, n)), if b then Steps(ONE, n) else ZERO) == Steps(Feed(r, b), n)
  {
    FeedSplit(r, b);
    StepsLinear(Step(r), if b then ONE else ZERO, n);
    StepsZero(ZERO, n);
    StepsCommute(r, n);
  }

  lemma StepsCommute(r: Residue, n: nat)
    ensures Step(Steps(r, n)) == Steps(Step(r), n)
  {
    StepsAdd(r, 1, n);
    StepsAdd(r, n, 1);
    StepOnce(r);
    StepOnce(Steps(r, n));
  }

  /** A remainder shifted n times is the remainder times x^n. */
  lemma {:induction false} HornerShifts(r: Residue, p: Poly, n: nat)
    ensures Horner(Steps(r, n), p, Steps(ONE, n)) == Steps(Divide(r, p), n)
    decreases |p|
  {
    if p == [] {
    } else {
      FeedShifted(r, p[0], n);
      HornerShifts(Feed(r, p[0]), p[1..], n);
    }
  }

  lemma StepOnce(r: Residue)
    ensures Steps(r, 1) == Step(r)
  {
    assert Steps(r, 0) == r;
  }

  lemma FeedSplit(r: Residue, b: bool)
    ensures Feed(r, b) == Add(Step(r), if b then ONE else ZERO)
  {
  }

  function TimesBit(a: bv16, y: bv16, b: bool): bv16 { ShiftWord(a) ^ (if b then y else 0) }

  /** Four rounds, for the four low bits of n. */
  function TimesBits(a: bv16, y: bv16, n: bv16): bv16 {
    TimesBit(TimesBit(TimesBit(TimesBit(a, y, n & 8 != 0), y, n & 4 != 0), y, n & 2 != 0), y, n & 1 != 0)
  }

  /** The product of two remainders, sixteen rounds of Horner's rule on words. */
  function Times(w: bv16, y: bv16): bv16 {
    TimesBits(TimesBits(TimesBits(TimesBits(0, y, w >> 12), y, w >> 8), y, w >> 4), y, w)
  }

  lemma XorIfIsAdd(s: bv16, y: bv16, b: bool, x: bv16)
    requires x == s ^ (if b then y else 0)
    ensures WordBits(x) == Add(WordBits(s), if b then WordBits(y) else ZERO)
  {
    ConstantBits();
    if b {
      XorIsAdd(s, y);
    } else {
      XorIsAdd(s, 0);
    }
  }

  lemma TimesBitIsHorner(a: bv16, y: bv16, b: bool)
    ensures WordBits(TimesBit(a, y, b)) == Add(Step(WordBits(a)), if b then WordBits(y) else ZERO)
  {
    ShiftWordIsStep(a);
    XorIfIsAdd(ShiftWord(a), y, b, TimesBit(a, y, b));
  }

  lemma HornerOne(a: Residue, b: bool, y: Residue)
    ensures Horner(a, [b], y) == Add(Step(a), if b then y else ZERO)
  {
    var p := [b];
    assert p[1..] == [];
  }

  /** The accumulator once the leading i coefficients of w have been used. */
  ghost predicate AfterRounds(a: bv16, y: bv16, w: bv16, i: nat)
    requires i <= 16
  {
    WordBits(a) == Horner(ZERO, WordBits(w)[..i], WordBits(y))
  }

  /** One more round: the first i + 1 coefficients of w. */
  lemma TimesNextBit(a: bv16, y: bv16, w: bv16, i: nat, next: bv16)
    requires i < 16 && AfterRounds(a, y, w, i)
    requires next == TimesBit(a, y, BitAt(w, i))
    ensures AfterRounds(next, y, w, i + 1)
  {
    TimesBitIsHorner(a, y, BitAt(w, i));
    HornerNext(WordBits(w), i, WordBits(y));
    hide TimesBit, BitAt, ShiftWord, Horner, Step, Add;
  }

  lemma HornerNext(p: Residue, i: nat, y: Residue)
    requires i < 16
    ensures Horner(ZERO, p[..i + 1], y) == Add(Step(Horner(ZERO, p[..i], y)), if p[i] then y else ZERO)
  {
    hide *;
    HornerOne(Horner(ZERO, p[..i], y), p[i], y);
    HornerConcat(ZERO, p[..i], [p[i]], y);
    assert p[..i] + [p[i]] == p[..i + 1];
  }

  lemma MaskValues()
    ensures Mask(0) == 0x8000 && Mask(1) == 0x4000 && Mask(2) == 0x2000 && Mask(3) == 0x1000
    ensures Mask(4) == 0x0800 && Mask(5) == 0x0400 && Mask(6) == 0x0200 && Mask(7) == 0x0100
    ensures Mask(8) == 0x0080 && Mask(9) == 0x0040 && Mask(10) == 0x0020 && Mask(11) == 0x0010
    ensures Mask(12) == 0x0008 && Mask(13) == 0x0004 && Mask(14) == 0x0002 && Mask(15) == 0x0001
  {
  }

  lemma BitIs(w: bv16, i: nat, m: bv16)
    requires i < 16 && Mask(i) == m
    ensures BitAt(w, i) == (w & m != 0)
  {
  }

  /** The low bits of n are the bits of w from i on. */
  ghost predicate IsNibble(w: bv16, i: nat, n: bv16)
    requires i <= 12
  {
    (n & 8 != 0) == BitAt(w, i) && (n & 4 != 0) == BitAt(w, i + 1) &&
    (n & 2 != 0) == BitAt(w, i + 2) && (n & 1 != 0) == BitAt(w, i + 3)
  }

  lemma FirstNibble(w: bv16, n: bv16)
    requires n == w >> 12
    ensures IsNibble(w, 0, n)
  {
    MaskValues();
    hide Mask, BitAt;
    BitIs(w, 0, 0x8000);
    BitIs(w, 1, 0x4000);
    BitIs(w, 2, 0x2000);
    BitIs(w, 3, 0x1000);
  }

  lemma SecondNibble(w: bv16, n: bv16)
    requires n == w >> 8
    ensures IsNibble(w, 4, n)
  {
    MaskValues();
    hide Mask, BitAt;
    BitIs(w, 4, 0x0800);
    BitIs(w, 5, 0x0400);
    BitIs(w, 6, 0x0200);
    BitIs(w, 7, 0x0100);
  }

  lemma ThirdNibble(w: bv16, n: bv16)
    requires n == w >> 4
    ensures IsNibble(w, 8, n)
  {
    MaskValues();
    hide Mask, BitAt;
    BitIs(w, 8, 0x0080);
    BitIs(w, 9, 0x0040);
    BitIs(w, 10, 0x0020);
    BitIs(w, 11, 0x0010);
  }

  lemma LastNibble(w: bv16, n: bv16)
    requires n == w
    ensures IsNibble(w, 12, n)
  {
    MaskValues();
    hide Mask, BitAt;
    BitIs(w, 12, 0x0008);
    BitIs(w, 13, 0x0004);
    BitIs(w, 14, 0x0002);
    BitIs(w, 15, 0x0001);
  }

  lemma TimesNextBits(a: bv16, y: bv16, w: bv16, i: nat, n: bv16, next: bv16)
    requires i <= 12 && IsNibble(w, i, n)
    requires next == TimesBits(a, y, n) && AfterRounds(a, y, w, i)
    ensures AfterRounds(next, y, w, i + 4)
  {
    hide TimesBit, BitAt, AfterRounds;
    var a1 := TimesBit(a, y, BitAt(w, i));
    var a2 := TimesBit(a1, y, BitAt(w, i + 1));
    var a3 := TimesBit(a2, y, BitAt(w, i + 2));
    TimesNextBit(a, y, w, i, a1);
    TimesNextBit(a1, y, w, i + 1, a2);
    TimesNextBit(a2, y, w, i + 2, a3);
    TimesNextBit(a3, y, w, i + 3, next);
  }

  lemma {:induction false} HornerConcat(a: Residue, p: Poly, q: Poly, y: Residue)
    ensures Horner(a, p + q, y) == Horner(Horner(a, p, y), q, y)
    decreases |p|
  {
    if p == [] {
      assert p + q == q;
    } else {
      assert (p + q)[1..] == p[1..] + q;
      HornerConcat(Add(Step(a), if p[0] then y else ZERO), p[1..], q, y);
    }
  }

  lemma AllRounds(w: bv16, y: bv16, product: bv16)
    ensures AfterRounds(0, y, w, 0)
    ensures AfterRounds(product, y, w, 16) ==> WordBits(product) == Horner(ZERO, WordBits(w), WordBits(y))
  {
    ConstantBits();
    assert WordBits(w)[..0] == [];
    assert WordBits(w)[..16] == WordBits(w);
  }

  lemma TimesInFours(w: bv16, y: bv16, n1: bv16, n2: bv16, n3: bv16)
    requires n1 == w >> 12 && n2 == w >> 8 && n3 == w >> 4
    ensures Times(w, y) == TimesBits(TimesBits(TimesBits(TimesBits(0, y, n1), y, n2), y, n3), y, w)
  {
    hide TimesBits;
  }

  lemma TimesIsHorner(w: bv16, y: bv16)
    ensures WordBits(Times(w, y)) == Horner(ZERO, WordBits(w), WordBits(y))
  {
    hide *;
    var n1, n2, n3 := w >> 12, w >> 8, w >> 4;
    FirstNibble(w, n1);
    SecondNibble(w, n2);
    ThirdNibble(w, n3);
    LastNibble(w, w);
    var a1 := TimesBits(0, y, n1);
    var a2 := TimesBits(a1, y, n2);
    var a3 := TimesBits(a2, y, n3);
    AllRounds(w, y, Times(w, y));
    TimesNextBits(0, y, w, 0, n1, a1);
    TimesNextBits(a1, y, w, 4, n2, a2);
    TimesNextBits(a2, y, w, 8, n3, a3);
    TimesNextBits(a3, y, w, 12, w, TimesBits(a3, y, w));
    TimesInFours(w, y, n1, n2, n3);
  }

  // ------------------------------------------------------------------- powers of x

  ghost predicate IsPower(n: nat, w: bv16) { Steps(ONE, n) == WordBits(w) }

  lemma Join(m: nat, n: nat, v: bv16, w: bv16, x: bv16)
    requires IsPower(m, v) && IsPower(n, w) && Times(v, w) == x
    ensures IsPower(m + n, x)
  {
    StepsAdd(ONE, m, n);
    TimesIsHorner(v, w);
    StepsZero(ZERO, n);
    HornerShifts(ZERO, WordBits(v), n);
    RemainderShort(WordBits(v));
    assert Zeros(0) + WordBits(v) == WordBits(v);
  }

  lemma PowerOne()
    ensures IsPower(1, 0x0002)
  {
    ConstantBits();
    ShiftWordIsStep(1);
    assert ShiftWord(1) == 0x0002;
    StepOnce(ONE);
  }

  lemma Squares()
    ensures IsPower(8, 0x0100) && IsPower(16, 0x1021) && IsPower(32, 0x3730) && IsPower(64, 0xb861)
    ensures IsPower(128, 0xaefc) && IsPower(512, 0x13fc) && IsPower(1024, 0x36c4) && IsPower(4096, 0xaa9e)
  {
    PowerOne();
    hide IsPower;
    Join(1, 1, 0x0002, 0x0002, 0x0004);
    Join(2, 2, 0x0004, 0x0004, 0x0010);
    Join(4, 4, 0x0010, 0x0010, 0x0100);
    Join(8, 8, 0x0100, 0x0100, 0x1021);
    Join(16, 16, 0x1021, 0x1021, 0x3730);
    Join(32, 32, 0x3730, 0x3730, 0xb861);
    Join(64, 64, 0xb861, 0xb861, 0xaefc);
    Join(128, 128, 0xaefc, 0xaefc, 0x8e29);
    Join(256, 256, 0x8e29, 0x8e29, 0x13fc);
    Join(512, 512, 0x13fc, 0x13fc, 0x36c4);
    Join(1024, 1024, 0x36c4, 0x36c4, 0xfd50);
    Join(2048, 2048, 0xfd50, 0xfd50, 0xaa9e);
  }

  /** The exponents 32767 / 151, 32767 / 31 and 32767 / 7, and 32767 itself. */
  lemma KeyPowers()
    ensures IsPower(217, 0x48e3) && IsPower(1057, 0xf2af) && IsPower(4681, 0x2c42) && IsPower(32767, 0x0001)
  {
    PowerOne();
    Squares();
    hide IsPower;
    Join(128, 64, 0xaefc, 0xb861, 0x650b);
    Join(192, 16, 0x650b, 0x1021, 0x45b4);
    Join(208, 8, 0x45b4, 0x0100, 0xac61);
    Join(216, 1, 0xac61, 0x0002, 0x48e3);
    Join(1024, 32, 0x36c4, 0x3730, 0xf147);
    Join(1056, 1, 0xf147, 0x0002, 0xf2af);
    Join(4096, 512, 0xaa9e, 0x13fc, 0x54a0);
    Join(4608, 64, 0x54a0, 0xb861, 0x0106);
    Join(4672, 8, 0x0106, 0x0100, 0x1621);
    Join(4680, 1, 0x1621, 0x0002, 0x2c42);
    Join(4681, 4681, 0x2c42, 0x2c42, 0x8635);
    Join(9362, 4681, 0x8635, 0x2c42, 0xdc5c);
    Join(14043, 14043, 0xdc5c, 0xdc5c, 0x762b);
    Join(28086, 4681, 0x762b, 0x2c42, 0x0001);
  }

  // --------------------------------------------------------------- the order of x

  ghost predicate IsOne(n: nat) { Steps(ONE, n) == ONE }

  lemma OneIffPowerOne(n: nat, w: bv16)
    requires IsPower(n, w)
    ensures IsOne(n) <==> w == 1
  {
    ConstantBits();
    if IsOne(n) { WordBitsInjective(w, 1); }
  }

  lemma KeyExponents()
    ensures !IsOne(217) && !IsOne(1057) && !IsOne(4681) && IsOne(32767)
  {
    hide *;
    KeyPowers();
    OneIffPowerOne(217, 0x48e3);
    OneIffPowerOne(1057, 0xf2af);
    OneIffPowerOne(4681, 0x2c42);
    OneIffPowerOne(32767, 0x0001);
  }

  lemma OneAtZero()
    ensures IsOne(0)
  {
  }

  lemma OneShift(m: nat, n: nat)
    requires IsOne(m)
    ensures IsOne(m + n) <==> IsOne(n)
  {
    StepsAdd(ONE, m, n);
  }

  lemma {:induction false} OneMultiple(m: nat, k: nat)
    requires IsOne(m)
    ensures IsOne(m * k)
  {
    if k == 0 {
      assert m * k == 0;
    } else {
      OneMultiple(m, k - 1);
      assert m * k == m * (k - 1) + m;
      OneShift(m * (k - 1), m);
    }
  }

  predicate Divides(k: nat, n: nat)
    requires k > 0
  {
    n % k == 0
  }

  ghost predicate IsPrime(p: nat) {
    p > 1 && forall k :: 1 < k < p ==> !Divides(k, p)
  }

  lemma MulBound(h: nat, d: int)
    ensures d >= 1 ==> h * d >= h
    ensures d <= -1 ==> h * d + h <= 0
  {
    if d >= 1 {
      assert h * d == h * (d - 1) + h;
    } else if d <= -1 {
      assert h * d + h == h * (d + 1);
    }
  }

  lemma DivisorOfProduct(h: nat, k: nat)
    requires h > 0
    ensures (h * k) % h == 0
  {
    var q, r := (h * k) / h, (h * k) % h;
    assert h * k == h * q + r;
    assert h * (k - q) == r;
    MulBound(h, k - q);
  }

  /** A composite number below 169 has a factor below 13. */
  lemma SmallFactor(k: nat, p: nat) returns (f: nat)
    requires 1 < k < p < 169 && Divides(k, p)
    ensures 1 < f < 13 && f < p && Divides(f, p)
  {
    var h := p / k;
    assert p == k * h && h > 1;
    if k < 13 {
      f := k;
    } else {
      f := h;
      DivisorOfProduct(h, k);
      SmallCofactor(k, h);
    }
  }

  lemma SmallCofactor(k: nat, h: nat)
    requires k >= 13 && k * h < 169
    ensures h < 13 && h <= k * h
  {
    assert 13 * h <= k * h;
  }

  lemma NoSmallFactorIsPrime(p: nat)
    requires 1 < p < 169 && forall f :: 1 < f < 13 && f < p ==> !Divides(f, p)
    ensures IsPrime(p)
  {
    forall k | 1 < k < p ensures !Divides(k, p) {
      if Divides(k, p) {
        var f := SmallFactor(k, p);
      }
    }
  }

  lemma SmallPrimes()
    ensures IsPrime(7) && IsPrime(31) && IsPrime(151)
  {
    forall p, f | (p == 7 || p == 31 || p == 151) && 1 < f < 13 && f < p ensures !Divides(f, p) {
      assert f == 2 || f == 3 || f == 4 || f == 5 || f == 6 || f == 7 || f == 8 || f == 9 || f == 10 ||
             f == 11 || f == 12;
    }
    NoSmallFactorIsPrime(7);
    NoSmallFactorIsPrime(31);
    NoSmallFactorIsPrime(151);
  }

  /** Nothing below a prime is without an inverse. */
  lemma {:induction false} InverseModPrime(r: nat, p: nat) returns (u: int, t: int)
    requires IsPrime(p) && 0 < r < p
    ensures u * r == 1 + t * p
    decreases r
  {
    if r == 1 {
      u, t := 1, 0;
    } else {
      assert !Divides(r, p);
      var q, s := p / r, p % r;
      var u', t' := InverseModPrime(s, p);
      u, t := -u' * q, t' - u';
      calc {
        u * r;
        -u' * (q * r);
        { assert q * r == p - s; }
        -u' * (p - s);
        -(u' * p) + u' * s;
        -(u' * p) + 1 + t' * p;
        1 + t * p;
      }
    }
  }

  lemma InverseOfWhole(r: int, t: int, e: nat, p: nat)
    requires p > 0 && r * (e % p) == 1 + t * p
    ensures r * e == 1 + (t + r * (e / p)) * p
  {
    var q := e / p;
    assert e == p * q + e % p;
    assert r * e == r * (p * q) + r * (e % p);
    assert (r * q) * p == r * (p * q);
  }

  lemma AddMultiple(r: int, w: int, e: nat, p: nat, a: nat)
    requires r * e == 1 + w * p
    ensures (r + p * a) * e == 1 + (w + e * a) * p
  {
    assert (r + p * a) * e == r * e + (p * a) * e;
    assert (w + e * a) * p == w * p + (e * a) * p;
    assert (p * a) * e == (e * a) * p;
  }

  /** A Bezout identity without negative numbers. */
  lemma Bezout(e: nat, p: nat) returns (u: nat, v: nat)
    requires IsPrime(p) && e % p != 0
    ensures u * e == 1 + v * p
  {
    var r, t := InverseModPrime(e % p, p);
    InverseOfWhole(r, t, e, p);
    var w := t + r * (e / p);
    var a := if r < 0 then -r else r;
    AddMultiple(r, w, e, p, a);
    MulAtLeast(p, a);
    var v' := w + e * a;
    u := r + p * a;
    ProductNotNegative(u, e);
    NotNegative(u * e, v', p);
    v := v';
  }

  lemma MulAtLeast(p: nat, a: nat)
    requires p > 0
    ensures p * a >= a
  {
  }

  lemma ProductNotNegative(u: nat, e: nat)
    ensures u * e >= 0
  {
  }

  lemma NotNegative(n: nat, v: int, p: nat)
    requires n == 1 + v * p && p > 1
    ensures v >= 0
  {
    MulBound(p, v);
  }

  lemma ScaleIdentity(u: nat, e: nat, v: nat, p: nat, c: nat)
    requires u * e == 1 + v * p
    ensures e * (u * c) == (c * p) * v + c
  {
    assert e * (u * c) == (u * e) * c;
    assert (1 + v * p) * c == c + (v * p) * c;
  }

  /** If x^e = 1, then x to the power of every cofactor of a prime not dividing e is 1. */
  lemma OneAtCofactor(e: nat, p: nat, c: nat)
    requires IsOne(e) && IsPrime(p) && e % p != 0 && IsOne(c * p)
    ensures IsOne(c)
  {
    hide IsOne;
    var u, v := Bezout(e, p);
    ScaleIdentity(u, e, v, p, c);
    OneMultiple(e, u * c);
    OneMultiple(c * p, v);
    OneShift((c * p) * v, c);
  }

  lemma DivisibleByAll(e: nat)
    requires e % 7 == 0 && e % 31 == 0 && e % 151 == 0
    ensures e % 32767 == 0
  {
    CombineFactors(e, e / 7, e / 31, e / 151);
  }

  lemma CombineFactors(e: int, a: int, b: int, d: int)
    requires e == 7 * a && e == 31 * b && e == 151 * d
    ensures e % 32767 == 0
  {
    var c := 9 * b - 2 * a;
    assert e == 217 * c;
    var f := 135 * d - 194 * c;
    WholeMultiple(e, f);
  }

  lemma WholeMultiple(e: int, f: int)
    requires e == 32767 * f
    ensures e % 32767 == 0
  {
  }

  /** x has order 32767: X^n - 1 is a multiple of the generator exactly when 32767 divides n. */
  lemma OrderOfX(n: nat)
    ensures IsOne(n) <==> n % 32767 == 0
  {
    hide IsOne;
    var e, k := n % 32767, n / 32767;
    OneAtZero();
    KeyExponents();
    OneMultiple(32767, k);
    OneShift(32767 * k, e);
    assert n == 32767 * k + e;
    if e != 0 && IsOne(e) {
      SmallPrimes();
      if e % 7 != 0 {
        OneAtCofactor(e, 7, 4681);
      } else if e % 31 != 0 {
        OneAtCofactor(e, 31, 1057);
      } else if e % 151 != 0 {
        OneAtCofactor(e, 151, 217);
      } else {
        DivisibleByAll(e);
      }
    }
  }
}
