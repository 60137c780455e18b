/**
 Polynomials over the two-element field, and division by the CRC-16 generator
 X^16 + X^12 + X^5 + 1 of section 8.1.1 of the XMODEM/YMODEM Protocol Reference.

 A polynomial is written with its highest coefficient first, the order in which the bits of a
 message are sent.  A remainder of the division has sixteen coefficients.
 */
module Gf2 {

  type Poly = seq<bool>

  function Xor(a: bool, b: bool): bool { a != b }

  function Coeff(p: Poly, j: int): bool { 0 <= j < |p| && p[j] }

  function Zeros(n: nat): (p: Poly)
    ensures |p| == n
  {
    seq(n, _ => false)
  }

  function Add(p: Poly, q: Poly): (s: Poly)
    requires |p| == |q|
    ensures |s| == |p|
    ensures forall i :: 0 <= i < |s| ==> s[i] == Xor(p[i], q[i])
  {
    seq(|p|, i requires 0 <= i < |p| => Xor(p[i], q[i]))
  }

  /** A remainder: a polynomial of degree below sixteen. */
  type Residue = p: Poly | |p| == 16 witness Zeros(16)

  /** X^12 + X^5 + 1, the generator without its leading term. */
  function Generator(): Residue {
    [false, false, false, true, false, false, false, false,
     false, false, true, false, false, false, false, true]
  }

  const ZERO: Residue := Zeros(16)

  /** X^0. */
  const ONE: Residue := Zeros(15) + [true]

  /** The remainder of x * r + b. */
  function Feed(r: Residue, b: bool): Residue {
    Add(r[1..] + [b], if r[0] then Generator() else ZERO)
  }

  function Step(r: Residue): Residue { Feed(r, false) }

  /** The bit-serial division: the remainder of r * x^|p| + p. */
  function Divide(r: Residue, p: Poly): Residue
    decreases |p|
  {
    if p == [] then r else Divide(Feed(r, p[0]), p[1..])
  }

  function Remainder(p: Poly): Residue { Divide(ZERO, p) }

  /** The remainder of r * x^n. */
  function Steps(r: Residue, n: nat): Residue {
    if n == 0 then r else Step(Steps(r, n - 1))
  }

  // ----------------------------------------------------------------- division is linear

  lemma FeedLinear(r: Residue, s: Residue, a: bool, b: bool)
    ensures Feed(Add(r, s), Xor(a, b)) == Add(Feed(r, a), Feed(s, b))
  {
  }

  lemma {:induction false} DivideLinear(r: Residue, s: Residue, p: Poly, q: Poly)
    requires |p| == |q|
    ensures Divide(Add(r, s), Add(p, q)) == Add(Divide(r, p), Divide(s, q))
    decreases |p|
  {
    if p == [] {
    } else {
      FeedLinear(r, s, p[0], q[0]);
      assert Add(p, q)[1..] == Add(p[1..], q[1..]);
      DivideLinear(Feed(r, p[0]), Feed(s, q[0]), p[1..], q[1..]);
    }
  }

  lemma {:induction false} DivideConcat(r: Residue, p: Poly, q: Poly)
    ensures Divide(r, p + q) == Divide(Divide(r, p), q)
    decreases |p|
  {
    if p == [] {
      assert p + q == q;
    } else {
      assert (p + q)[1..] == p[1..] + q;
      DivideConcat(Feed(r, p[0]), p[1..], q);
    }
  }

  lemma {:induction false} DivideZeros(r: Residue, n: nat)
    ensures Divide(r, Zeros(n)) == Steps(r, n)
    decreases n
  {
    if n == 0 {
    } else {
      assert Zeros(n) == Zeros(n - 1) + [false];
      DivideConcat(r, Zeros(n - 1), [false]);
      DivideZeros(r, n - 1);
      assert [false][1..] == [];
    }
  }

  lemma {:induction false} StepsLinear(r: Residue, s: Residue, n: nat)
    ensures Steps(Add(r, s), n) == Add(Steps(r, n), Steps(s, n))
  {
    hide Feed, Add;
    if n == 0 {
    } else {
      StepsLinear(r, s, n - 1);
      FeedLinear(Steps(r, n - 1), Steps(s, n - 1), false, false);
    }
  }

  lemma {:induction false} StepsAdd(r: Residue, m: nat, n: nat)
    ensures Steps(r, m + n) == Steps(Steps(r, m), n)
  {
    hide Step;
    if n == 0 {
    } else {
      assert m + n - 1 == m + (n - 1);
      StepsAdd(r, m, n - 1);
    }
  }

  lemma AddZero(r: Residue)
    ensures Add(r, ZERO) == r == Add(ZERO, r)
  {
  }

  lemma AddIsZero(r: Residue, s: Residue)
    ensures Add(r, s) == ZERO <==> r == s
  {
    if r != s {
      var i :| 0 <= i < 16 && r[i] != s[i];
      assert Add(r, s)[i];
    } else {
      assert Add(r, s) == ZERO;
    }
  }

  lemma StepZero(r: Residue)
    ensures Step(r) == ZERO <==> r == ZERO
  {
    if r == ZERO {
      assert Step(r) == ZERO;
    } else {
      var i :| 0 <= i < 16 && r[i];
      if r[0] {
        assert Step(r)[15];
      } else {
        assert Step(r)[i - 1];
      }
    }
  }

  /** Multiplying by a power of x loses nothing: x is invertible. */
  lemma {:induction false} StepsZero(r: Residue, n: nat)
    ensures Steps(r, n) == ZERO <==> r == ZERO
  {
    hide Step;
    if n == 0 {
    } else {
      StepsZero(r, n - 1);
      StepZero(Steps(r, n - 1));
    }
  }

  /** A remainder followed by coefficients: the remainder is only shifted. */
  lemma DivideSplit(r: Residue, p: Poly)
    ensures Divide(r, p) == Add(Steps(r, |p|), Remainder(p))
  {
    assert Add(Zeros(|p|), p) == p;
    AddZero(r);
    DivideLinear(r, ZERO, Zeros(|p|), p);
    DivideZeros(r, |p|);
  }

  lemma RemainderAdd(p: Poly, q: Poly)
    requires |p| == |q|
    ensures Remainder(Add(p, q)) == Add(Remainder(p), Remainder(q))
  {
    AddZero(ZERO);
    DivideLinear(ZERO, ZERO, p, q);
  }

  lemma RemainderConcat(p: Poly, q: Poly)
    ensures Remainder(p + q) == Add(Steps(Remainder(p), |q|), Remainder(q))
  {
    DivideConcat(ZERO, p, q);
    DivideSplit(Remainder(p), q);
  }

  lemma RemainderZeros(n: nat)
    ensures Remainder(Zeros(n)) == ZERO
  {
    DivideZeros(ZERO, n);
    StepsZero(ZERO, n);
  }

  /** Leading zeros do not count. */
  lemma RemainderLeadingZero(p: Poly)
    ensures Remainder([false] + p) == Remainder(p)
  {
    StepZero(ZERO);
    assert ([false] + p)[1..] == p;
  }

  lemma FeedShort(t: Poly, b: bool)
    requires |t| < 16
    ensures Feed(Zeros(16 - |t|) + t, b) == Zeros(15 - |t|) + (t + [b])
  {
    var r := Zeros(16 - |t|) + t;
    assert !r[0];
    assert r[1..] + [b] == Zeros(15 - |t|) + (t + [b]);
    AddZero(r[1..] + [b]);
  }

  lemma DivideOne(r: Residue, b: bool)
    ensures Divide(r, [b]) == Feed(r, b)
  {
    assert [b][1..] == [];
  }

  /** Up to sixteen coefficients are their own remainder. */
  lemma {:induction false} RemainderShort(p: Poly)
    requires |p| <= 16
    ensures Remainder(p) == Zeros(16 - |p|) + p
  {
    if p == [] {
    } else {
      var n := |p| - 1;
      assert p == p[..n] + [p[n]];
      RemainderShort(p[..n]);
      DivideConcat(ZERO, p[..n], [p[n]]);
      hide Feed;
      DivideOne(Remainder(p[..n]), p[n]);
      FeedShort(p[..n], p[n]);
    }
  }

  // ------------------------------------------------- the remainder is the polynomial's

  /** One shifted copy of q for each term of the generator. */
  function ProductCoeff(q: Poly, j: int): bool {
    Xor(Xor(Coeff(q, j), Coeff(q, j - 4)), Xor(Coeff(q, j - 11), Coeff(q, j - 16)))
  }

  /** The product of q and the generator. */
  function TimesGenerator(q: Poly): (p: Poly)
    ensures |p| == |q| + 16
    ensures forall j :: 0 <= j < |p| ==> p[j] == ProductCoeff(q, j)
  {
    seq(|q| + 16, j => ProductCoeff(q, j))
  }

  ghost predicate IsQuotient(q: Poly, p: Poly) { TimesGenerator(q) == p }

  ghost predicate IsMultiple(p: Poly) { exists q :: IsQuotient(q, p) }

  /** x^n times the generator, in n + 17 coefficients. */
  function GeneratorShifted(n: nat): (p: Poly)
    ensures |p| == n + 17
  {
    [true] + Generator() + Zeros(n)
  }

  lemma StepsOneSixteen()
    ensures Steps(ONE, 16) == Generator()
  {
    StepsOne(15);
    var top := Steps(ONE, 15);
    assert top[0] && forall i :: 1 <= i < 16 ==> !top[i];
    assert Step(top) == Generator();
  }

  lemma RemainderGenerator(n: nat)
    ensures Remainder(GeneratorShifted(n)) == ZERO
  {
    RemainderShort([true]);
    RemainderShort(Generator());
    assert Zeros(0) + Generator() == Generator();
    StepsOneSixteen();
    RemainderConcat([true], Generator());
    AddIsZero(Generator(), Generator());
    RemainderConcat([true] + Generator(), Zeros(n));
    RemainderZeros(n);
    StepsZero(ZERO, n);
    AddZero(ZERO);
  }

  lemma StepUp(r: Residue)
    requires !r[0]
    ensures Step(r) == r[1..] + [false]
  {
  }

  lemma {:induction false} StepsOne(n: nat)
    requires n < 16
    ensures Steps(ONE, n) == Zeros(15 - n) + [true] + Zeros(n)
  {
    hide Step;
    if n == 0 {
    } else {
      StepsOne(n - 1);
      StepUp(Steps(ONE, n - 1));
    }
  }

  /** The leading term b of the multiplier adds b copies of the generator, shifted to the top. */
  function LeadingTerm(b: bool, n: nat): (p: Poly)
    ensures |p| == n + 17 && p[0] == b
    ensures forall j :: 0 <= j < n + 17 ==> p[j] == (b && (j == 0 || j == 4 || j == 11 || j == 16))
  {
    if b then GeneratorShifted(n) else Zeros(n + 17)
  }

  lemma ProductCoeffFront(b: bool, q: Poly, j: nat)
    ensures ProductCoeff([b] + q, j) ==
            Xor(ProductCoeff(q, j - 1), b && (j == 0 || j == 4 || j == 11 || j == 16))
  {
    CoeffFront(b, q, j);
    CoeffFront(b, q, j - 4);
    CoeffFront(b, q, j - 11);
    CoeffFront(b, q, j - 16);
  }

  lemma TimesGeneratorFront(b: bool, q: Poly)
    ensures TimesGenerator([b] + q) == Add([false] + TimesGenerator(q), LeadingTerm(b, |q|))
  {
    var l, p := TimesGenerator([b] + q), TimesGenerator(q);
    var r := Add([false] + p, LeadingTerm(b, |q|));
    forall j | 0 <= j < |q| + 17 ensures l[j] == r[j] {
      ProductCoeffFront(b, q, j);
      assert j > 0 ==> ([false] + p)[j] == p[j - 1];
    }
  }

  lemma CoeffFront(b: bool, q: Poly, j: int)
    ensures Coeff([b] + q, j) == if j == 0 then b else Coeff(q, j - 1)
  {
  }

  lemma RemainderLeadingTerm(b: bool, n: nat)
    ensures Remainder(LeadingTerm(b, n)) == ZERO
  {
    if b {
      RemainderGenerator(n);
    } else {
      RemainderZeros(n + 17);
    }
  }

  lemma TimesNothing()
    ensures TimesGenerator([]) == Zeros(16)
  {
  }

  /** Whatever the generator divides leaves no remainder. */
  lemma {:induction false} MultipleHasNoRemainder(q: Poly)
    ensures Remainder(TimesGenerator(q)) == ZERO
    decreases |q|
  {
    if q == [] {
      TimesNothing();
      RemainderZeros(16);
    } else {
      var b, t := q[0], q[1..];
      assert q == [b] + t;
      TimesGeneratorFront(b, t);
      MultipleHasNoRemainder(t);
      RemainderLeadingZero(TimesGenerator(t));
      RemainderLeadingTerm(b, |t|);
      RemainderAdd([false] + TimesGenerator(t), LeadingTerm(b, |t|));
      AddZero(ZERO);
    }
  }

  /** Subtracting the leading term: the first step of long division. */
  lemma LongDivisionStep(p: Poly) returns (rest: Poly)
    requires |p| >= 17
    ensures |rest| == |p| - 1 && Remainder(rest) == Remainder(p)
    ensures p == Add([false] + rest, LeadingTerm(p[0], |p| - 17))
  {
    var g := LeadingTerm(p[0], |p| - 17);
    var s := Add(p, g);
    rest := s[1..];
    assert s == [false] + rest;
    RemainderLeadingTerm(p[0], |p| - 17);
    RemainderAdd(p, g);
    AddZero(Remainder(p));
    RemainderLeadingZero(rest);
  }

  /** Long division from the top: no remainder means there is a quotient. */
  lemma {:induction false} NoRemainderIsMultiple(p: Poly) returns (q: Poly)
    requires |p| >= 16 && Remainder(p) == ZERO
    ensures IsQuotient(q, p)
    decreases |p|
  {
    if |p| == 16 {
      RemainderShort(p);
      q := [];
      assert p == Zeros(16);
      TimesNothing();
    } else {
      var rest := LongDivisionStep(p);
      var t := NoRemainderIsMultiple(rest);
      q := [p[0]] + t;
      TimesGeneratorFront(p[0], t);
    }
  }

  lemma RemainderZeroIffMultiple(p: Poly)
    requires |p| >= 16
    ensures Remainder(p) == ZERO <==> IsMultiple(p)
  {
    if Remainder(p) == ZERO {
      var q := NoRemainderIsMultiple(p);
    }
    if IsMultiple(p) {
      var q :| IsQuotient(q, p);
      MultipleHasNoRemainder(q);
    }
  }

  /**
   The sixteen check bits of a message: its remainder once multiplied by X^16.  They are the
   only ones that make message and check bits together a multiple of the generator.
   */
  lemma CheckBitsAreTheRemainder(m: Poly, check: Residue)
    ensures IsMultiple(m + check) <==> check == Remainder(m + Zeros(16))
  {
    RemainderZeroIffMultiple(m + check);
    RemainderConcat(m, check);
    RemainderShort(check);
    assert Zeros(0) + check == check;
    RemainderConcat(m, Zeros(16));
    RemainderZeros(16);
    AddZero(Steps(Remainder(m), 16));
    AddIsZero(Steps(Remainder(m), 16), check);
  }
}
