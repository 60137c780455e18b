/** The numerals of block 0: what "%d" and "%o" print, and what strtoul reads. */
module Numerals {
  import opened Bytes

  const TWO_32 := 0x1_0000_0000
  const TWO_31 := 0x8000_0000
  const ULONG_MAX := 0xffff_ffff_ffff_ffff

  const MINUS: byte := 0x2d
  const PLUS: byte := 0x2b
  const ZERO_DIGIT: byte := 0x30

  predicate IsBase(base: nat) { base == 8 || base == 10 }

  predicate IsDigit(c: byte, base: nat) { ZERO_DIGIT <= c < ZERO_DIGIT + base }

  /** The digits of n, most significant first. */
  function Digits(n: nat, base: nat): (s: seq<byte>)
    requires IsBase(base)
    ensures s != [] && forall i :: 0 <= i < |s| ==> IsDigit(s[i], base)
  {
    if n < base then [ZERO_DIGIT + n] else Digits(n / base, base) + [ZERO_DIGIT + n % base]
  }

  /** "%d" of a 32-bit unsigned value: printed as a signed one. */
  function PrintSigned(n: nat): seq<byte>
    requires n < TWO_32
  {
    if n < TWO_31 then Digits(n, 10) else [MINUS] + Digits(TWO_32 - n, 10)
  }

  // ------------------------------------------------------------------------- strtoul

  /** isspace */
  predicate IsSpace(c: byte) { c == 0x20 || 0x09 <= c <= 0x0d }

  function SkipSpaces(s: seq<byte>): seq<byte> {
    if s != [] && IsSpace(s[0]) then SkipSpaces(s[1..]) else s
  }

  /** The leading digits of s. */
  function DigitSpan(s: seq<byte>, base: nat): (n: nat)
    ensures n <= |s|
  {
    if s != [] && IsDigit(s[0], base) then 1 + DigitSpan(s[1..], base) else 0
  }

  function Value(digits: seq<byte>, base: nat): nat
    requires forall i :: 0 <= i < |digits| ==> IsDigit(digits[i], base)
  {
    if digits == [] then 0
    else
      var last := digits[|digits| - 1];
      assert IsDigit(last, base);
      Value(digits[..|digits| - 1], base) * base + (last - ZERO_DIGIT)
  }

  lemma {:induction false} SpanIsDigits(s: seq<byte>, base: nat)
    ensures forall i :: 0 <= i < DigitSpan(s, base) ==> IsDigit(s[i], base)
  {
    if s == [] || !IsDigit(s[0], base) {
    } else {
      SpanIsDigits(s[1..], base);
    }
  }

  datatype Number = Number(value: nat, whole: bool)

  /**
   strtoul with a 64-bit unsigned long, cut to 32 bits, on a C string: blanks, a sign, digits; a minus
   sign negates, an overflow saturates.  `whole` tells that nothing follows the number.
   */
  function ReadNumber(s: seq<byte>, base: nat): Number {
    var t := SkipSpaces(s);
    var u := if t != [] && (t[0] == MINUS || t[0] == PLUS) then t[1..] else t;
    var n := DigitSpan(u, base);
    if n == 0 then Number(0, s == [])
    else
      SpanIsDigits(u, base);
      var v := Value(u[..n], base);
      var long :=
        if v > ULONG_MAX then ULONG_MAX else if t[0] == MINUS then (ULONG_MAX + 1 - v) % (ULONG_MAX + 1) else v;
      Number(long % TWO_32, n == |u|)
  }

  // ---------------------------------------------------------------- reading back

  lemma {:induction false} AllDigitsSpan(s: seq<byte>, base: nat)
    requires forall i :: 0 <= i < |s| ==> IsDigit(s[i], base)
    ensures DigitSpan(s, base) == |s|
  {
    if s == [] {
    } else {
      AllDigitsSpan(s[1..], base);
    }
  }

  lemma {:induction false} DigitsValue(n: nat, base: nat)
    requires IsBase(base)
    ensures Value(Digits(n, base), base) == n
  {
    var s := Digits(n, base);
    if n < base {
      assert s[..0] == [];
    } else {
      DigitsValue(n / base, base);
      assert s[..|s| - 1] == Digits(n / base, base);
    }
  }

  lemma ReadDigits(d: seq<byte>, base: nat)
    requires IsBase(base) && d != [] && forall i :: 0 <= i < |d| ==> IsDigit(d[i], base)
    requires Value(d, base) < TWO_32
    ensures ReadNumber(d, base) == Number(Value(d, base), true)
  {
    hide Value, DigitSpan;
    AllDigitsSpan(d, base);
    assert d[..|d|] == d;
    assert IsDigit(d[0], base);
  }

  lemma ReadMinus(d: seq<byte>)
    requires d != [] && forall i :: 0 <= i < |d| ==> IsDigit(d[i], 10)
    requires 0 < Value(d, 10) < TWO_32
    ensures ReadNumber([MINUS] + d, 10) == Number(TWO_32 - Value(d, 10), true)
  {
    hide Value, DigitSpan;
    AllDigitsSpan(d, 10);
    assert d[..|d|] == d;
    assert ([MINUS] + d)[1..] == d;
    Negated(Value(d, 10));
  }

  lemma Negated(v: nat)
    requires 0 < v < TWO_32
    ensures (ULONG_MAX + 1 - v) % (ULONG_MAX + 1) % TWO_32 == TWO_32 - v
  {
  }

  /** Printing and reading back, any 32-bit value, in base 10 through a signed format. */
  lemma SignedRoundTrip(n: nat)
    requires n < TWO_32
    ensures ReadNumber(PrintSigned(n), 10) == Number(n, true)
  {
    hide Value, Digits, ReadNumber;
    var v := if n < TWO_31 then n else TWO_32 - n;
    DigitsValue(v, 10);
    if n < TWO_31 {
      ReadDigits(Digits(v, 10), 10);
    } else {
      ReadMinus(Digits(v, 10));
    }
  }

  lemma OctalRoundTrip(n: nat)
    requires n < TWO_32
    ensures ReadNumber(Digits(n, 8), 8) == Number(n, true)
  {
    hide Value, Digits, ReadNumber;
    DigitsValue(n, 8);
    ReadDigits(Digits(n, 8), 8);
  }

  /** Printed numbers hold neither blanks nor NULs. */
  predicate IsWord(s: seq<byte>) { s != [] && forall i :: 0 <= i < |s| ==> s[i] != 0 && s[i] != 0x20 }

  lemma PrintedAreWords(n: nat)
    requires n < TWO_32
    ensures IsWord(PrintSigned(n)) && IsWord(Digits(n, 8))
  {
  }

  /** A number with something other than a digit behind it has its value, but is not the whole field. */
  lemma MoreBehindNumber(d: seq<byte>, base: nat, c: byte, rest: seq<byte>)
    requires IsBase(base) && d != [] && forall i :: 0 <= i < |d| ==> IsDigit(d[i], base)
    requires !IsDigit(c, base) && Value(d, base) < TWO_32
    ensures ReadNumber(d + [c] + rest, base) == Number(Value(d, base), false)
  {
    hide Value, DigitSpan;
    var s := d + [c] + rest;
    DigitsThenOther(d, base, [c] + rest);
    assert s == d + ([c] + rest) && s[..|d|] == d;
    assert IsDigit(d[0], base) && s[0] == d[0];
  }

  lemma {:induction false} DigitsThenOther(d: seq<byte>, base: nat, rest: seq<byte>)
    requires forall i :: 0 <= i < |d| ==> IsDigit(d[i], base)
    requires rest != [] && !IsDigit(rest[0], base)
    ensures DigitSpan(d + rest, base) == |d|
  {
    var s := d + rest;
    if d == [] {
      assert s == rest;
    } else {
      assert s[0] == d[0] && s[1..] == d[1..] + rest;
      DigitsThenOther(d[1..], base, rest);
    }
  }

  /** The leading digit counts its place. */
  function Power(base: nat, n: nat): nat { if n == 0 then 1 else base * Power(base, n - 1) }

  lemma {:induction false} LeadingDigit(c: byte, rest: seq<byte>, base: nat)
    requires IsDigit(c, base) && forall i :: 0 <= i < |rest| ==> IsDigit(rest[i], base)
    ensures forall i :: 0 <= i < |[c] + rest| ==> IsDigit(([c] + rest)[i], base)
    ensures Value([c] + rest, base) == (c - 0x30) * Power(base, |rest|) + Value(rest, base)
    decreases |rest|
  {
    var s := [c] + rest;
    if rest == [] {
      assert s == [c] && s[..0] == [];
      assert Value([], base) == 0;
    } else {
      var n := |rest| - 1;
      LeadingDigit(c, rest[..n], base);
      assert s[..|s| - 1] == [c] + rest[..n] && s[|s| - 1] == rest[n];
      PlaceUp(c - 0x30, Power(base, n), Value(rest[..n], base), base, rest[n] - 0x30);
    }
  }

  lemma PlaceUp(d: int, p: int, v: int, base: int, last: int)
    ensures (d * p + v) * base + last == d * (base * p) + (v * base + last)
  {
  }
}
