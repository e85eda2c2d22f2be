/** Decimal values and their numeric order, which does not depend on how a number is scaled. */
module Decimals {
  import opened Digits
  import opened Machine

  /** apd.Decimal: not a number, an infinity, or plus or minus coeff times ten to the exponent. */
  datatype Decimal =
    | NaN
    | Infinite(negative: bool)
    | Finite(negative: bool, coeff: nat, exponent: Int32)

  /** mantissa times ten to the exponent, without a bound on the exponent. */
  datatype Number = Number(mantissa: int, exponent: int) {
    function ScaledTo(m: int): int
      requires m <= exponent
    {
      mantissa * Pow(10, exponent - m)
    }

    function Negated(): Number {
      Number(-mantissa, exponent)
    }
  }

  predicate NumLess(a: Number, b: Number) {
    var m := Min(a.exponent, b.exponent);
    a.ScaledTo(m) < b.ScaledTo(m)
  }

  predicate NumEqual(a: Number, b: Number) {
    var m := Min(a.exponent, b.exponent);
    a.ScaledTo(m) == b.ScaledTo(m)
  }

  /** Any common scale decides the order. */
  lemma AnyScale(a: Number, b: Number, m: int)
    requires m <= a.exponent && m <= b.exponent
    ensures NumLess(a, b) <==> a.ScaledTo(m) < b.ScaledTo(m)
    ensures NumEqual(a, b) <==> a.ScaledTo(m) == b.ScaledTo(m)
  {
    var k := Min(a.exponent, b.exponent);
    Rescale(a, k, m);
    Rescale(b, k, m);
    MulStrict(a.ScaledTo(k), b.ScaledTo(k), Pow(10, k - m));
  }

  lemma Rescale(a: Number, k: int, m: int)
    requires m <= k <= a.exponent
    ensures a.ScaledTo(m) == a.ScaledTo(k) * Pow(10, k - m)
  {
    PowAdd(10, a.exponent - k, k - m);
    var x, y, z := a.mantissa, Pow(10, a.exponent - k), Pow(10, k - m);
    assert x * (y * z) == (x * y) * z;
  }

  /** Order and equality do not distinguish equal numbers. */
  lemma NumCongruent(a: Number, a': Number, b: Number, b': Number)
    requires NumEqual(a, a') && NumEqual(b, b')
    ensures NumLess(a, b) <==> NumLess(a', b')
    ensures NumEqual(a, b) <==> NumEqual(a', b')
  {
    var m := Min(Min(a.exponent, a'.exponent), Min(b.exponent, b'.exponent));
    AnyScale(a, a', m);
    AnyScale(b, b', m);
    AnyScale(a, b, m);
    AnyScale(a', b', m);
  }

  lemma NegationReverses(a: Number, b: Number)
    ensures NumLess(a.Negated(), b.Negated()) <==> NumLess(b, a)
    ensures NumEqual(a.Negated(), b.Negated()) <==> NumEqual(a, b)
  {
    var m := Min(a.exponent, b.exponent);
    assert a.Negated().ScaledTo(m) == -a.ScaledTo(m);
    assert b.Negated().ScaledTo(m) == -b.ScaledTo(m);
  }

  lemma SignOfScaled(a: Number, m: int)
    requires m <= a.exponent
    ensures a.mantissa < 0 <==> a.ScaledTo(m) < 0
    ensures a.mantissa == 0 <==> a.ScaledTo(m) == 0
  {
    MulStrict(a.mantissa, 0, Pow(10, a.exponent - m));
  }

  function ToNumber(d: Decimal): Number
    requires d.Finite?
  {
    Number(if d.negative then 0 - d.coeff else d.coeff, d.exponent)
  }

  /** Numeric order of decimals, with NaN first and the infinities at the ends. */
  predicate Less(a: Decimal, b: Decimal) {
    match (a, b)
    case (_, NaN) => false
    case (NaN, _) => true
    case (Infinite(m), Infinite(n)) => m && !n
    case (Infinite(m), Finite(_, _, _)) => m
    case (Finite(_, _, _), Infinite(n)) => !n
    case (Finite(_, _, _), Finite(_, _, _)) => NumLess(ToNumber(a), ToNumber(b))
  }

  predicate Equal(a: Decimal, b: Decimal) {
    if a.Finite? && b.Finite? then NumEqual(ToNumber(a), ToNumber(b)) else a == b
  }

  lemma Trichotomy(a: Decimal, b: Decimal)
    ensures Less(a, b) || Equal(a, b) || Less(b, a)
    ensures !(Less(a, b) && Less(b, a)) && !(Less(a, b) && Equal(a, b))
    ensures Equal(a, b) <==> Equal(b, a)
  {}

  function DecimalDigits(n: nat): (s: seq<nat>)
    ensures AllBelow(s, 10)
  {
    ToDigits(n, 10)
  }

  /** apd.NumDigits: the number of decimal digits, which is one for zero. */
  function NumDigits(n: nat): (k: nat)
    ensures k > 0
  {
    if n == 0 then 1 else |DecimalDigits(n)|
  }

  /**
   A Go slice is indexed by a 64-bit int, so the digits of a coefficient in memory are fewer than
   this. Without the bound an exponent might not fit the 64-bit integer it is encoded as.
   */
  predicate InMemory(d: Decimal) {
    d.Finite? ==> NumDigits(d.coeff) < 0x4000_0000_0000_0000
  }
}
