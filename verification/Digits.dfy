/**
 Positional numerals in an arbitrary base, most significant digit first. The decimal text of a
 coefficient, the base-100 mantissa of a key, the big-endian bytes of an integer and the bits of a
 machine word are all instances.
 */
module Digits {

  function Pow(b: nat, n: nat): (p: nat)
    requires b > 0
    ensures p > 0
    decreases n
  {
    if n == 0 then 1 else MulPos(b, Pow(b, n - 1)); b * Pow(b, n - 1)
  }

  lemma MulPos(x: nat, y: nat)
    requires x > 0 && y > 0
    ensures x * y > 0
  {}

  lemma {:induction false} PowAdd(b: nat, m: nat, n: nat)
    requires b > 0
    ensures Pow(b, m + n) == Pow(b, m) * Pow(b, n)
    decreases m
  {
    if m == 0 {
      assert Pow(b, 0) == 1;
    } else {
      PowAdd(b, m - 1, n);
      assert Pow(b, m + n) == b * Pow(b, m - 1 + n);
      MulAssoc(b, Pow(b, m - 1), Pow(b, n));
    }
  }

  lemma {:induction false} PowMonotone(b: nat, m: nat, n: nat)
    requires b > 0 && m <= n
    ensures Pow(b, m) <= Pow(b, n)
    decreases n - m
  {
    if m < n {
      PowMonotone(b, m + 1, n);
      var x := Pow(b, m);
      assert b * x >= 1 * x by { MulMonotone(1, b, x); }
    }
  }

  lemma {:induction false} PowStrict(b: nat, m: nat, n: nat)
    requires b > 1 && m < n
    ensures Pow(b, m) < Pow(b, n)
  {
    PowMonotone(b, m + 1, n);
    var x := Pow(b, m);
    assert b * x >= 2 * x by { MulMonotone(2, b, x); }
  }

  /** 100 to the n is 10 to the 2n. */
  lemma {:induction false} PowHundred(n: nat)
    ensures Pow(100, n) == Pow(10, 2 * n)
  {
    if n > 0 {
      PowHundred(n - 1);
      assert Pow(10, 2 * n) == 10 * Pow(10, 2 * n - 1) == 100 * Pow(10, 2 * n - 2);
    }
  }

  lemma MulAssoc(x: int, y: int, z: int)
    ensures (x * y) * z == x * (y * z)
  {}

  lemma MulMonotone(x: int, y: int, z: int)
    requires x <= y && 0 <= z
    ensures x * z <= y * z
  {}

  lemma MulStrict(x: int, y: int, z: int)
    requires 0 < z
    ensures x < y <==> x * z < y * z
    ensures x == y <==> x * z == y * z
  {}

  /** Quotient and remainder are determined by the division equation. */
  lemma DivModUnique(n: int, d: int, q: int, r: int)
    requires d > 0 && 0 <= r < d && n == q * d + r
    ensures n / d == q && n % d == r
  {
    var q', r' := n / d, n % d;
    assert n == q' * d + r';
    assert (q - q') * d == r' - r;
    if q < q' {
      MulMonotone(q - q', -1, d);
    } else if q > q' {
      MulMonotone(1, q - q', d);
    }
  }

  ghost predicate AllBelow(s: seq<nat>, b: nat) {
    forall i :: 0 <= i < |s| ==> s[i] < b
  }

  /** The number a numeral denotes. */
  function FromDigits(s: seq<nat>, b: nat): nat
    requires b > 0
  {
    if |s| == 0 then 0 else FromDigits(s[..|s| - 1], b) * b + s[|s| - 1]
  }

  /** The shortest numeral of a number; zero has none. */
  function ToDigits(n: nat, b: nat): (s: seq<nat>)
    requires b > 1
    ensures AllBelow(s, b)
    ensures n == 0 <==> s == []
    ensures s != [] ==> s[0] > 0
    decreases n
  {
    if n == 0 then [] else QuotientSmaller(n, b); ToDigits(n / b, b) + [n % b]
  }

  lemma QuotientSmaller(n: nat, b: nat)
    requires n > 0 && b > 1
    ensures 0 <= n / b < n
    ensures n < b ==> n / b == 0 && n % b == n
    ensures n >= b ==> n / b > 0
  {
    var q, r := n / b, n % b;
    assert n == q * b + r;
    if q >= n { MulMonotone(2, b, q); }
    if q < 0 { MulMonotone(q, -1, b); }
    if n < b {
      if q > 0 { MulMonotone(1, q, b); }
      DivModUnique(n, b, 0, n);
    }
  }

  lemma FromDigitsSnoc(s: seq<nat>, d: nat, b: nat)
    requires b > 0
    ensures FromDigits(s + [d], b) == FromDigits(s, b) * b + d
  {
    assert (s + [d])[..|s|] == s;
  }

  lemma DivModIdentity(n: nat, d: nat)
    requires d > 0
    ensures n / d * d + n % d == n
    ensures 0 <= n % d < d
  {}

  lemma {:induction false} FromToDigits(n: nat, b: nat)
    requires b > 1
    ensures FromDigits(ToDigits(n, b), b) == n
    decreases n
  {
    if n > 0 {
      QuotientSmaller(n, b);
      FromToDigits(n / b, b);
      FromDigitsSnoc(ToDigits(n / b, b), n % b, b);
      DivModIdentity(n, b);
    }
  }

  lemma Rearrange(x: int, y: int, z: int, b: int)
    ensures (x * y + z) * b == x * (b * y) + z * b
  {
    assert (x * y) * b == x * (b * y);
  }

  lemma {:induction false} FromDigitsConcat(a: seq<nat>, c: seq<nat>, b: nat)
    requires b > 0
    ensures FromDigits(a + c, b) == FromDigits(a, b) * Pow(b, |c|) + FromDigits(c, b)
    decreases |c|
  {
    if c == [] {
      assert a + c == a;
      assert Pow(b, 0) == 1;
    } else {
      var c' := c[..|c| - 1];
      FromDigitsConcat(a, c', b);
      assert (a + c)[..|a + c| - 1] == a + c';
      Rearrange(FromDigits(a, b), Pow(b, |c'|), FromDigits(c', b), b);
    }
  }

  lemma StepBounds(x: nat, d: nat, p: nat, b: nat)
    requires d < b && x < p
    ensures x * b + d < b * p
  {
    MulMonotone(x + 1, p, b);
  }

  /** A numeral of n digits is below the n-th power of the base, and has no smaller bound. */
  lemma {:induction false} FromDigitsBounds(s: seq<nat>, b: nat)
    requires b > 1 && AllBelow(s, b)
    ensures FromDigits(s, b) < Pow(b, |s|)
    ensures s != [] && s[0] > 0 ==> Pow(b, |s| - 1) <= FromDigits(s, b)
    decreases |s|
  {
    if s != [] {
      var t := s[..|s| - 1];
      FromDigitsBounds(t, b);
      StepBounds(FromDigits(t, b), s[|s| - 1], Pow(b, |t|), b);
      if s[0] > 0 && t != [] {
        assert t[0] == s[0];
        MulMonotone(Pow(b, |t| - 1), FromDigits(t, b), b);
      }
    }
  }

  function Zeros(n: nat): (s: seq<nat>)
    ensures |s| == n && forall i :: 0 <= i < n ==> s[i] == 0
  {
    seq(n, _ => 0)
  }

  lemma {:induction false} FromZeros(n: nat, b: nat)
    requires b > 0
    ensures FromDigits(Zeros(n), b) == 0
  {
    if n > 0 {
      FromZeros(n - 1, b);
      assert Zeros(n)[..n - 1] == Zeros(n - 1);
    }
  }
}
