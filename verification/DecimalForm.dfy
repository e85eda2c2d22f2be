/**
 The normal form behind a sortable decimal key: a power of one hundred and a base-100 fraction
 whose first and last digits are not zero. Numbers compare as exponent first, then fraction.
 */
module DecimalForm {
  import opened Digits
  import opened Bytes
  import opened Decimals
  import opened Machine

  /** 0.x[0]x[1]... in base 100, times 100 to the e. */
  datatype Form = Form(e: int, x: seq<nat>)

  predicate Normal(f: Form) {
    f.x != [] && f.x[0] > 0 && f.x[|f.x| - 1] > 0 && forall i :: 0 <= i < |f.x| ==> f.x[i] < 100
  }

  function FormNumber(f: Form): Number {
    Number(FromDigits(f.x, 100), 2 * (f.e - |f.x|))
  }

  function StripTrailingZeros(s: seq<nat>): (t: seq<nat>)
    ensures |t| <= |s| && t == s[..|t|]
    ensures forall i :: |t| <= i < |s| ==> s[i] == 0
    ensures t != [] ==> t[|t| - 1] > 0
  {
    if s == [] || s[|s| - 1] > 0 then s else StripTrailingZeros(s[..|s| - 1])
  }

  /** The exponent of ten when all digits stand to the right of the decimal point. */
  function Exponent10(d: Decimal): int
    requires d.Finite?
  {
    d.exponent + |DecimalDigits(d.coeff)|
  }

  /** Go's conversion of a power of ten to a power of one hundred; its division truncates. */
  function Exponent100(e10: int): (e: int)
    ensures e10 <= 2 * e <= e10 + 1
  {
    if e10 >= 0 then (e10 + 1) / 2 else -(-e10 / 2)
  }

  /** Digits with a leading zero if asked for, and a trailing zero if that makes their number even. */
  function Align(s: seq<nat>, leadingZero: bool): (a: seq<nat>)
    ensures |a| % 2 == 0
  {
    var t := if leadingZero then [0] + s else s;
    if |t| % 2 != 0 then t + [0] else t
  }

  /** The power of ten is odd: the first base-100 digit gets a leading zero. */
  predicate OddExponent(d: Decimal)
    requires d.Finite?
  {
    2 * Exponent100(Exponent10(d)) != Exponent10(d)
  }

  function AlignedDigits(d: Decimal): (a: seq<nat>)
    requires d.Finite?
    ensures |a| % 2 == 0
  {
    Align(StripTrailingZeros(DecimalDigits(d.coeff)), OddExponent(d))
  }

  function Pairs(s: seq<nat>): (p: seq<nat>)
    requires |s| % 2 == 0
    ensures 2 * |p| == |s|
    ensures forall i :: 0 <= i < |p| ==> p[i] == 10 * s[2 * i] + s[2 * i + 1]
  {
    seq(|s| / 2, i requires 0 <= i < |s| / 2 => 10 * s[2 * i] + s[2 * i + 1])
  }

  lemma PairsCons(p: nat, q: nat, t: seq<nat>)
    requires |t| % 2 == 0
    ensures Pairs([p, q] + t) == [10 * p + q] + Pairs(t)
  {
    var s, u, v := [p, q] + t, Pairs([p, q] + t), Pairs(t);
    forall i | 0 <= i < |u| ensures u[i] == ([10 * p + q] + v)[i] {
      if i > 0 {
        var j := i - 1;
        assert v[j] == 10 * t[2 * j] + t[2 * j + 1];
        assert s[2 * i] == t[2 * j] && s[2 * i + 1] == t[2 * j + 1];
      }
    }
  }

  lemma PairsBelow(s: seq<nat>)
    requires |s| % 2 == 0 && AllBelow(s, 10)
    ensures AllBelow(Pairs(s), 100)
  {
    forall i | 0 <= i < |Pairs(s)| ensures Pairs(s)[i] < 100 {
      assert s[2 * i] < 10 && s[2 * i + 1] < 10;
    }
  }

  /** The form decimalEandM computes. */
  function ToForm(d: Decimal): Form
    requires d.Finite? && d.coeff > 0
  {
    Form(Exponent100(Exponent10(d)), Pairs(AlignedDigits(d)))
  }

  lemma {:induction false} FromPairs(s: seq<nat>)
    requires |s| % 2 == 0
    ensures FromDigits(Pairs(s), 100) == FromDigits(s, 10)
    decreases |s|
  {
    if s != [] {
      var n := |s|;
      var t := s[..n - 2];
      FromPairs(t);
      assert Pairs(s) == Pairs(t) + [10 * s[n - 2] + s[n - 1]];
      FromDigitsSnoc(Pairs(t), 10 * s[n - 2] + s[n - 1], 100);
      assert s == t + [s[n - 2]] + [s[n - 1]];
      TwoDigits(t, s[n - 2], s[n - 1]);
    }
  }

  lemma TwoDigits(t: seq<nat>, p: nat, q: nat)
    ensures FromDigits(t + [p] + [q], 10) == FromDigits(t, 10) * 100 + (10 * p + q)
  {
    FromDigitsSnoc(t, p, 10);
    FromDigitsSnoc(t + [p], q, 10);
  }

  lemma StrippedNonempty(c: nat)
    requires c > 0
    ensures var s := StripTrailingZeros(DecimalDigits(c)); s != [] && s[0] > 0 && s[|s| - 1] > 0
  {
    var s := StripTrailingZeros(DecimalDigits(c));
    assert DecimalDigits(c) != [] && DecimalDigits(c)[0] > 0;
  }

  /** How many trailing zeros the coefficient has in base ten. */
  function TrailingZeros(c: nat): nat {
    |DecimalDigits(c)| - |StripTrailingZeros(DecimalDigits(c))|
  }

  lemma StrippedValue(c: nat)
    ensures c == FromDigits(StripTrailingZeros(DecimalDigits(c)), 10) * Pow(10, TrailingZeros(c))
  {
    var s := DecimalDigits(c);
    var t := StripTrailingZeros(s);
    FromToDigits(c, 10);
    assert s == t + Zeros(TrailingZeros(c));
    FromDigitsConcat(t, Zeros(TrailingZeros(c)), 10);
    FromZeros(TrailingZeros(c), 10);
  }

  /** How many zeros Align puts behind the digits. */
  function Padding(s: seq<nat>, leadingZero: bool): (pad: nat)
    ensures pad <= 1
    ensures |Align(s, leadingZero)| == |s| + pad + (if leadingZero then 1 else 0)
  {
    |Align(s, leadingZero)| - |s| - (if leadingZero then 1 else 0)
  }

  lemma AlignedValue(s: seq<nat>, leadingZero: bool)
    ensures FromDigits(Align(s, leadingZero), 10) == FromDigits(s, 10) * Pow(10, Padding(s, leadingZero))
  {
    var t := if leadingZero then [0] + s else s;
    if leadingZero {
      FromDigitsConcat([0], s, 10);
      assert FromDigits([0], 10) == 0;
    }
    FromDigitsSnoc(t, 0, 10);
    assert Pow(10, 1) == 10 && Pow(10, 0) == 1;
  }

  /** Alignment and stripping keep the value: the form denotes the coefficient and exponent. */
  lemma FormKeepsValue(d: Decimal)
    requires d.Finite? && d.coeff > 0
    ensures NumEqual(Number(d.coeff, d.exponent), FormNumber(ToForm(d)))
  {
    var s := StripTrailingZeros(DecimalDigits(d.coeff));
    var tz, pad := TrailingZeros(d.coeff), Padding(s, OddExponent(d));
    StrippedValue(d.coeff);
    AlignedValue(s, OddExponent(d));
    FromPairs(AlignedDigits(d));
    SameProduct(FromDigits(s, 10), tz, pad, Number(d.coeff, d.exponent), FormNumber(ToForm(d)));
  }

  lemma SameProduct(v: nat, i: nat, j: nat, a: Number, b: Number)
    requires a.mantissa == v * Pow(10, i) && b.mantissa == v * Pow(10, j)
    requires i + a.exponent == j + b.exponent
    ensures NumEqual(a, b)
  {
    var m := Min(a.exponent, b.exponent);
    PowAdd(10, i, a.exponent - m);
    PowAdd(10, j, b.exponent - m);
    MulAssoc(v, Pow(10, i), Pow(10, a.exponent - m));
    MulAssoc(v, Pow(10, j), Pow(10, b.exponent - m));
  }

  lemma PairsNormal(s: seq<nat>, leadingZero: bool)
    requires s != [] && s[0] > 0 && s[|s| - 1] > 0 && AllBelow(s, 10)
    ensures var x := Pairs(Align(s, leadingZero));
            x != [] && x[0] > 0 && x[|x| - 1] > 0 && AllBelow(x, 100)
  {
    var a := Align(s, leadingZero);
    var x := Pairs(a);
    assert x[0] == 10 * a[0] + a[1];
    var n := |x| - 1;
    assert x[n] == 10 * a[2 * n] + a[2 * n + 1];
    PairsBelow(a);
  }

  lemma FormNormal(d: Decimal)
    requires d.Finite? && d.coeff > 0
    ensures Normal(ToForm(d))
  {
    StrippedNonempty(d.coeff);
    PairsNormal(StripTrailingZeros(DecimalDigits(d.coeff)), OddExponent(d));
  }

  /** The value of a fraction as a number of L base-100 places. */
  function Places(x: seq<nat>, L: nat): nat
    requires |x| <= L
    decreases |x|
  {
    if x == [] then 0 else x[0] * Pow(100, L - 1) + Places(x[1..], L - 1)
  }

  lemma {:induction false} PlacesValue(x: seq<nat>, L: nat)
    requires |x| <= L
    ensures Places(x, L) == FromDigits(x, 100) * Pow(100, L - |x|)
    decreases |x|
  {
    if x != [] {
      PlacesValue(x[1..], L - 1);
      FromDigitsCons(x[0], x[1..], 100);
      assert x == [x[0]] + x[1..];
      PowAdd(100, |x| - 1, L - |x|);
      Distribute(x[0], Pow(100, |x| - 1), FromDigits(x[1..], 100), Pow(100, L - |x|));
    }
  }

  lemma FromDigitsCons(d: nat, s: seq<nat>, b: nat)
    requires b > 0
    ensures FromDigits([d] + s, b) == d * Pow(b, |s|) + FromDigits(s, b)
  {
    FromDigitsConcat([d], s, b);
    FromDigitsSnoc([], d, b);
    assert [] + [d] == [d];
  }

  lemma Distribute(d: int, x: int, y: int, z: int)
    ensures (d * x + y) * z == d * (x * z) + y * z
  {
    assert (d * x) * z == d * (x * z);
  }

  lemma {:induction false} PlacesBounded(x: seq<nat>, L: nat)
    requires |x| <= L && AllBelow(x, 100)
    ensures Places(x, L) < Pow(100, L)
    decreases |x|
  {
    if x != [] {
      PlacesBounded(x[1..], L - 1);
      MulMonotone(x[0], 99, Pow(100, L - 1));
    }
  }

  lemma {:induction false} PlacesOrder(x: seq<nat>, y: seq<nat>, L: nat)
    requires |x| <= L && |y| <= L && AllBelow(x, 100) && AllBelow(y, 100)
    requires y == [] || y[|y| - 1] > 0
    requires LexLess(x, y)
    ensures Places(x, L) < Places(y, L)
    decreases |y|
  {
    var p := Pow(100, L - 1);
    if x == [] || x[0] < y[0] {
      if x == [] {
        PlacesPositive(y, L);
      } else {
        PlacesBounded(x[1..], L - 1);
        MulMonotone(x[0] + 1, y[0], p);
        assert (x[0] + 1) * p == x[0] * p + p;
      }
    } else {
      PlacesOrder(x[1..], y[1..], L - 1);
    }
  }

  lemma {:induction false} PlacesPositive(y: seq<nat>, L: nat)
    requires |y| <= L && y != [] && y[|y| - 1] > 0
    ensures Places(y, L) > 0
    decreases |y|
  {
    if |y| == 1 {
      MulMonotone(1, y[0], Pow(100, L - 1));
    } else {
      PlacesPositive(y[1..], L - 1);
      MulMonotone(0, y[0], Pow(100, L - 1));
    }
  }

  /** At a common scale below both exponents a form is its places times a power of one hundred. */
  lemma FormAtScale(f: Form, k: nat)
    requires f.e - |f.x| + k >= 0
    ensures FormNumber(f).ScaledTo(-2 * k) == FromDigits(f.x, 100) * Pow(100, f.e - |f.x| + k)
    ensures |f.x| <= f.e + k && FormNumber(f).ScaledTo(-2 * k) == Places(f.x, f.e + k)
  {
    PowHundred(f.e - |f.x| + k);
    PlacesValue(f.x, f.e + k);
  }

  lemma FormLess(f: Form, g: Form)
    requires Normal(f) && Normal(g)
    requires f.e < g.e || (f.e == g.e && LexLess(f.x, g.x))
    ensures NumLess(FormNumber(f), FormNumber(g))
  {
    var k: nat := |f.x| + |g.x| + (if f.e < 0 then -f.e else 0) + (if g.e < 0 then -g.e else 0);
    FormAtScale(f, k);
    FormAtScale(g, k);
    AnyScale(FormNumber(f), FormNumber(g), -2 * k);
    if f.e < g.e {
      PlacesBounded(f.x, f.e + k);
      PowMonotone(100, f.e + k, g.e + k - 1);
      MulMonotone(1, g.x[0], Pow(100, g.e + k - 1));
    } else {
      PlacesOrder(f.x, g.x, f.e + k);
    }
  }

  /** Forms order exactly as the numbers they denote, and only equal forms denote equal numbers. */
  lemma FormOrder(f: Form, g: Form)
    requires Normal(f) && Normal(g)
    ensures NumLess(FormNumber(f), FormNumber(g)) <==> f.e < g.e || (f.e == g.e && LexLess(f.x, g.x))
    ensures NumEqual(FormNumber(f), FormNumber(g)) <==> f == g
  {
    LexLessTotal(f.x, g.x);
    if f.e < g.e || (f.e == g.e && LexLess(f.x, g.x)) {
      FormLess(f, g);
      LexLessIrreflexive(f.x);
    } else if g.e < f.e || (f.e == g.e && LexLess(g.x, f.x)) {
      FormLess(g, f);
      LexLessIrreflexive(f.x);
    } else {
      assert f == g;
    }
  }
}
