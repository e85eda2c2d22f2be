/** The sortable encoding of decimals and the theorem that bytes sort as the numbers do. */
module DecimalKey {
  import opened Digits
  import opened Bytes
  import opened Decimals
  import opened DecimalForm
  import opened Machine
  import Uvarint

  const NAN: Byte := 24
  const NEGATIVE_INFINITY: Byte := 25
  const NEG_LARGE: Byte := 26
  const NEG_MEDIUM: Byte := 37
  const NEG_SMALL: Byte := 38
  const ZERO: Byte := 39
  const POS_SMALL: Byte := 40
  const POS_MEDIUM: Byte := 41
  const POS_LARGE: Byte := 52
  const INFINITY: Byte := 53
  const NAN_DESC: Byte := 54
  const TERMINATOR: Byte := 0

  /** Exponents that fit the 64-bit integer they are encoded as. */
  predicate ExponentFits(e: int) {
    0 - TWO64 < e < TWO64
  }

  /** Every base-100 digit x becomes 2x+1, except the last, which becomes 2x. */
  function MantissaBytes(x: seq<nat>): (m: seq<Byte>)
    requires AllBelow(x, 100)
    ensures |m| == |x|
  {
    seq(|x|, i requires 0 <= i < |x| => if i == |x| - 1 then 2 * x[i] else 2 * x[i] + 1)
  }

  lemma MantissaBytesCons(d: nat, y: seq<nat>)
    requires d < 100 && AllBelow(y, 100)
    ensures AllBelow([d] + y, 100)
    ensures MantissaBytes([d] + y) == [if y == [] then 2 * d else 2 * d + 1] + MantissaBytes(y)
  {}

  /** Tag and exponent of a positive number. */
  function PosPrefix(e: int): (p: seq<Byte>)
    requires ExponentFits(e)
    ensures p != []
  {
    if e < 0 then [POS_SMALL] + Uvarint.EncodeDescending(-e)
    else if e <= 10 then [POS_MEDIUM + e]
    else [POS_LARGE] + Uvarint.EncodeAscending(e)
  }

  /** Tag and exponent of a negative number. */
  function NegPrefix(e: int): (p: seq<Byte>)
    requires ExponentFits(e)
    ensures p != []
  {
    if e < 0 then [NEG_SMALL] + Uvarint.EncodeAscending(-e)
    else if e <= 10 then [NEG_MEDIUM - e]
    else [NEG_LARGE] + Uvarint.EncodeDescending(e)
  }

  function Prefix(negative: bool, e: int): (p: seq<Byte>)
    requires ExponentFits(e)
    ensures p != []
  {
    if negative then NegPrefix(e) else PosPrefix(e)
  }

  function SignedMantissa(negative: bool, m: seq<Byte>): (s: seq<Byte>) {
    if negative then Complement(m) else m
  }

  function FormKey(negative: bool, e: int, m: seq<Byte>): (k: seq<Byte>)
    requires ExponentFits(e)
    ensures k != []
  {
    Prefix(negative, e) + (SignedMantissa(negative, m) + [TERMINATOR])
  }

  lemma FormFits(d: Decimal)
    requires d.Finite? && d.coeff > 0 && InMemory(d)
    ensures ExponentFits(ToForm(d).e) && AllBelow(ToForm(d).x, 100)
  {
    FormNormal(d);
  }

  /** encodeDecimal: the bytes it appends for d, ascending or (inverted) descending. */
  function Key(d: Decimal, invert: bool): (k: seq<Byte>)
    requires InMemory(d)
    ensures k != []
  {
    match d
    case NaN => [if invert then NAN_DESC else NAN]
    case Infinite(negative) => [if negative != invert then NEGATIVE_INFINITY else INFINITY]
    case Finite(negative, coeff, _) =>
      if coeff == 0 then [ZERO]
      else
        FormFits(d);
        FormKey(negative != invert, ToForm(d).e, MantissaBytes(ToForm(d).x))
  }

  lemma PosPrefixOrder(e: int, e': int)
    requires ExponentFits(e) && ExponentFits(e') && e < e'
    ensures Below(PosPrefix(e), PosPrefix(e'))
  {
    if e' < 0 {
      Uvarint.DescendingOrder(-e', -e);
      BelowPrefixed([POS_SMALL], Uvarint.EncodeDescending(-e), Uvarint.EncodeDescending(-e'));
    } else if e > 10 {
      Uvarint.AscendingOrder(e, e');
      BelowPrefixed([POS_LARGE], Uvarint.EncodeAscending(e), Uvarint.EncodeAscending(e'));
    } else {
      BelowHead(PosPrefix(e), PosPrefix(e'));
    }
  }

  lemma NegPrefixOrder(e: int, e': int)
    requires ExponentFits(e) && ExponentFits(e') && e < e'
    ensures Below(NegPrefix(e'), NegPrefix(e))
  {
    if e' < 0 {
      Uvarint.AscendingOrder(-e', -e);
      BelowPrefixed([NEG_SMALL], Uvarint.EncodeAscending(-e'), Uvarint.EncodeAscending(-e));
    } else if e > 10 {
      Uvarint.DescendingOrder(e, e');
      BelowPrefixed([NEG_LARGE], Uvarint.EncodeDescending(e'), Uvarint.EncodeDescending(e));
    } else {
      BelowHead(NegPrefix(e'), NegPrefix(e));
    }
  }

  /**
   Mantissas are ordered and no mantissa is a prefix of another, because only the last byte is even.
   This is why keys need no escape for the terminator.
   */
  lemma {:induction false} MantissaOrder(x: seq<nat>, y: seq<nat>)
    requires AllBelow(x, 100) && AllBelow(y, 100) && x != [] && y != []
    requires LexLess(x, y)
    ensures Below(MantissaBytes(x), MantissaBytes(y))
    decreases |x|
  {
    var mx, my := MantissaBytes(x), MantissaBytes(y);
    if x[0] < y[0] || |x| == 1 {
      BelowHead(mx, my);
    } else {
      MantissaOrder(x[1..], y[1..]);
      MantissaBytesCons(x[0], x[1..]);
      MantissaBytesCons(y[0], y[1..]);
      assert x == [x[0]] + x[1..] && y == [y[0]] + y[1..];
      BelowPrefixed([2 * x[0] + 1], MantissaBytes(x[1..]), MantissaBytes(y[1..]));
    }
  }

  ghost predicate GoodForm(f: Form) {
    Normal(f) && ExponentFits(f.e) && AllBelow(f.x, 100)
  }

  function KeyOfForm(negative: bool, f: Form): seq<Byte>
    requires GoodForm(f)
  {
    FormKey(negative, f.e, MantissaBytes(f.x))
  }

  lemma FormKeyOrder(f: Form, g: Form)
    requires GoodForm(f) && GoodForm(g)
    requires f.e < g.e || (f.e == g.e && LexLess(f.x, g.x))
    ensures Below(KeyOfForm(false, f), KeyOfForm(false, g))
    ensures Below(KeyOfForm(true, g), KeyOfForm(true, f))
  {
    var mf, mg := MantissaBytes(f.x), MantissaBytes(g.x);
    if f.e < g.e {
      PosPrefixOrder(f.e, g.e);
      BelowExtends(PosPrefix(f.e), PosPrefix(g.e), mf + [TERMINATOR], mg + [TERMINATOR]);
      NegPrefixOrder(f.e, g.e);
      BelowExtends(NegPrefix(g.e), NegPrefix(f.e), Complement(mg) + [TERMINATOR], Complement(mf) + [TERMINATOR]);
    } else {
      MantissaOrder(f.x, g.x);
      BelowExtends(mf, mg, [TERMINATOR], [TERMINATOR]);
      BelowPrefixed(PosPrefix(f.e), mf + [TERMINATOR], mg + [TERMINATOR]);
      ComplementReverses(mf, mg);
      BelowExtends(Complement(mg), Complement(mf), [TERMINATOR], [TERMINATOR]);
      BelowPrefixed(NegPrefix(f.e), Complement(mg) + [TERMINATOR], Complement(mf) + [TERMINATOR]);
    }
  }

  /** The first byte separates the classes of decimals. */
  function Class(d: Decimal): int {
    match d
    case NaN => -3
    case Infinite(negative) => if negative then -2 else 2
    case Finite(negative, coeff, _) => if coeff == 0 then 0 else if negative then -1 else 1
  }

  lemma ClassOrder(a: Decimal, b: Decimal)
    requires Class(a) < Class(b)
    ensures Less(a, b)
  {
    if a.Finite? && b.Finite? {
      var m := Min(a.exponent, b.exponent);
      SignOfScaled(ToNumber(a), m);
      SignOfScaled(ToNumber(b), m);
    }
  }

  lemma ClassKeyOrder(a: Decimal, b: Decimal)
    requires InMemory(a) && InMemory(b) && Class(a) < Class(b)
    ensures Below(Key(a, false), Key(b, false))
    ensures Below(Key(b, true), Key(a, true))
  {
    KeyHead(a);
    KeyHead(b);
    BelowHead(Key(a, false), Key(b, false));
    BelowHead(Key(b, true), Key(a, true));
  }

  lemma KeyHead(d: Decimal)
    requires InMemory(d)
    ensures var h := Key(d, false)[0]; var c := Class(d);
            (c == -3 ==> h == 24) && (c == -2 ==> h == 25) && (c == -1 ==> 26 <= h <= 38) && (c == 0 ==> h == 39)
            && (c == 1 ==> 40 <= h <= 52) && (c == 2 ==> h == 53)
    ensures var h := Key(d, true)[0]; var c := Class(d);
            (c == -3 ==> h == 54) && (c == -2 ==> h == 53) && (c == -1 ==> 40 <= h <= 52) && (c == 0 ==> h == 39)
            && (c == 1 ==> 26 <= h <= 38) && (c == 2 ==> h == 25)
  {}

  /** The numbers of one sign compare as their forms do. */
  lemma SameSignOrder(a: Decimal, b: Decimal)
    requires a.Finite? && b.Finite? && a.coeff > 0 && b.coeff > 0 && a.negative == b.negative
    ensures Normal(ToForm(a)) && Normal(ToForm(b))
    ensures !a.negative ==> (Less(a, b) <==> NumLess(FormNumber(ToForm(a)), FormNumber(ToForm(b))))
    ensures a.negative ==> (Less(a, b) <==> NumLess(FormNumber(ToForm(b)), FormNumber(ToForm(a))))
    ensures Equal(a, b) <==> ToForm(a) == ToForm(b)
  {
    FormNormal(a);
    FormNormal(b);
    FormKeepsValue(a);
    FormKeepsValue(b);
    var x, y := Number(a.coeff, a.exponent), Number(b.coeff, b.exponent);
    var f, g := FormNumber(ToForm(a)), FormNumber(ToForm(b));
    NumCongruent(x, f, y, g);
    NumCongruent(y, g, x, f);
    FormOrder(ToForm(a), ToForm(b));
    if a.negative {
      assert ToNumber(a) == x.Negated() && ToNumber(b) == y.Negated();
      NegationReverses(x, y);
    }
  }

  lemma LessKeyOrder(a: Decimal, b: Decimal)
    requires InMemory(a) && InMemory(b) && Less(a, b)
    ensures Below(Key(a, false), Key(b, false))
    ensures Below(Key(b, true), Key(a, true))
  {
    if Class(a) < Class(b) {
      ClassKeyOrder(a, b);
    } else {
      if Class(b) < Class(a) { ClassOrder(b, a); Trichotomy(a, b); }
      SameClassLess(a, b);
      SameSignOrder(a, b);
      FormFits(a);
      FormFits(b);
      FormOrder(ToForm(a), ToForm(b));
      FormOrder(ToForm(b), ToForm(a));
      if a.negative {
        FormKeyOrder(ToForm(b), ToForm(a));
      } else {
        FormKeyOrder(ToForm(a), ToForm(b));
      }
    }
  }

  lemma SameClassLess(a: Decimal, b: Decimal)
    requires Class(a) == Class(b) && Less(a, b)
    ensures a.Finite? && b.Finite? && a.coeff > 0 && b.coeff > 0 && a.negative == b.negative
  {
    if a.Finite? && a.coeff == 0 {
      assert ToNumber(a).mantissa == 0 && ToNumber(b).mantissa == 0;
      SignOfScaled(ToNumber(a), Min(a.exponent, b.exponent));
      SignOfScaled(ToNumber(b), Min(a.exponent, b.exponent));
    }
  }

  lemma EqualKeys(a: Decimal, b: Decimal, invert: bool)
    requires InMemory(a) && InMemory(b) && Equal(a, b)
    ensures Key(a, invert) == Key(b, invert)
  {
    if Class(a) < Class(b) { ClassOrder(a, b); }
    if Class(b) < Class(a) { ClassOrder(b, a); }
    Trichotomy(a, b);
    if a.Finite? && a.coeff > 0 {
      SameSignOrder(a, b);
    }
  }

  /**
   Main result: ascending keys sort as the numbers and descending keys in reverse, for all decimals;
   keys are equal exactly for equal numbers, whatever their scale or the sign of zero.
   */
  lemma KeyOrder(a: Decimal, b: Decimal)
    requires InMemory(a) && InMemory(b)
    ensures Less(a, b) <==> Below(Key(a, false), Key(b, false))
    ensures Less(a, b) <==> Below(Key(b, true), Key(a, true))
    ensures Equal(a, b) <==> Key(a, false) == Key(b, false)
    ensures Equal(a, b) <==> Key(a, true) == Key(b, true)
  {
    Trichotomy(a, b);
    forall x, y | x in [Key(a, false), Key(a, true)] && y in [Key(b, false), Key(b, true)] && Below(x, y)
      ensures !Below(y, x) && x != y
    {
      BelowIsOrderOfExtensions(x, y, [], []);
      assert x + [] == x && y + [] == y;
      LexLessAsymmetric(x, y);
      LexLessIrreflexive(x);
      if Below(y, x) {
        BelowIsOrderOfExtensions(y, x, [], []);
      }
    }
    if Less(a, b) {
      LessKeyOrder(a, b);
    } else if Less(b, a) {
      LessKeyOrder(b, a);
    } else {
      EqualKeys(a, b, false);
      EqualKeys(a, b, true);
    }
  }

  /** The order survives whatever is appended to the keys, and no key is a proper prefix of another. */
  lemma KeyOrderOfExtensions(a: Decimal, b: Decimal, invert: bool, s: seq<Byte>, t: seq<Byte>)
    requires InMemory(a) && InMemory(b) && !Equal(a, b)
    ensures LexLess(Key(a, invert) + s, Key(b, invert) + t) <==> (if invert then Less(b, a) else Less(a, b))
    ensures !(Key(a, invert) <= Key(b, invert))
  {
    KeyOrder(a, b);
    KeyOrder(b, a);
    Trichotomy(a, b);
    var x, y := Key(a, invert), Key(b, invert);
    if Below(x, y) {
      BelowIsOrderOfExtensions(x, y, s, t);
    } else {
      BelowIsOrderOfExtensions(y, x, t, s);
      LexLessAsymmetric(y + t, x + s);
    }
  }
}
