/** Decoding sortable decimal keys: what is read back, and exactly when it is the number encoded. */
module DecimalKeyDecode {
  import opened Digits
  import opened Bytes
  import opened Decimals
  import opened DecimalForm
  import opened DecimalKey
  import opened Machine
  import opened Slices
  import Uvarint

  datatype DecodeError = UnknownPrefix | NoTerminator | BadVarint | EmptyMantissa | DigitOutOfRange

  /** The first position of b in s. */
  function IndexByte(s: seq<Byte>, b: Byte): (r: Option<nat>)
    ensures r.None? <==> b !in s
    ensures r.Some? ==> r.value < |s| && s[r.value] == b && forall j :: 0 <= j < r.value ==> s[j] != b
  {
    if s == [] then None
    else if s[0] == b then Some(0)
    else match IndexByte(s[1..], b)
         case None => assert s == [s[0]] + s[1..]; None
         case Some(i) => Some(i + 1)
  }

  predicate DigitsInRange(m: seq<Byte>) {
    forall i :: 0 <= i < |m| ==> m[i] / 2 <= 99
  }

  /** The two decimal digits of every mantissa byte. */
  function MantissaDigits(m: seq<Byte>): (b: seq<nat>)
    requires DigitsInRange(m)
    ensures |b| == 2 * |m|
  {
    if m == [] then [] else [m[0] / 2 / 10, m[0] / 2 % 10] + MantissaDigits(m[1..])
  }

  function DropTrailingZero(b: seq<nat>): seq<nat>
    requires b != []
  {
    if b[|b| - 1] == 0 then b[..|b| - 1] else b
  }

  /** makeDecimalFromMandE. Wrapping the 64-bit exponent first would not change its low 32 bits. */
  function MakeDecimal(negative: bool, e: int, m: seq<Byte>): Result<Decimal, DecodeError> {
    if m == [] then Err(EmptyMantissa)
    else if !DigitsInRange(m) then Err(DigitOutOfRange)
    else
      var b := DropTrailingZero(MantissaDigits(m));
      Ok(Finite(negative, FromDigits(b, 10), WrapInt32(2 * e - |b|)))
  }

  /** A tagged key split into its exponent, mantissa and the bytes after the terminator. */
  datatype Parts = Parts(e: int, m: seq<Byte>, rest: seq<Byte>)

  function SplitMantissa(negative: bool, e: int, r: seq<Byte>): Result<Parts, DecodeError> {
    match IndexByte(r, TERMINATOR)
    case None => Err(NoTerminator)
    case Some(i) => Ok(Parts(e, if negative then Complement(r[..i]) else r[..i], r[i + 1..]))
  }

  function DecodeSmall(negative: bool, buf: seq<Byte>): Result<Parts, DecodeError>
    requires buf != []
  {
    match if negative then Uvarint.DecodeAscending(buf[1..]) else Uvarint.DecodeDescending(buf[1..])
    case Err(_) => Err(BadVarint)
    case Ok((rest, v)) => var e: int := v; SplitMantissa(negative, -e, rest)
  }

  function DecodeMedium(negative: bool, buf: seq<Byte>): Result<Parts, DecodeError>
    requires buf != []
  {
    SplitMantissa(negative, if negative then NEG_MEDIUM - buf[0] else buf[0] - POS_MEDIUM, buf[1..])
  }

  function DecodeLarge(negative: bool, buf: seq<Byte>): Result<Parts, DecodeError>
    requires buf != []
  {
    match if negative then Uvarint.DecodeDescending(buf[1..]) else Uvarint.DecodeAscending(buf[1..])
    case Err(_) => Err(BadVarint)
    case Ok((rest, v)) => SplitMantissa(negative, v, rest)
  }

  /** The parts of a tagged number and whether its tag is one of a negative number. */
  function DecodeParts(buf: seq<Byte>): Result<(bool, Parts), DecodeError>
    requires buf != []
  {
    var t := buf[0];
    var negative := t <= NEG_SMALL;
    if t < NEG_LARGE || t == ZERO || t > POS_LARGE then Err(UnknownPrefix)
    else
      match if t == NEG_LARGE || t == POS_LARGE then DecodeLarge(negative, buf)
            else if t == NEG_SMALL || t == POS_SMALL then DecodeSmall(negative, buf)
            else DecodeMedium(negative, buf)
      case Err(err) => Err(err)
      case Ok(p) => Ok((negative, p))
  }

  type Decoded = Result<(seq<Byte>, Decimal), DecodeError>

  /** decodeDecimal: the bytes left over and the decimal. */
  function Decode(buf: seq<Byte>, invert: bool): Decoded
    requires buf != []
  {
    var t := buf[0];
    if t == NAN || t == NAN_DESC then Ok((buf[1..], NaN))
    else if t == INFINITY then Ok((buf[1..], Infinite(invert)))
    else if t == NEGATIVE_INFINITY then Ok((buf[1..], Infinite(!invert)))
    else if t == ZERO then Ok((buf[1..], Finite(false, 0, 0)))
    else
      match DecodeParts(buf)
      case Err(err) => Err(err)
      case Ok((negative, p)) =>
        match MakeDecimal(negative != invert, p.e, p.m)
        case Err(err) => Err(err)
        case Ok(d) => Ok((p.rest, d))
  }

  /** What a key remembers of d: trailing zeros move to the exponent, and zero has one form. */
  function Canonical(d: Decimal): Decimal {
    if !d.Finite? then d
    else if d.coeff == 0 then Finite(false, 0, 0)
    else Finite(d.negative, FromDigits(StripTrailingZeros(DecimalDigits(d.coeff)), 10),
                WrapInt32(d.exponent + TrailingZeros(d.coeff)))
  }

  lemma IndexOfTerminator(m: seq<Byte>, rest: seq<Byte>)
    requires TERMINATOR !in m
    ensures IndexByte(m + [TERMINATOR] + rest, TERMINATOR) == Some(|m|)
  {
    var s := m + [TERMINATOR] + rest;
    assert s[|m|] == TERMINATOR;
    assert forall k :: 0 <= k < |m| ==> s[k] == m[k] && m[k] in m;
  }

  /** Neither a mantissa byte nor its complement is the terminator. */
  lemma MantissaAvoidsTerminator(x: seq<nat>)
    requires AllBelow(x, 100) && x != [] && x[|x| - 1] > 0
    ensures TERMINATOR !in MantissaBytes(x)
    ensures TERMINATOR !in Complement(MantissaBytes(x))
  {}

  lemma SplitMantissaRoundTrip(negative: bool, e: int, x: seq<nat>, rest: seq<Byte>)
    requires AllBelow(x, 100) && x != [] && x[|x| - 1] > 0
    ensures var m := MantissaBytes(x);
            SplitMantissa(negative, e, SignedMantissa(negative, m) + [TERMINATOR] + rest)
            == Ok(Parts(e, m, rest))
  {
    MantissaAvoidsTerminator(x);
    var m := SignedMantissa(negative, MantissaBytes(x));
    IndexOfTerminator(m, rest);
    var s := m + [TERMINATOR] + rest;
    assert s[..|m|] == m && s[|m| + 1..] == rest;
    ComplementInvolutive(MantissaBytes(x));
  }

  function WithSign(negative: bool, p: Result<Parts, DecodeError>): Result<(bool, Parts), DecodeError> {
    match p
    case Err(err) => Err(err)
    case Ok(parts) => Ok((negative, parts))
  }

  /** The tag and the exponent decode to themselves; the rest of the key is left for the mantissa. */
  lemma PrefixRoundTrip(negative: bool, e: int, tail: seq<Byte>)
    requires ExponentFits(e)
    ensures DecodeParts(Prefix(negative, e) + tail) == WithSign(negative, SplitMantissa(negative, e, tail))
  {
    if 0 <= e <= 10 {
      assert (Prefix(negative, e) + tail)[1..] == tail;
    } else if e < 0 {
      SmallRoundTrip(negative, e, tail);
    } else {
      LargeRoundTrip(negative, e, tail);
    }
  }

  lemma SmallRoundTrip(negative: bool, e: int, tail: seq<Byte>)
    requires ExponentFits(e) && e < 0
    ensures DecodeParts(Prefix(negative, e) + tail) == WithSign(negative, SplitMantissa(negative, e, tail))
  {
    var buf := Prefix(negative, e) + tail;
    assert buf[0] == if negative then NEG_SMALL else POS_SMALL;
    TaggedVarint(negative, e, tail);
    SmallVarint(negative, 0 - e, buf, tail);
  }

  lemma SmallVarint(negative: bool, v: Word, buf: seq<Byte>, tail: seq<Byte>)
    requires buf != []
    requires buf[1..] == (if negative then Uvarint.EncodeAscending(v) else Uvarint.EncodeDescending(v)) + tail
    ensures DecodeSmall(negative, buf) == SplitMantissa(negative, 0 - v, tail)
  {
    if negative { Uvarint.AscendingRoundTrip(v, tail); } else { Uvarint.DescendingRoundTrip(v, tail); }
    SmallDecoded(negative, v, buf, tail);
  }

  lemma SmallDecoded(negative: bool, v: Word, buf: seq<Byte>, tail: seq<Byte>)
    requires buf != []
    requires (if negative then Uvarint.DecodeAscending(buf[1..]) else Uvarint.DecodeDescending(buf[1..]))
             == Ok((tail, v))
    ensures DecodeSmall(negative, buf) == SplitMantissa(negative, 0 - v, tail)
  {}

  lemma LargeVarint(negative: bool, v: Word, buf: seq<Byte>, tail: seq<Byte>)
    requires buf != []
    requires buf[1..] == (if negative then Uvarint.EncodeDescending(v) else Uvarint.EncodeAscending(v)) + tail
    ensures DecodeLarge(negative, buf) == SplitMantissa(negative, v, tail)
  {
    if negative { Uvarint.DescendingRoundTrip(v, tail); } else { Uvarint.AscendingRoundTrip(v, tail); }
  }

  lemma LargeRoundTrip(negative: bool, e: int, tail: seq<Byte>)
    requires ExponentFits(e) && e > 10
    ensures DecodeParts(Prefix(negative, e) + tail) == WithSign(negative, SplitMantissa(negative, e, tail))
  {
    var buf := Prefix(negative, e) + tail;
    assert buf[0] == if negative then NEG_LARGE else POS_LARGE;
    TaggedVarint(negative, e, tail);
    LargeVarint(negative, e, buf, tail);
  }

  /** The varint after the tag of a small or large number. */
  function ExponentVarint(negative: bool, e: int): seq<Byte>
    requires ExponentFits(e)
  {
    var v := if e < 0 then 0 - e else e;
    if negative == (e < 0) then Uvarint.EncodeAscending(v) else Uvarint.EncodeDescending(v)
  }

  lemma TaggedVarint(negative: bool, e: int, tail: seq<Byte>)
    requires ExponentFits(e) && !(0 <= e <= 10)
    ensures (Prefix(negative, e) + tail)[1..] == ExponentVarint(negative, e) + tail
  {
    TaggedPrefix(negative, e);
    DropTag(Prefix(negative, e)[0], ExponentVarint(negative, e), tail);
  }

  lemma DropTag(t: Byte, varint: seq<Byte>, tail: seq<Byte>)
    ensures ([t] + varint + tail)[1..] == varint + tail
  {}

  lemma KeyLayout(negative: bool, f: Form, rest: seq<Byte>)
    requires GoodForm(f)
    ensures KeyOfForm(negative, f) + rest
            == Prefix(negative, f.e) + (SignedMantissa(negative, MantissaBytes(f.x)) + [TERMINATOR] + rest)
    ensures |KeyOfForm(negative, f)| == |Prefix(negative, f.e)| + |f.x| + 1
  {
    Associate(Prefix(negative, f.e), SignedMantissa(negative, MantissaBytes(f.x)) + [TERMINATOR], rest);
  }

  /** The tag, the exponent and the terminator delimit the mantissa whatever follows. */
  lemma PartsRoundTrip(negative: bool, f: Form, rest: seq<Byte>)
    requires GoodForm(f)
    ensures DecodeParts(KeyOfForm(negative, f) + rest) == Ok((negative, Parts(f.e, MantissaBytes(f.x), rest)))
  {
    KeyLayout(negative, f, rest);
    SplitMantissaRoundTrip(negative, f.e, f.x, rest);
    PrefixRoundTrip(negative, f.e, SignedMantissa(negative, MantissaBytes(f.x)) + [TERMINATOR] + rest);
  }

  lemma HalvesOfMantissa(x: seq<nat>)
    requires AllBelow(x, 100)
    ensures forall i :: 0 <= i < |x| ==> MantissaBytes(x)[i] / 2 == x[i]
    ensures DigitsInRange(MantissaBytes(x))
  {}

  lemma {:induction false} MantissaDigitsOfBytes(a: seq<nat>)
    requires |a| % 2 == 0 && AllBelow(a, 10)
    ensures AllBelow(Pairs(a), 100) && DigitsInRange(MantissaBytes(Pairs(a)))
    ensures MantissaDigits(MantissaBytes(Pairs(a))) == a
    decreases |a|
  {
    PairsBelow(a);
    HalvesOfMantissa(Pairs(a));
    if a != [] {
      var p, q, t := a[0], a[1], a[2..];
      assert a == [p, q] + t;
      assert p < 10 && q < 10;
      MantissaDigitsOfBytes(t);
      PairsCons(p, q, t);
      DigitsOfPair(p, q, Pairs(t));
    }
  }

  lemma DigitsOfPair(p: nat, q: nat, y: seq<nat>)
    requires p < 10 && q < 10 && AllBelow(y, 100) && DigitsInRange(MantissaBytes(y))
    ensures AllBelow([10 * p + q] + y, 100) && DigitsInRange(MantissaBytes([10 * p + q] + y))
    ensures MantissaDigits(MantissaBytes([10 * p + q] + y)) == [p, q] + MantissaDigits(MantissaBytes(y))
  {
    MantissaBytesCons(10 * p + q, y);
    MantissaDigitsCons(if y == [] then 2 * (10 * p + q) else 2 * (10 * p + q) + 1, MantissaBytes(y));
  }

  lemma MantissaDigitsCons(b: Byte, m: seq<Byte>)
    requires b / 2 <= 99 && DigitsInRange(m)
    ensures DigitsInRange([b] + m)
    ensures MantissaDigits([b] + m) == [b / 2 / 10, b / 2 % 10] + MantissaDigits(m)
  {
    assert ([b] + m)[1..] == m;
  }

  lemma AlignDropsPadding(s: seq<nat>, leadingZero: bool)
    requires s != [] && s[|s| - 1] > 0
    ensures var t := if leadingZero then [0] + s else s;
            DropTrailingZero(Align(s, leadingZero)) == t && FromDigits(t, 10) == FromDigits(s, 10)
  {
    var t := if leadingZero then [0] + s else s;
    if leadingZero { FromDigitsCons(0, s, 10); }
    assert Align(s, leadingZero)[..|t|] == t;
  }

  lemma MakeDecimalOfDigits(negative: bool, e: int, m: seq<Byte>, t: seq<nat>, n: nat, exp: int)
    requires m != [] && DigitsInRange(m) && DropTrailingZero(MantissaDigits(m)) == t
    requires FromDigits(t, 10) == n && exp == 2 * e - |t|
    ensures MakeDecimal(negative, e, m) == Ok(Finite(negative, n, WrapInt32(exp)))
  {}

  lemma MakeDecimalOfForm(d: Decimal, negative: bool)
    requires d.Finite? && d.coeff > 0 && InMemory(d)
    ensures GoodForm(ToForm(d))
    ensures MakeDecimal(negative, ToForm(d).e, MantissaBytes(ToForm(d).x))
            == Ok(Finite(negative, Canonical(d).coeff, Canonical(d).exponent))
  {
    FormNormal(d);
    FormFits(d);
    var s, odd := StripTrailingZeros(DecimalDigits(d.coeff)), OddExponent(d);
    var n, exp := FromDigits(s, 10), d.exponent + TrailingZeros(d.coeff);
    var f := ToForm(d);
    assert Canonical(d) == Finite(d.negative, n, WrapInt32(exp));
    StrippedNonempty(d.coeff);
    AlignBelow(s, odd);
    MakeDecimalOfStripped(negative, f, s, odd, n, exp);
  }

  lemma MakeDecimalOfStripped(negative: bool, f: Form, s: seq<nat>, odd: bool, n: nat, exp: int)
    requires s != [] && s[|s| - 1] > 0 && AllBelow(s, 10) && AllBelow(Align(s, odd), 10) && FromDigits(s, 10) == n
    requires f.x == Pairs(Align(s, odd)) && AllBelow(f.x, 100) && exp == 2 * f.e - |s| - (if odd then 1 else 0)
    ensures MakeDecimal(negative, f.e, MantissaBytes(f.x)) == Ok(Finite(negative, n, WrapInt32(exp)))
  {
    MantissaDigitsOfBytes(Align(s, odd));
    AlignDropsPadding(s, odd);
    MakeDecimalOfDigits(negative, f.e, MantissaBytes(f.x), if odd then [0] + s else s, n, exp);
  }

  lemma AlignBelow(s: seq<nat>, leadingZero: bool)
    requires AllBelow(s, 10)
    ensures AllBelow(Align(s, leadingZero), 10)
  {}

  lemma DecodeOfParts(buf: seq<Byte>, invert: bool, negative: bool, p: Parts, d: Decimal)
    requires buf != [] && DecodeParts(buf) == Ok((negative, p)) && MakeDecimal(negative != invert, p.e, p.m) == Ok(d)
    ensures Decode(buf, invert) == Ok((p.rest, d))
  {}

  lemma NumberRoundTrip(d: Decimal, invert: bool, rest: seq<Byte>)
    requires InMemory(d) && d.Finite? && d.coeff > 0
    ensures Decode(Key(d, invert) + rest, invert) == Ok((rest, Canonical(d)))
  {
    var f, negative := ToForm(d), d.negative != invert;
    assert GoodForm(f) && MakeDecimal(d.negative, f.e, MantissaBytes(f.x)) == Ok(Canonical(d)) by {
      MakeDecimalOfForm(d, d.negative);
    }
    assert Key(d, invert) == KeyOfForm(negative, f);
    PartsRoundTrip(negative, f, rest);
    DecodeOfParts(Key(d, invert) + rest, invert, negative, Parts(f.e, MantissaBytes(f.x), rest), Canonical(d));
  }

  /** Decoding a key, whatever follows it, returns what follows and the canonical decimal. */
  lemma KeyRoundTrip(d: Decimal, invert: bool, rest: seq<Byte>)
    requires InMemory(d)
    ensures Decode(Key(d, invert) + rest, invert) == Ok((rest, Canonical(d)))
  {
    var buf := Key(d, invert) + rest;
    if d.Finite? && d.coeff > 0 {
      NumberRoundTrip(d, invert, rest);
    } else {
      assert buf[1..] == rest;
    }
  }

  /**
   The decoded decimal equals the encoded one exactly when moving the trailing zeros of the
   coefficient to the exponent does not leave the 32 bits of the exponent.
   */
  lemma CanonicalEqual(d: Decimal)
    ensures Equal(Canonical(d), d)
            <==> (d.Finite? ==> d.exponent + TrailingZeros(d.coeff) <= MAX_INT32 || d.coeff == 0)
  {
    if d.Finite? && d.coeff == 0 {
      var m := Min(0, d.exponent);
      SignOfScaled(ToNumber(d), m);
      SignOfScaled(ToNumber(Canonical(d)), m);
    } else if d.Finite? {
      var c, tz := Canonical(d), TrailingZeros(d.coeff);
      StrippedValue(d.coeff);
      var exact := Number(c.coeff, d.exponent + tz);
      var plain, got := Number(d.coeff, d.exponent), Number(c.coeff, c.exponent);
      assert Pow(10, 0) == 1;
      SameProduct(c.coeff, tz, 0, plain, exact);
      DifferentExponents(exact, got);
      NumCongruent(got, got, plain, exact);
      if d.negative {
        NegationReverses(got, plain);
        assert ToNumber(d) == plain.Negated() && ToNumber(c) == got.Negated();
      }
    }
  }

  lemma DifferentExponents(a: Number, b: Number)
    requires a.mantissa == b.mantissa != 0
    ensures NumEqual(a, b) <==> a.exponent == b.exponent
    ensures NumEqual(b, a) <==> a.exponent == b.exponent
  {
    var m := Min(a.exponent, b.exponent);
    if a.exponent < b.exponent {
      PowStrict(10, 0, b.exponent - m);
    } else if b.exponent < a.exponent {
      PowStrict(10, 0, a.exponent - m);
    }
    ProductsDiffer(a.mantissa, Pow(10, a.exponent - m), Pow(10, b.exponent - m));
  }

  lemma ProductsDiffer(c: int, x: int, y: int)
    requires c != 0
    ensures c * x == c * y <==> x == y
  {
    if c > 0 { MulStrict(x, y, c); } else { MulStrict(x, y, -c); }
  }

  /** Ten times ten to the largest exponent does not survive: its exponent wraps to the smallest. */
  lemma DecodingOverflows(d: Decimal)
    requires d == Finite(false, 10, MAX_INT32)
    ensures InMemory(d) && Canonical(d) == Finite(false, 1, -0x8000_0000) && !Equal(Canonical(d), d)
  {
    assert Canonical(d) == Finite(false, 1, -0x8000_0000) && TrailingZeros(10) == 1 && InMemory(d) by { TenStripped(); }
    CanonicalEqual(d);
  }

  lemma TenStripped()
    ensures |DecimalDigits(10)| == 2 && StripTrailingZeros(DecimalDigits(10)) == [1] && FromDigits([1], 10) == 1
  {
    OneDigit();
    assert DecimalDigits(10) == [1] + [0];
    StripZero([1]);
  }

  lemma StripZero(s: seq<nat>)
    requires s != [] && s[|s| - 1] > 0
    ensures StripTrailingZeros(s + [0]) == s
  {
    assert (s + [0])[..|s|] == s;
  }

  lemma OneDigit()
    ensures ToDigits(1, 10) == [1] && FromDigits([1], 10) == 1
  {
    assert ToDigits(0, 10) == [];
    assert [] + [1] == [1];
    FromDigitsSnoc([], 1, 10);
  }

  /** The tags that an exponent follows. */
  predicate HasVarint(t: Byte) {
    t == NEG_LARGE || t == NEG_SMALL || t == POS_LARGE || t == POS_SMALL
  }

  /** The length of a key, read without decoding it. */
  function GetDecimalLen(buf: seq<Byte>): Result<nat, DecodeError>
    requires buf != [] && NAN <= buf[0] <= NAN_DESC
  {
    var t := buf[0];
    if t == NAN || t == NEGATIVE_INFINITY || t == NAN_DESC || t == INFINITY || t == ZERO then Ok(1)
    else
      var exponentLen :=
        if HasVarint(t)
        then if |buf| == 1 then Err(Uvarint.Insufficient) else Uvarint.GetVarintLen(buf[1..])
        else Ok(0);
      match exponentLen
      case Err(_) => Err(BadVarint)
      case Ok(l) => if l > |buf| - 1 then Err(BadVarint) else TerminatedLen(1 + l, buf[1 + l..])
  }

  function TerminatedLen(p: nat, r: seq<Byte>): Result<nat, DecodeError> {
    match IndexByte(r, TERMINATOR)
    case None => Err(NoTerminator)
    case Some(i) => Ok(p + i + 1)
  }

  lemma GetDecimalLenCorrect(d: Decimal, invert: bool, rest: seq<Byte>)
    requires InMemory(d)
    ensures var buf := Key(d, invert) + rest;
            NAN <= buf[0] <= NAN_DESC && GetDecimalLen(buf) == Ok(|Key(d, invert)|)
  {
    if d.Finite? && d.coeff > 0 {
      FormNormal(d);
      FormFits(d);
      LenOfForm(d.negative != invert, ToForm(d), rest);
    }
  }

  lemma LenWithVarint(t: Byte, varint: seq<Byte>, tail: seq<Byte>)
    requires HasVarint(t) && varint != []
    requires Uvarint.GetVarintLen(varint + tail) == Ok(|varint|)
    ensures GetDecimalLen([t] + (varint + tail)) == TerminatedLen(1 + |varint|, tail)
  {
    var buf := [t] + (varint + tail);
    assert buf[1..] == varint + tail;
    assert buf[1 + |varint|..] == tail;
  }

  lemma LenOfForm(negative: bool, f: Form, rest: seq<Byte>)
    requires GoodForm(f)
    ensures var buf := KeyOfForm(negative, f) + rest;
            NAN <= buf[0] <= NAN_DESC && GetDecimalLen(buf) == Ok(|KeyOfForm(negative, f)|)
  {
    var tail := BehindPrefix(negative, f, rest);
    LenAfterPrefix(negative, f.e, tail);
  }

  /** A key and what follows it is the prefix of the key and a tail with the terminator where the key ends. */
  lemma BehindPrefix(negative: bool, f: Form, rest: seq<Byte>) returns (tail: seq<Byte>)
    requires GoodForm(f)
    ensures KeyOfForm(negative, f) + rest == Prefix(negative, f.e) + tail
    ensures TerminatedLen(|Prefix(negative, f.e)|, tail) == Ok(|KeyOfForm(negative, f)|)
  {
    var m := SignedMantissa(negative, MantissaBytes(f.x));
    tail := m + [TERMINATOR] + rest;
    SignedAvoidsTerminator(negative, f.x);
    TerminatedBehind(Prefix(negative, f.e), m, KeyOfForm(negative, f), rest);
  }

  lemma SignedAvoidsTerminator(negative: bool, x: seq<nat>)
    requires AllBelow(x, 100) && x != [] && x[|x| - 1] > 0
    ensures TERMINATOR !in SignedMantissa(negative, MantissaBytes(x))
  {
    MantissaAvoidsTerminator(x);
  }

  lemma TerminatedBehind(p: seq<Byte>, m: seq<Byte>, key: seq<Byte>, rest: seq<Byte>)
    requires TERMINATOR !in m && key == p + (m + [TERMINATOR])
    ensures key + rest == p + (m + [TERMINATOR] + rest)
    ensures TerminatedLen(|p|, m + [TERMINATOR] + rest) == Ok(|key|)
  {
    IndexOfTerminator(m, rest);
    Associate(p, m + [TERMINATOR], rest);
  }

  lemma LenAfterPrefix(negative: bool, e: int, tail: seq<Byte>)
    requires ExponentFits(e)
    ensures NAN <= Prefix(negative, e)[0] <= NAN_DESC
    ensures GetDecimalLen(Prefix(negative, e) + tail) == TerminatedLen(|Prefix(negative, e)|, tail)
  {
    if 0 <= e <= 10 {
      assert (Prefix(negative, e) + tail)[1..] == tail;
    } else {
      TaggedLen(negative, e, tail);
    }
  }

  lemma TaggedLen(negative: bool, e: int, tail: seq<Byte>)
    requires ExponentFits(e) && !(0 <= e <= 10)
    ensures NAN <= Prefix(negative, e)[0] <= NAN_DESC
    ensures GetDecimalLen(Prefix(negative, e) + tail) == TerminatedLen(|Prefix(negative, e)|, tail)
  {
    var varint, t := ExponentVarint(negative, e), Prefix(negative, e)[0];
    TaggedPrefix(negative, e);
    assert GetDecimalLen([t] + (varint + tail)) == TerminatedLen(1 + |varint|, tail) by {
      Uvarint.GetVarintLenCorrect(if e < 0 then 0 - e else e, tail);
      LenWithVarint(t, varint, tail);
    }
    assert Prefix(negative, e) + tail == [t] + (varint + tail) by { Associate([t], varint, tail); }
  }

  lemma TaggedPrefix(negative: bool, e: int)
    requires ExponentFits(e) && !(0 <= e <= 10)
    ensures HasVarint(Prefix(negative, e)[0])
    ensures Prefix(negative, e) == [Prefix(negative, e)[0]] + ExponentVarint(negative, e)
  {}
}
