/** The compact decimal encoding that does not sort but keeps every field. */
module NonsortingDecimal {
  import opened Digits
  import opened Bytes
  import opened Decimals
  import opened DecimalKey
  import opened DecimalKeyDecode
  import opened Machine
  import Uvarint

  const WORD_SIZE: nat := 8

  /** apd's Coeff.Bits(): base-2^64 digits, least significant first, none for zero. */
  function CoeffWords(c: nat): (w: seq<Word>) {
    Reversed(ToDigits(c, TWO64))
  }

  function Reversed(s: seq<nat>): (r: seq<nat>)
    ensures |r| == |s| && forall i :: 0 <= i < |s| ==> r[i] == s[|s| - 1 - i]
  {
    seq(|s|, i requires 0 <= i < |s| => s[|s| - 1 - i])
  }

  /** The number little-endian words denote. */
  function WordsValue(w: seq<Word>): nat {
    FromDigits(Reversed(w), TWO64)
  }

  lemma CoeffWordsValue(c: nat)
    ensures WordsValue(CoeffWords(c)) == c
  {
    FromToDigits(c, TWO64);
    assert Reversed(CoeffWords(c)) == ToDigits(c, TWO64);
  }

  /** The position of the decimal point when the coefficient is read as 0.xyz. */
  function PointExponent(d: Decimal): int
    requires d.Finite?
  {
    NumDigits(d.coeff) + d.exponent
  }

  /** The marker tells the sign of the number and the sign of the exponent. */
  function Marker(negative: bool, e: int): Byte {
    if e > 0 then if negative then NEG_LARGE else POS_LARGE
    else if e == 0 then if negative then NEG_MEDIUM else POS_MEDIUM
    else if negative then NEG_SMALL else POS_SMALL
  }

  function Size(e: int): Word
    requires ExponentFits(e)
  {
    if e < 0 then 0 - e else e
  }

  /** The size of the exponent, unless it is zero. */
  function ExponentBytes(e: int): seq<Byte>
    requires ExponentFits(e)
  {
    if e == 0 then [] else Uvarint.EncodeAscending(Size(e))
  }

  /** EncodeNonsortingDecimal: marker, exponent and minimal big-endian coefficient. */
  function Encoding(d: Decimal): (k: seq<Byte>)
    requires InMemory(d)
    ensures k != []
  {
    match d
    case NaN => [NAN]
    case Infinite(negative) => [if negative then NEGATIVE_INFINITY else INFINITY]
    case Finite(negative, coeff, exponent) =>
      if coeff == 0 && !negative && exponent == 0 then [ZERO]
      else
        var e := PointExponent(d);
        [Marker(negative, e)] + (ExponentBytes(e) + ToDigits(coeff, 256))
  }

  /** decodeNonsortingDecimalValue, given the sign of the number. */
  function DecodeValue(negative: bool, negExp: bool, buf: seq<Byte>): Result<Decimal, DecodeError> {
    match Uvarint.DecodeAscending(buf)
    case Err(_) => Err(BadVarint)
    case Ok((digits, v)) =>
      var e: int := v;
      var c := FromDigits(digits, 256);
      Ok(Finite(negative, c, WrapInt32((if negExp then -e else e) - NumDigits(c))))
  }

  function DecodeValueWithoutExp(negative: bool, buf: seq<Byte>): Decimal {
    var c := FromDigits(buf, 256);
    Finite(negative, c, WrapInt32(0 - NumDigits(c)))
  }

  /** DecodeNonsortingDecimal. */
  function Decoding(buf: seq<Byte>): Result<Decimal, DecodeError>
    requires buf != []
  {
    var t := buf[0];
    if t == NAN then Ok(NaN)
    else if t == NEGATIVE_INFINITY then Ok(Infinite(true))
    else if t == INFINITY then Ok(Infinite(false))
    else if t == ZERO then Ok(Finite(false, 0, 0))
    else if t == NEG_LARGE || t == POS_LARGE then DecodeValue(t == NEG_LARGE, false, buf[1..])
    else if t == NEG_MEDIUM || t == POS_MEDIUM then Ok(DecodeValueWithoutExp(t == NEG_MEDIUM, buf[1..]))
    else if t == NEG_SMALL || t == POS_SMALL then DecodeValue(t == NEG_SMALL, true, buf[1..])
    else Err(UnknownPrefix)
  }

  lemma ValueOfParts(negative: bool, e: int, varint: seq<Byte>, digits: seq<Byte>, c: nat, exponent: Int32)
    requires ExponentFits(e) && e == NumDigits(c) + exponent
    requires Uvarint.DecodeAscending(varint + digits) == Ok((digits, Size(e))) && FromDigits(digits, 256) == c
    ensures DecodeValue(negative, e < 0, varint + digits) == Ok(Finite(negative, c, exponent))
  {}

  lemma DecodeMarked(negative: bool, e: int, body: seq<Byte>)
    ensures Decoding([Marker(negative, e)] + body)
            == if e == 0 then Ok(DecodeValueWithoutExp(negative, body)) else DecodeValue(negative, e < 0, body)
  {
    assert ([Marker(negative, e)] + body)[1..] == body;
  }

  lemma BodyWithoutExponent(negative: bool, c: nat, exponent: Int32)
    requires NumDigits(c) + exponent == 0
    ensures DecodeValueWithoutExp(negative, ToDigits(c, 256)) == Finite(negative, c, exponent)
  {
    FromToDigits(c, 256);
  }

  lemma BodyWithExponent(negative: bool, e: int, c: nat, exponent: Int32)
    requires ExponentFits(e) && e == NumDigits(c) + exponent && e != 0
    ensures DecodeValue(negative, e < 0, ExponentBytes(e) + ToDigits(c, 256)) == Ok(Finite(negative, c, exponent))
  {
    var digits: seq<Byte> := ToDigits(c, 256);
    assert Uvarint.DecodeAscending(ExponentBytes(e) + digits) == Ok((digits, Size(e))) by {
      Uvarint.AscendingRoundTrip(Size(e), digits);
    }
    assert FromDigits(digits, 256) == c by { FromToDigits(c, 256); }
    ValueOfParts(negative, e, ExponentBytes(e), digits, c, exponent);
  }

  /** Every decimal comes back field for field: signed zeros, trailing zeros and exponents included. */
  lemma RoundTrip(d: Decimal)
    requires InMemory(d)
    ensures Decoding(Encoding(d)) == Ok(d)
  {
    if d.Finite? && !(d.coeff == 0 && !d.negative && d.exponent == 0) {
      var e, digits := PointExponent(d), ToDigits(d.coeff, 256);
      if e == 0 {
        BodyWithoutExponent(d.negative, d.coeff, d.exponent);
        assert ExponentBytes(e) + digits == digits;
      } else {
        BodyWithExponent(d.negative, e, d.coeff, d.exponent);
      }
      DecodeMarked(d.negative, e, ExponentBytes(e) + digits);
    }
  }

  /** UpperBoundNonsortingDecimalSize. */
  function UpperBoundSize(d: Decimal): nat
    requires d.Finite?
  {
    1 + Uvarint.MAX_VARINT_LEN + |CoeffWords(d.coeff)| * WORD_SIZE
  }

  lemma {:induction false} PowWords(n: nat)
    ensures Pow(TWO64, n) == Pow(256, n * WORD_SIZE)
  {
    if n > 0 {
      PowWords(n - 1);
      PowAdd(256, 8, (n - 1) * 8);
      Uvarint.Powers256();
    }
  }

  lemma SizeBounded(d: Decimal)
    requires d.Finite? && InMemory(d)
    ensures |Encoding(d)| <= UpperBoundSize(d)
  {
    BytesOfWords(d.coeff);
    var e := PointExponent(d);
    Uvarint.EncLenCorrect(if e < 0 then 0 - e else e);
  }

  /** A number has at most eight bytes to the word. */
  lemma BytesOfWords(c: nat)
    ensures |ToDigits(c, 256)| <= |CoeffWords(c)| * WORD_SIZE
  {
    var s, w := ToDigits(c, 256), ToDigits(c, TWO64);
    assert c < Pow(256, |w| * WORD_SIZE) by {
      FromToDigits(c, TWO64);
      FromDigitsBounds(w, TWO64);
      PowWords(|w|);
    }
    if s != [] {
      assert Pow(256, |s| - 1) <= c by {
        FromToDigits(c, 256);
        FromDigitsBounds(s, 256);
      }
      if |w| * WORD_SIZE <= |s| - 1 { PowMonotone(256, |w| * WORD_SIZE, |s| - 1); }
    }
  }

  /** Appending one byte to the minimal bytes of v. */
  lemma ToDigitsStep(v: nat, octet: Byte)
    ensures ToDigits(v * 256 + octet, 256) == if v == 0 && octet == 0 then [] else ToDigits(v, 256) + [octet]
  {
    if v > 0 || octet > 0 {
      DivModUnique(v * 256 + octet, 256, v, octet);
    }
  }

  /** Dividing twice is dividing by the product. */
  lemma DivDiv(d: nat, p: nat)
    requires p > 0
    ensures d / 256 / p == d / (256 * p)
  {
    var q, r := d / 256, d % 256;
    DivModIdentity(q, p);
    Regroup(q / p, q % p, p, r);
    DivModUnique(d, 256 * p, q / p, 256 * (q % p) + r);
  }

  /** Shifting a word right by j bytes and keeping the low byte reads one of its big-endian bytes. */
  lemma {:induction false} ByteAt(d: nat, k: nat, j: nat)
    requires j < k
    ensures d / Pow(256, j) % 256 == Uvarint.BigEndian(d, k)[k - 1 - j]
    decreases j
  {
    if j > 0 {
      ByteAt(d / 256, k - 1, j - 1);
      DivDiv(d, Pow(256, j - 1));
    }
  }

  lemma Regroup(a: nat, b: nat, p: nat, r: nat)
    requires b < p && r < 256
    ensures (a * p + b) * 256 + r == a * (256 * p) + (256 * b + r)
  {
    assert (a * p) * 256 == a * (256 * p);
  }

  /** copyWords: the bytes of the words from the top, leading zero bytes skipped. */
  method CopyWords(buf: seq<Byte>, words: seq<Word>) returns (r: seq<Byte>)
    ensures r == buf + ToDigits(WordsValue(words), 256)
  {
    r := buf;
    var leading := true;
    ghost var v: nat := 0;
    ghost var big := Reversed(words);
    for w := |words| downto 0
      invariant v == FromDigits(big[..|words| - w], TWO64)
      invariant r == buf + ToDigits(v, 256) && (leading <==> v == 0)
    {
      assert big[..|words| - w] == big[..|words| - w - 1] + [words[w]];
      FromDigitsSnoc(big[..|words| - w - 1], words[w], TWO64);
      r, leading, v := CopyWord(buf, words[w], r, leading, v);
    }
    assert big[..|words|] == big;
  }

  method CopyWord(ghost buf: seq<Byte>, d: Word, r0: seq<Byte>, leading0: bool, ghost v0: nat)
    returns (r: seq<Byte>, leading: bool, ghost v: nat)
    requires r0 == buf + ToDigits(v0, 256) && (leading0 <==> v0 == 0)
    ensures v == v0 * TWO64 + d
    ensures r == buf + ToDigits(v, 256) && (leading <==> v == 0)
  {
    r, leading, v := r0, leading0, v0;
    ghost var bytes := Uvarint.BigEndian(d, 8);
    for j := 8 downto 0
      invariant v == v0 * Pow(256, 8 - j) + FromDigits(bytes[..8 - j], 256)
      invariant r == buf + ToDigits(v, 256) && (leading <==> v == 0)
    {
      var octet := LowByte(d, j);
      v := NextByte(v0, bytes, 7 - j, v);
      if octet == 0 && leading {
        continue;
      }
      leading := false;
      r := r + [octet];
    }
    WordDone(v0, d);
  }

  /** byte(d >> 8j) */
  function LowByte(d: Word, j: nat): (b: Byte)
    requires j < 8
    ensures b == Uvarint.BigEndian(d, 8)[7 - j]
  {
    ByteAt(d, 8, j);
    d / Pow(256, j) % 256
  }

  lemma WordDone(v0: nat, d: Word)
    ensures v0 * Pow(256, 8) + FromDigits(Uvarint.BigEndian(d, 8)[..8], 256) == v0 * TWO64 + d
  {
    var bytes := Uvarint.BigEndian(d, 8);
    Uvarint.Powers256();
    Uvarint.BigEndianValue(d, 8);
    assert bytes[..8] == bytes;
  }

  lemma NextByte(v0: nat, bytes: seq<Byte>, k: nat, v: nat) returns (v': nat)
    requires k < |bytes| && v == v0 * Pow(256, k) + FromDigits(bytes[..k], 256)
    ensures v' == v0 * Pow(256, k + 1) + FromDigits(bytes[..k + 1], 256)
    ensures v' == 0 <==> v == 0 && bytes[k] == 0
    ensures ToDigits(v', 256) == if v == 0 && bytes[k] == 0 then [] else ToDigits(v, 256) + [bytes[k]]
  {
    v' := v * 256 + bytes[k];
    ToDigitsStep(v, bytes[k]);
    FromDigitsSnoc(bytes[..k], bytes[k], 256);
    assert bytes[..k + 1] == bytes[..k] + [bytes[k]];
    Shift(v0, Pow(256, k), FromDigits(bytes[..k], 256), bytes[k]);
  }

  lemma Shift(v0: nat, q: nat, h: nat, octet: nat)
    ensures (v0 * q + h) * 256 + octet == v0 * (256 * q) + (h * 256 + octet)
  {
    assert (v0 * q) * 256 == v0 * (256 * q);
  }

  /** The encoder writes exactly the encoding the round trip is about. */
  method EncodeNonsortingDecimal(b: seq<Byte>, d: Decimal) returns (r: seq<Byte>)
    requires InMemory(d)
    ensures r == b + Encoding(d)
  {
    if d.Infinite? {
      return b + [if d.negative then NEGATIVE_INFINITY else INFINITY];
    }
    if d.NaN? {
      return b + [NAN];
    }
    if d.coeff == 0 && !d.negative && d.exponent == 0 {
      return b + [ZERO];
    }
    var buf := EncodeFinite(d.negative, NumDigits(d.coeff) + d.exponent, d.coeff);
    return b + buf;
  }

  /** Marker, exponent and the words of the coefficient. */
  method EncodeFinite(negative: bool, e: int, coeff: nat) returns (r: seq<Byte>)
    requires ExponentFits(e)
    ensures r == [Marker(negative, e)] + (ExponentBytes(e) + ToDigits(coeff, 256))
  {
    CoeffWordsValue(coeff);
    var tag: Byte;
    var varint: seq<Byte>;
    if e > 0 {
      tag := if negative then NEG_LARGE else POS_LARGE;
      varint := Uvarint.EncodeAscending(Size(e));
    } else if e == 0 {
      tag := if negative then NEG_MEDIUM else POS_MEDIUM;
      varint := [];
    } else {
      tag := if negative then NEG_SMALL else POS_SMALL;
      varint := Uvarint.EncodeAscending(Size(e));
    }
    assert tag == Marker(negative, e) && varint == ExponentBytes(e);
    var buf := CopyWords(varint, CoeffWords(coeff));
    r := [tag] + buf;
  }
}
