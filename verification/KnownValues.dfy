/** Values whose encodings are known: they fix the formats that round trips and orders leave open. */
module KnownValues {
  import opened AddrFormat
  import opened Base128
  import opened Bitmaps
  import opened Bytes
  import opened DecimalForm
  import opened DecimalKey
  import opened Decimals
  import opened Digits
  import opened Escapes
  import opened Machine
  import opened Names
  import opened Octets
  import opened Slices
  import NonsortingDecimal
  import opened TypeHistory
  import opened TypeMakers
  import opened Types
  import opened Words
  import DecimalKeyDecode
  import Durations
  import IntSetCodec
  import Uvarint

  // Decimals.

  /** The tags in front of the exponent, and the complement of a negative mantissa. */
  lemma KeyTags(e: int, m: seq<Byte>)
    requires ExponentFits(e)
    ensures FormKey(false, e, m) ==
      (if e > 10 then [0x34] + Uvarint.EncodeAscending(e)
       else if e >= 0 then [0x29 + e]
       else [0x28] + Uvarint.EncodeDescending(-e)) + (m + [0x00])
    ensures FormKey(true, e, m) ==
      (if e > 10 then [0x1a] + Uvarint.EncodeDescending(e)
       else if e >= 0 then [0x25 - e]
       else [0x26] + Uvarint.EncodeAscending(-e)) + (Complement(m) + [0x00])
  {}

  /** The form of a decimal from its digits s, and t without the zeros at their end. */
  lemma FormOfDigits(d: Decimal, s: seq<nat>, t: seq<nat>, p: seq<nat>)
    requires d.Finite? && d.coeff > 0 && DecimalDigits(d.coeff) == s && StripTrailingZeros(s) == t
    requires p == Pairs(Align(t, (d.exponent + |s|) % 2 != 0))
    ensures ToForm(d) == Form(Exponent100(d.exponent + |s|), p)
  {}

  lemma KeyOfDigits(d: Decimal, s: seq<nat>, t: seq<nat>, p: seq<nat>, e: int)
    requires d.Finite? && d.coeff > 0 && DecimalDigits(d.coeff) == s && StripTrailingZeros(s) == t && |s| < 100
    requires p == Pairs(Align(t, (d.exponent + |s|) % 2 != 0)) && e == Exponent100(d.exponent + |s|)
    ensures InMemory(d) && ExponentFits(e) && AllBelow(p, 100)
    ensures Key(d, false) == FormKey(d.negative, e, MantissaBytes(p))
  {
    FormOfDigits(d, s, t, p);
    FormFits(d);
  }

  lemma ThreeDigits()
    ensures DecimalDigits(1) == [1] && DecimalDigits(123) == [1, 2, 3]
  {
    assert DecimalDigits(12) == DecimalDigits(1) + [2];
    assert DecimalDigits(123) == DecimalDigits(12) + [3];
  }

  lemma OneDigit(x: nat, leadingZero: bool)
    ensures Pairs(Align([x], leadingZero)) == [if leadingZero then x else 10 * x]
  {
    assert Align([x], leadingZero) == if leadingZero then [0, x] else [x, 0];
  }

  lemma OddDigits(x: nat, y: nat, z: nat)
    ensures Pairs(Align([x, y, z], true)) == [x, 10 * y + z]
  {
    assert Align([x, y, z], true) == [0, x, y, z];
  }

  lemma OneByte(x: nat)
    requires x < 100
    ensures AllBelow([x], 100) && MantissaBytes([x]) == [2 * x]
  {}

  /** A decimal of one digit, which stands alone in a byte. */
  lemma OneDigitKey(d: Decimal, x: nat, odd: bool, b: nat, e: int)
    requires d.Finite? && d.coeff > 0 && DecimalDigits(d.coeff) == [x] && 0 < x < 10
    requires odd == ((d.exponent + 1) % 2 != 0)
    requires e == Exponent100(d.exponent + 1) && b == (if odd then x else 10 * x)
    ensures InMemory(d) && ExponentFits(e) && Key(d, false) == FormKey(d.negative, e, [2 * b])
  {
    OneDigit(x, odd);
    OneByte(b);
    KeyOfDigits(d, [x], [x], [b], e);
  }

  lemma OneKey()
    ensures InMemory(Finite(false, 1, 0)) && Key(Finite(false, 1, 0), false) == [0x2a, 0x02, 0x00]
  {
    ThreeDigits();
    OneDigitKey(Finite(false, 1, 0), 1, true, 1, 1);
    KeyTags(1, [0x02]);
  }

  lemma NegativeKey()
    ensures InMemory(Finite(true, 123, -2)) && Key(Finite(true, 123, -2), false) == [0x24, 0xfc, 0xd1, 0x00]
  {
    ThreeDigits();
    OddDigits(1, 2, 3);
    KeyOfDigits(Finite(true, 123, -2), [1, 2, 3], [1, 2, 3], [1, 23], 1);
    assert MantissaBytes([1, 23]) == [0x03, 0x2e];
    KeyTags(1, [0x03, 0x2e]);
    assert Complement([0x03, 0x2e]) == [0xfc, 0xd1];
  }

  lemma SmallKey()
    ensures InMemory(Finite(false, 1, -3)) && Key(Finite(false, 1, -3), false) == [0x28, 0x87, 0xfe, 0x14, 0x00]
  {
    ThreeDigits();
    OneDigitKey(Finite(false, 1, -3), 1, false, 10, -1);
    KeyTags(-1, [0x14]);
    DescendingOne();
  }

  lemma LargeKey()
    ensures InMemory(Finite(false, 1, 21)) && Key(Finite(false, 1, 21), false) == [0x34, 0x93, 0x14, 0x00]
  {
    ThreeDigits();
    OneDigitKey(Finite(false, 1, 21), 1, false, 10, 11);
    KeyTags(11, [0x14]);
  }

  lemma TwoBytes(a: Byte, b: Byte)
    ensures Uvarint.BigEndian(a, 1) == [a] && Uvarint.BigEndian(a * 256 + b, 2) == [a, b]
  {
    assert Uvarint.BigEndian(a / 256, 0) == [];
    assert Uvarint.BigEndian(a * 256 + b, 2) == Uvarint.BigEndian(a, 1) + [b];
  }

  /** Integers up to 109 take one byte; others are bytes behind their number, complemented if descending. */
  lemma VarintExamples()
    ensures Uvarint.EncodeAscending(11) == [0x93] && Uvarint.EncodeAscending(109) == [0xf5]
    ensures Uvarint.EncodeAscending(110) == [0xf6, 0x6e] && Uvarint.EncodeAscending(0x1234) == [0xf7, 0x12, 0x34]
    ensures Uvarint.EncodeDescending(0) == [0x88] && Uvarint.EncodeDescending(1) == [0x87, 0xfe]
  {
    TwoBytes(0x6e, 0);
    TwoBytes(0x12, 0x34);
    DescendingOne();
  }

  lemma DescendingOne()
    ensures Uvarint.EncodeDescending(1) == [0x87, 0xfe]
  {
    LowByteOf(TWO64 - 2, 0xfe);
  }

  lemma LowByteOf(v: nat, b: Byte)
    requires v % 256 == b
    ensures Uvarint.BigEndian(v, 1) == [b]
  {
    assert Uvarint.BigEndian(v / 256, 0) == [];
  }

  /** Zero, and what is no number. */
  lemma SpecialKeys(exponent: Int32, negative: bool)
    ensures InMemory(Finite(negative, 0, exponent)) && Key(Finite(negative, 0, exponent), false) == [0x27]
    ensures Key(NaN, false) == [0x18] && Key(NaN, true) == [0x36]
    ensures Key(Infinite(true), false) == [0x19] && Key(Infinite(false), false) == [0x35]
  {
    assert NumDigits(0) == 1;
  }

  /** 1, minus 123 and a thousandth, not for sorting: the coefficient stays as it is. */
  lemma ValueExamples()
    ensures InMemory(Finite(false, 1, 0)) && NonsortingDecimal.Encoding(Finite(false, 1, 0)) == [0x34, 0x89, 0x01]
    ensures InMemory(Finite(true, 123, 0)) && NonsortingDecimal.Encoding(Finite(true, 123, 0)) == [0x1a, 0x8b, 0x7b]
    ensures InMemory(Finite(false, 1, -3)) && NonsortingDecimal.Encoding(Finite(false, 1, -3)) == [0x28, 0x8a, 0x01]
  {
    ThreeDigits();
    assert ToDigits(0, 256) == [];
    assert ToDigits(1, 256) == [1] && ToDigits(123, 256) == [123];
  }

  /** The bytes that no varint starts with, and varints that are cut off. */
  lemma BadVarints(b: Byte)
    ensures Uvarint.DecodeAscending([]) == Err(Uvarint.Insufficient)
    ensures Uvarint.DecodeDescending([]) == Err(Uvarint.Insufficient)
    ensures Uvarint.DecodeAscending([b]) == Err(Uvarint.InvalidLength) <==> b > 0xfd
    ensures Uvarint.DecodeAscending([b]) == Err(Uvarint.Insufficient) <==> 0xf6 <= b <= 0xfd
    ensures Uvarint.DecodeDescending([b]) == Err(Uvarint.InvalidLength) <==> b < 0x80 || b > 0x88
    ensures Uvarint.DecodeDescending([b]) == Err(Uvarint.Insufficient) <==> 0x80 <= b < 0x88
  {}

  /** Keys that stop behind the first byte, and the bytes that no key starts with. */
  lemma BadKeys(t: Byte, invert: bool)
    ensures DecimalKeyDecode.Decode([t], invert) == Err(DecimalKeyDecode.UnknownPrefix) <==> t < 0x18 || t > 0x36
    ensures DecimalKeyDecode.Decode([t], invert) == Err(DecimalKeyDecode.BadVarint) <==> t in {0x1a, 0x26, 0x28, 0x34}
    ensures DecimalKeyDecode.Decode([t], invert) == Err(DecimalKeyDecode.NoTerminator) <==>
      0x1b <= t <= 0x25 || 0x29 <= t <= 0x33
  {}

  /** A mantissa without a digit, and digits of one hundred and more. */
  lemma BadMantissas(s: seq<Byte>, b: Byte)
    requires (s == [0x29, 0x00] && b == 0) || (s == [0x29, b, 0x00] && b > 0)
    ensures DecimalKeyDecode.Decode(s, false) == Err(DecimalKeyDecode.EmptyMantissa) <==> b == 0
    ensures DecimalKeyDecode.Decode(s, false) == Err(DecimalKeyDecode.DigitOutOfRange) <==> b >= 200
  {
    var r := s[1..];
    if b == 0 {
      assert DecimalKeyDecode.IndexByte(r, 0) == Some(0);
    } else {
      assert r[1..] == [0x00] && DecimalKeyDecode.IndexByte([0x00], 0) == Some(0);
      assert DecimalKeyDecode.IndexByte(r, 0) == Some(1) && r[..1] == [b];
    }
  }

  // Durations.

  /** A day has 24 hours, and a month 30 days. */
  lemma DurationUnits()
    ensures Durations.Total(Durations.Duration(0, 0, 1)) == 1
    ensures Durations.Total(Durations.Duration(0, 1, 0)) == 24 * 60 * 60 * 1_000_000_000
    ensures Durations.Total(Durations.Duration(1, 0, 0)) == 30 * Durations.Total(Durations.Duration(0, 1, 0))
  {}

  // Types.

  /** Times have a precision of microseconds at most. */
  lemma PrecisionLimits(family: int, o: int, precision: int)
    requires (family, o) in TIME_OIDS || (family, o) == (INTERVAL, T_INTERVAL)
    ensures MakeScalar(family, o, precision, 0, "").Some? <==> 0 <= precision <= 6
  {}

  // Varints, sets, messages.

  /** Groups of seven bits, the lowest first, all but the last with the highest bit. */
  lemma Base128Examples()
    ensures PutUvarint(1) == [0x01] && PutUvarint(127) == [0x7f] && PutUvarint(300) == [0xac, 0x02]
  {
    assert PutUvarint(2) == [0x02];
  }

  lemma SixParity(i: nat)
    ensures 6 / Pow(2, i) % 2 == 1 <==> i == 1 || i == 2
  {
    if i > 2 {
      assert Pow(2, 3) == 8;
      PowMonotone(2, 3, i);
      DivModUnique(6, Pow(2, i), 0, 6);
    } else {
      assert Pow(2, 0) == 1 && Pow(2, 1) == 2 && Pow(2, 2) == 4;
    }
  }

  lemma SixHasTwo(i: nat)
    requires i < 128
    ensures Bitmap(6, 0).Has(i) <==> i == 1 || i == 2
  {
    if i < 64 {
      LsbParity(6, i);
      SixParity(i);
    } else {
      LsbParity(0, i - 64);
    }
  }

  lemma SixElements()
    ensures Bitmap(6, 0).Elements() == {1, 2}
  {
    forall i: Int64 | 0 <= i < 128 ensures Bitmap(6, 0).Has(i) <==> i == 1 || i == 2 { SixHasTwo(i); }
  }

  /** Sets of small elements are the bits of one word behind a zero. */
  lemma SmallSetExample(s: seq<Byte>)
    requires s == [0x00, 0x06]
    ensures IntSetCodec.Decoded(s) == Ok(({1, 2}, []))
  {
    SixElements();
    assert s[1..] == [0x06] && s[1..][1..] == [];
    assert ReadUvarint(s, 0) == Ok((0, s[1..]));
    assert ReadUvarint(s[1..], 0) == Ok((6, []));
  }

  /** Other sets are the elements behind their number. */
  lemma LargeSetExample(s: seq<Byte>)
    requires s == [0x02, 0x05, 0xc8, 0x01]
    ensures IntSetCodec.Decoded(s) == Ok(({5, 200}, []))
  {
    assert s[1..][1..] == s[2..] && s[2..][1..] == s[3..] && s[3..][1..] == [];
    assert ReadUvarint(s, 0) == Ok((2, s[1..])) && ReadUvarint(s[1..], 0) == Ok((5, s[2..]));
    assert ReadUvarint(s[3..], 1) == Ok((1, []));
    assert ReadUvarint(s[2..], 0) == Ok((0xc8 - 128 + 128 * 1, []));
    assert IntSetCodec.DecodeEach(1, {} + {5}, s[2..]) == IntSetCodec.DecodeEach(0, {} + {5} + {200}, []);
    assert {} + {5} + {200} == {5, 200};
  }

  /** A varint of ten bytes ends with 0 or 1. */
  lemma ReadFails(b: Byte)
    ensures ReadUvarint([b], 9) == Err(Overflow) <==> b > 1
    ensures ReadUvarint([], 0) == Err(EndOfInput) && (ReadUvarint([b], 0) == Err(EndOfInput) <==> b >= 128)
  {}

  lemma MessageExample()
    ensures Encoded(Addr(['t' as int, 'c' as int], ['a' as int])) == [0x0a, 0x02, 0x74, 0x63, 0x12, 0x01, 0x61]
  {}

  // What is malformed.

  /** All n bytes from i on announce another one. */
  predicate AllContinue(s: seq<Byte>, i: nat, n: nat) {
    i + n <= |s| && forall k :: i <= k < i + n ==> s[k] >= 128
  }

  /** A varint overflows behind ten bytes that go on, and is cut off behind fewer. */
  lemma {:induction false} VarintFails(s: seq<Byte>, i: nat, k: nat)
    requires i <= |s| && k <= 10
    ensures VarintAt(s, i, k) == Err(IntOverflow) <==> AllContinue(s, i, 10 - k)
    ensures VarintAt(s, i, k) == Err(UnexpectedEof) <==> |s| - i < 10 - k && AllContinue(s, i, |s| - i)
    ensures VarintAt(s, i, k).Err? ==> VarintAt(s, i, k) == Err(IntOverflow) || VarintAt(s, i, k) == Err(UnexpectedEof)
    decreases 10 - k
  {
    if k < 10 && i < |s| && s[i] >= 128 { VarintFails(s, i + 1, k + 1); }
  }

  /** An end of a group, the field number 0, a field of another type, a type that does not exist. */
  lemma BadTags(s: Data, m: Addr)
    requires |s| == 1
    ensures s[0] == 0x0c ==> Parse(s, 0, m) == Parsed(m, Some(EndGroup))
    ensures s[0] == 0x02 ==> Parse(s, 0, m) == Parsed(m, Some(IllegalTag))
    ensures s[0] == 0x08 || s[0] == 0x15 ==> Parse(s, 0, m) == Parsed(m, Some(WrongWireType))
    ensures s[0] == 0x1e || s[0] == 0x1f ==> Parse(s, 0, m) == Parsed(m, Some(IllegalWireType))
    ensures s[0] == 0x0a || s[0] == 0x1b ==> Parse(s, 0, m) == Parsed(m, Some(UnexpectedEof))
  {
    assert VarintAt(s, 0, 0) == if s[0] < 128 then Ok((s[0], 1)) else Err(UnexpectedEof);
    assert s[0..] == s;
    if s[0] == 0x1e || s[0] == 0x1f { assert SkipItem(s, 0, 0) == Err(IllegalWireType); }
    if s[0] == 0x1b { assert SkipItem(s, 0, 0) == Ok((1, 1)) && Skip(s, 1, 1) == Err(UnexpectedEof); }
  }

  // Escapes and UTF-8.

  /** The letters of the escapes. */
  lemma EscapeLetters()
    ensures Simple('a') == Some(7 as char) && Simple('b') == Some(8 as char) && Simple('t') == Some(9 as char)
    ensures Simple('n') == Some(10 as char) && Simple('v') == Some(11 as char) && Simple('f') == Some(12 as char)
    ensures Simple('r') == Some(13 as char) && Simple('\\') == Some('\\')
  {}

  lemma TwoHex(s: Text, i: nat, a: Octet, b: Octet)
    requires i + 2 <= |s| && s[i] == a && s[i + 1] == b && IsHexDigit(a) && IsHexDigit(b)
    ensures AllHex(s, i, 2) && HexNumber(s, i, 2) == HexValue(a) * 16 + HexValue(b)
  {
    assert HexNumber(s, i, 1) == HexNumber(s, i, 0) * 16 + HexValue(a);
  }

  /** Digits are read with the highest first: octal, and hexadecimal of two digits and of four. */
  lemma OctalExample(s: Text)
    requires s == ['\\', '1', '0', '1']
    ensures EscapeAt(s, 0, '\'') == Escaped(['A'], 4)
  {}

  lemma HexExample(s: Text, c: Octet)
    requires (c == 'x' || c == 'X') && s == ['\\', c, '4', '1']
    ensures EscapeAt(s, 0, '\'') == Escaped(['A'], 4)
  {
    TwoHex(['\\', 'x', '4', '1'], 2, '4', '1');
    assert EscapeText(s, 0) == ['\\', 'x', '4', '1'];
  }

  lemma UnicodeExample(s: Text)
    requires s == ['\\', 'u', '0', '0', 'E', '9']
    ensures EscapeAt(s, 0, '\'') == Escaped([0xC3 as char, 0xA9 as char], 6)
  {
    TwoHex(s, 2, '0', '0');
    assert HexNumber(s, 2, 3) == HexNumber(s, 2, 2) * 16 + HexValue('E');
    assert HexNumber(s, 2, 4) == HexNumber(s, 2, 3) * 16 + HexValue('9') == 0xE9;
    assert s[0..] == s;
  }

  lemma OneHexDigit(v: nat, d: nat, n: nat)
    requires d < 16
    ensures PrintHex(v * 16 + d, n + 1, true) == PrintHex(v, n, true) + [HexChar(d, true)]
  {}

  lemma {:induction false} OnlyZeros(n: nat)
    ensures PrintHex(0, n, true) == Repeat<Octet>('0', n)
  {
    if n > 0 { OnlyZeros(n - 1); }
  }

  /** Characters of two bytes are printed with four digits, longer ones with eight. */
  lemma RuneEscapes(r: int)
    requires r == 0xE9 || r == 0x20AC
    ensures r == 0xE9 ==> RuneEscape(r) == ['\\', 'u', '0', '0', 'E', '9']
    ensures r == 0x20AC ==> RuneEscape(r) == ['\\', 'U', '0', '0', '0', '0', '2', '0', 'A', 'C']
  {
    if r == 0xE9 { ShortRune(); } else { LongRune(); }
  }

  lemma ShortRune()
    ensures PrintHex(0xE9, 4, true) == ['0', '0', 'E', '9']
  {
    OnlyZeros(2);
    OneHexDigit(0, 0xE, 2);
    OneHexDigit(0xE, 0x9, 3);
  }

  lemma LongRune()
    ensures PrintHex(0x20AC, 8, true) == ['0', '0', '0', '0', '2', '0', 'A', 'C']
  {
    OnlyZeros(4);
    OneHexDigit(0, 0x2, 4);
    OneHexDigit(0x2, 0x0, 5);
    OneHexDigit(0x20, 0xA, 6);
    OneHexDigit(0x20A, 0xC, 7);
  }

  /** Prefixes of keywords that are still being tried out. */
  lemma PrefixExamples(t: Text)
    ensures WithoutPrefix(['t', 'e', 's', 't', 'i', 'n', 'g', '_'] + t) == Some(t)
    ensures WithoutPrefix(['e', 'x', 'p', 'e', 'r', 'i', 'm', 'e', 'n', 't', 'a', 'l', '_'] + t) == Some(t)
  {
    assert TESTING + t == ['t', 'e', 's', 't', 'i', 'n', 'g', '_'] + t;
    assert EXPERIMENTAL + t == ['e', 'x', 'p', 'e', 'r', 'i', 'm', 'e', 'n', 't', 'a', 'l', '_'] + t;
    assert (TESTING + t)[|TESTING|..] == t && (EXPERIMENTAL + t)[|EXPERIMENTAL|..] == t;
    assert (TESTING + t)[0] == 't' && EXPERIMENTAL[0] == 'e';
  }

  /** The examples of section 7 of RFC 3629. */
  lemma Utf8Examples()
    ensures EncodeRune(0x41) == ['A'] && EncodeRune(0x391) == [0xCE as char, 0x91 as char]
    ensures EncodeRune(0x2262) == [0xE2 as char, 0x89 as char, 0xA2 as char]
    ensures EncodeRune(RUNE_ERROR) == [0xEF as char, 0xBF as char, 0xBD as char]
    ensures EncodeRune(0x233B4) == [0xF0 as char, 0xA3 as char, 0x8E as char, 0xB4 as char]
  {}
}
