/** The order-preserving variable-length integers of encoding.go. */
module Uvarint {
  import opened Digits
  import opened Bytes
  import opened Machine

  const INT_MIN := 0x80
  const INT_MAX := 0xfd
  const INT_MAX_WIDTH := 8
  const INT_ZERO := INT_MIN + INT_MAX_WIDTH
  const INT_SMALL := INT_MAX - INT_ZERO - INT_MAX_WIDTH
  const MAX_VARINT_LEN := 9

  datatype VarintError = Insufficient | InvalidLength

  /** The low k bytes of v, most significant first. */
  function BigEndian(v: nat, k: nat): (s: seq<Byte>)
    ensures |s| == k
  {
    if k == 0 then [] else BigEndian(v / 256, k - 1) + [v % 256]
  }

  lemma {:induction false} BigEndianValue(v: nat, k: nat)
    requires v < Pow(256, k)
    ensures FromDigits(BigEndian(v, k), 256) == v
    decreases k
  {
    if k > 0 {
      assert Pow(256, k) == 256 * Pow(256, k - 1);
      assert v / 256 < Pow(256, k - 1);
      BigEndianValue(v / 256, k - 1);
      FromDigitsSnoc(BigEndian(v / 256, k - 1), v % 256, 256);
    }
  }

  lemma BigEndianOrder(v: nat, w: nat, k: nat)
    requires v < w < Pow(256, k)
    ensures Below(BigEndian(v, k), BigEndian(w, k))
  {
    BigEndianValue(v, k);
    BigEndianValue(w, k);
    NumeralOrder(BigEndian(v, k), BigEndian(w, k), 256);
  }

  /** The number of bytes after the length byte of a multi-byte encoding. */
  function Width(v: Word): (n: nat)
    ensures 1 <= n <= 8
  {
    if v <= 0xff then 1
    else if v <= 0xffff then 2
    else if v <= 0xff_ffff then 3
    else if v <= 0xffff_ffff then 4
    else if v <= 0xff_ffff_ffff then 5
    else if v <= 0xffff_ffff_ffff then 6
    else if v <= 0xff_ffff_ffff_ffff then 7
    else 8
  }

  lemma Powers256()
    ensures Pow(256, 1) == 0x100 && Pow(256, 2) == 0x1_0000 && Pow(256, 3) == 0x100_0000
    ensures Pow(256, 4) == 0x1_0000_0000 && Pow(256, 5) == 0x100_0000_0000
    ensures Pow(256, 6) == 0x1_0000_0000_0000 && Pow(256, 7) == 0x100_0000_0000_0000
    ensures Pow(256, 8) == TWO64
  {}

  lemma WidthFits(v: Word)
    ensures v < Pow(256, Width(v))
  {
    Powers256();
  }

  lemma WidthMonotone(v: Word, w: Word)
    requires v <= w
    ensures Width(v) <= Width(w)
  {}

  function EncodeAscending(v: Word): (s: seq<Byte>) {
    if v <= INT_SMALL then [INT_ZERO + v]
    else [INT_MAX - 8 + Width(v)] + BigEndian(v, Width(v))
  }

  function EncodeDescending(v: Word): (s: seq<Byte>) {
    if v == 0 then [INT_MIN + 8]
    else [INT_MIN + 8 - Width(v)] + BigEndian(TWO64 - 1 - v, Width(v))
  }

  /** Go's highestByteIndex, found by halving. */
  function HighestByteIndex(v: Word): nat {
    var (v1, l1) := if v > 0xffff_ffff then (v / 0x1_0000_0000, 4) else (v, 0);
    var (v2, l2) := if v1 > 0xffff then (v1 / 0x1_0000, l1 + 2) else (v1, l1);
    if v2 > 0xff then l2 + 1 else l2
  }

  function EncLenAscending(v: Word): nat {
    if v <= INT_SMALL then 1 else 2 + HighestByteIndex(v)
  }

  function EncLenDescending(v: Word): nat {
    if v == 0 then 1 else 2 + HighestByteIndex(v)
  }

  /** The length computed without encoding is the length of the encoding. */
  lemma EncLenCorrect(v: Word)
    ensures EncLenAscending(v) == |EncodeAscending(v)| <= MAX_VARINT_LEN
    ensures EncLenDescending(v) == |EncodeDescending(v)| <= MAX_VARINT_LEN
  {}

  lemma AscendingOrder(v: Word, w: Word)
    requires v < w
    ensures Below(EncodeAscending(v), EncodeAscending(w))
  {
    WidthMonotone(v, w);
    if v > INT_SMALL && Width(v) == Width(w) {
      WidthFits(w);
      BigEndianOrder(v, w, Width(v));
      BelowPrefixed([INT_MAX - 8 + Width(v)], BigEndian(v, Width(v)), BigEndian(w, Width(w)));
    } else {
      BelowHead(EncodeAscending(v), EncodeAscending(w));
    }
  }

  lemma DescendingOrder(v: Word, w: Word)
    requires v < w
    ensures Below(EncodeDescending(w), EncodeDescending(v))
  {
    WidthMonotone(v, w);
    if v > 0 && Width(v) == Width(w) {
      var k := Width(v);
      WidthFits(v);
      WidthFits(w);
      DescendingBytes(v, k);
      DescendingBytes(w, k);
      BigEndianOrder(Pow(256, k) - 1 - w, Pow(256, k) - 1 - v, k);
      BelowPrefixed([INT_MIN + 8 - k], BigEndian(TWO64 - 1 - w, k), BigEndian(TWO64 - 1 - v, k));
    } else {
      BelowHead(EncodeDescending(w), EncodeDescending(v));
    }
  }

  /** Only the low k bytes of the 64-bit complement are kept: they are the k-byte complement. */
  lemma DescendingBytes(v: Word, k: nat)
    requires k <= 8 && v < Pow(256, k)
    ensures BigEndian(TWO64 - 1 - v, k) == BigEndian(Pow(256, k) - 1 - v, k)
    ensures BigEndian(TWO64 - 1 - v, k) == Complement(BigEndian(v, k))
  {
    var m := HigherBytes(k);
    BigEndianComplement(v, k, TWO64 - 1 - v, m, TWO64 - Pow(256, k));
    BigEndianComplement(v, k, Pow(256, k) - 1 - v, 0, 0);
  }

  /** The largest number of 8 bytes is that of k bytes and multiples of the next power. */
  lemma HigherBytes(k: nat) returns (m: nat)
    requires k <= 8
    ensures m * Pow(256, k) == TWO64 - Pow(256, k)
  {
    var p, q := Pow(256, k), Pow(256, 8 - k);
    m := q - 1;
    assert q * p == TWO64 by {
      Powers256();
      PowAdd(256, 8 - k, k);
    }
    assert (q - 1) * p == q * p - p;
  }

  /** n is the complement of v in k bytes, with higher bytes that add up to high. */
  lemma {:induction false} BigEndianComplement(v: nat, k: nat, n: nat, m: nat, high: nat)
    requires v < Pow(256, k) && high == m * Pow(256, k) && n == Pow(256, k) - 1 - v + high
    ensures BigEndian(n, k) == Complement(BigEndian(v, k))
    decreases k
  {
    if k > 0 {
      var p := Pow(256, k - 1);
      var q, r := v / 256, v % 256;
      assert q < p;
      assert high == 256 * (m * p) by { MulAssoc(256, m, p); }
      MulMonotone(0, m, p);
      DivModUnique(n, 256, p - 1 - q + m * p, 255 - r);
      BigEndianComplement(q, k - 1, p - 1 - q + m * p, m, m * p);
    }
  }

  type Decoded = Result<(seq<Byte>, Word), VarintError>

  /** What DecodeUvarintAscending returns: the bytes left over and the integer. */
  function DecodeAscending(b: seq<Byte>): Decoded {
    if b == [] then Err(Insufficient)
    else
      var length := b[0] - INT_ZERO;
      if length <= INT_SMALL then Ok((b[1..], length % TWO64))
      else
        var n := length - INT_SMALL;
        if n > 8 then Err(InvalidLength)
        else if |b| - 1 < n then Err(Insufficient)
        else BytesFit(b[1..1 + n]); Ok((b[1 + n..], FromDigits(b[1..1 + n], 256)))
  }

  function DecodeDescending(b: seq<Byte>): Decoded {
    if b == [] then Err(Insufficient)
    else
      var n := INT_ZERO - b[0];
      if n < 0 || n > 8 then Err(InvalidLength)
      else if |b| - 1 < n then Err(Insufficient)
      else BytesFit(Complement(b[1..1 + n])); Ok((b[1 + n..], FromDigits(Complement(b[1..1 + n]), 256)))
  }

  lemma BytesFit(s: seq<Byte>)
    requires |s| <= 8
    ensures FromDigits(s, 256) < TWO64
  {
    FromDigitsBounds(s, 256);
    PowMonotone(256, |s|, 8);
    Powers256();
  }

  /** Decoding undoes encoding and consumes exactly the encoding. */
  lemma AscendingRoundTrip(v: Word, rest: seq<Byte>)
    ensures DecodeAscending(EncodeAscending(v) + rest) == Ok((rest, v))
  {
    var b := EncodeAscending(v) + rest;
    if v <= INT_SMALL {
      assert b[1..] == rest;
    } else {
      WidthFits(v);
      BigEndianValue(v, Width(v));
      assert b[1..1 + Width(v)] == BigEndian(v, Width(v));
      assert b[1 + Width(v)..] == rest;
    }
  }

  lemma DescendingRoundTrip(v: Word, rest: seq<Byte>)
    ensures DecodeDescending(EncodeDescending(v) + rest) == Ok((rest, v))
  {
    if v == 0 {
      DecodeDescendingParts(0, [], rest);
      assert EncodeDescending(v) + rest == [INT_ZERO - 0] + [] + rest;
    } else {
      var k := Width(v);
      WidthFits(v);
      DescendingBytes(v, k);
      BigEndianValue(v, k);
      ComplementInvolutive(BigEndian(v, k));
      DecodeDescendingParts(k, BigEndian(TWO64 - 1 - v, k), rest);
    }
  }

  lemma DecodeDescendingParts(n: nat, c: seq<Byte>, rest: seq<Byte>)
    requires |c| == n <= 8
    ensures FromDigits(Complement(c), 256) < TWO64
    ensures DecodeDescending([INT_ZERO - n] + c + rest) == Ok((rest, FromDigits(Complement(c), 256)))
  {
    BytesFit(Complement(c));
    var b := [INT_ZERO - n] + c + rest;
    assert b[1..1 + n] == c && b[1 + n..] == rest;
  }

  /** The decoder's loop: shift the value left by a byte and put the next byte in. */
  method DecodeUvarintAscending(b: seq<Byte>) returns (r: Decoded)
    ensures r == DecodeAscending(b)
  {
    if |b| == 0 { return Err(Insufficient); }
    var length := b[0] - INT_ZERO;
    var bs := b[1..];
    if length <= INT_SMALL { return Ok((bs, length % TWO64)); }
    length := length - INT_SMALL;
    if length < 0 || length > 8 {
      return Err(InvalidLength);
    } else if |bs| < length {
      return Err(Insufficient);
    }
    var v: Word := 0;
    assert bs[..0] == [];
    for i := 0 to length
      invariant v == FromDigits(bs[..i], 256)
    {
      assert bs[..i + 1] == bs[..i] + [bs[i]];
      FromDigitsSnoc(bs[..i], bs[i], 256);
      BytesFit(bs[..i + 1]);
      v := v * 256 % TWO64 + bs[i];
    }
    assert bs[..length] == b[1..1 + length] && bs[length..] == b[1 + length..];
    return Ok((bs[length..], v));
  }

  method DecodeUvarintDescending(b: seq<Byte>) returns (r: Decoded)
    ensures r == DecodeDescending(b)
  {
    if |b| == 0 { return Err(Insufficient); }
    var length := INT_ZERO - b[0];
    var bs := b[1..];
    if length < 0 || length > 8 {
      return Err(InvalidLength);
    } else if |bs| < length {
      return Err(Insufficient);
    }
    var x: Word := 0;
    for i := 0 to length
      invariant x == FromDigits(Complement(bs[..i]), 256)
    {
      ComplementStep(bs, i);
      x := x * 256 % TWO64 + (255 - bs[i]);
    }
    assert bs[..length] == b[1..1 + length] && bs[length..] == b[1 + length..];
    return Ok((bs[length..], x));
  }

  lemma ComplementStep(bs: seq<Byte>, i: nat)
    requires i < |bs| && i < 8
    ensures FromDigits(Complement(bs[..i + 1]), 256) == FromDigits(Complement(bs[..i]), 256) * 256 + (255 - bs[i])
    ensures FromDigits(Complement(bs[..i + 1]), 256) < TWO64
  {
    assert Complement(bs[..i + 1]) == Complement(bs[..i]) + [255 - bs[i]];
    FromDigitsSnoc(Complement(bs[..i]), 255 - bs[i], 256);
    BytesFit(Complement(bs[..i + 1]));
  }

  /** The length of an encoded varint, read from its first byte. */
  function GetVarintLen(b: seq<Byte>): Result<nat, VarintError>
    requires b != []
  {
    var length := b[0] - INT_ZERO;
    if 0 <= length <= INT_SMALL then Ok(1)
    else
      var n := if length >= 0 then 1 + length - INT_SMALL else 1 - length;
      if n > |b| then Err(Insufficient) else Ok(n)
  }

  lemma GetVarintLenCorrect(v: Word, rest: seq<Byte>)
    ensures GetVarintLen(EncodeAscending(v) + rest) == Ok(|EncodeAscending(v)|)
    ensures GetVarintLen(EncodeDescending(v) + rest) == Ok(|EncodeDescending(v)|)
  {}
}
