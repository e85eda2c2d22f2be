/** The loops and in-place buffer updates of decimal.go, each proved to compute its key function. */
module DecimalCodec {
  import opened Buffers
  import opened Digits
  import opened Bytes
  import opened Decimals
  import opened DecimalForm
  import opened DecimalKey
  import opened DecimalKeyDecode
  import opened Machine
  import Uvarint

  const CHAR_ZERO: Byte := 48

  method OnesComplement(b: array<Byte>, lo: nat, hi: nat)
    requires lo <= hi <= b.Length
    modifies b
    ensures b[..] == old(b[..lo]) + Complement(old(b[lo..hi])) + old(b[hi..])
    ensures b[lo..hi] == Complement(old(b[lo..hi]))
  {
    for i := lo to hi
      invariant forall k :: lo <= k < i ==> b[k] == 255 - old(b[k])
      invariant forall k :: 0 <= k < lo || i <= k < b.Length ==> b[k] == old(b[k])
    {
      b[i] := 255 - b[i];
    }
  }

  /** The first i pairs of digits behind lo have become mantissa bytes; the other digits stand where they stood. */
  ghost predicate HalfPaired(s: seq<Byte>, lo: nat, a: seq<nat>, i: nat)
    requires |a| % 2 == 0 && lo + |a| <= |s| && 2 * i <= |a|
  {
    && (forall k :: 0 <= k < i ==> s[lo + k] == 2 * Pairs(a)[k] + 1)
    && forall k :: 2 * i <= k < |a| ==> s[lo + k] == CHAR_ZERO + a[k]
  }

  lemma PairStep(s: seq<Byte>, lo: nat, a: seq<nat>, i: nat) returns (v: Byte)
    requires |a| % 2 == 0 && lo + |a| <= |s| && 2 * i < |a| && AllBelow(a, 10) && HalfPaired(s, lo, a, i)
    ensures v == 2 * (10 * (s[lo + 2 * i] - CHAR_ZERO) + (s[lo + 2 * i + 1] - CHAR_ZERO)) + 1
    ensures HalfPaired(s[lo + i := v], lo, a, i + 1)
  {
    assert s[lo + 2 * i] == CHAR_ZERO + a[2 * i] && s[lo + (2 * i + 1)] == CHAR_ZERO + a[2 * i + 1];
    assert a[2 * i] < 10 && a[2 * i + 1] < 10;
    v := 2 * (10 * a[2 * i] + a[2 * i + 1]) + 1;
  }

  /** The last mantissa byte is the even one. */
  lemma AllPaired(t: seq<Byte>, lo: nat, a: seq<nat>, n: nat)
    requires |a| % 2 == 0 && 0 < n && 2 * n == |a| && lo + n <= |t| && AllBelow(Pairs(a), 100)
    requires t[lo + (n - 1)] == 2 * Pairs(a)[n - 1]
    requires forall k :: 0 <= k < n - 1 ==> t[lo + k] == 2 * Pairs(a)[k] + 1
    ensures t[lo..lo + n] == MantissaBytes(Pairs(a))
  {}

  /** Turns the digits tmp[lo..hi] into base-100 bytes, in place and from the front. */
  method PairInPlace(tmp: array<Byte>, lo: nat, hi: nat, ghost a: seq<nat>) returns (n: nat)
    requires lo < hi <= tmp.Length && hi - lo == |a| && |a| % 2 == 0 && AllBelow(a, 10)
    requires forall k :: 0 <= k < |a| ==> tmp[lo + k] == CHAR_ZERO + a[k]
    modifies tmp
    ensures n == |Pairs(a)| && lo + n <= tmp.Length && AllBelow(Pairs(a), 100)
    ensures tmp[lo..lo + n] == MantissaBytes(Pairs(a))
  {
    PairsBelow(a);
    n := (hi - lo) / 2;
    for i := 0 to n
      invariant HalfPaired(tmp[..], lo, a, i)
    {
      ghost var v := PairStep(tmp[..], lo, a, i);
      var accum := 10 * (tmp[lo + 2 * i] - CHAR_ZERO) + (tmp[lo + 2 * i + 1] - CHAR_ZERO);
      tmp[lo + i] := 2 * accum + 1;
    }
    ghost var s := tmp[..];
    assert forall k :: 0 <= k < n ==> s[lo + k] == 2 * Pairs(a)[k] + 1;
    assert tmp[lo + (n - 1)] == s[lo + (n - 1)] == 2 * Pairs(a)[n - 1] + 1;
    tmp[lo + (n - 1)] := tmp[lo + (n - 1)] - 1;
    AllPaired(tmp[..], lo, a, n);
    assert tmp[..][lo..lo + n] == tmp[lo..lo + n];
  }

  /**
   A leading zero, the decimal digits of c and room for one more digit: in the spare capacity of the
   caller's buffer when they fit, otherwise in a buffer of their own.
   */
  method DigitBuffer(c: nat, spare: array<Byte>) returns (tmp: array<Byte>, hi: nat)
    modifies spare
    ensures tmp == spare || fresh(tmp)
    ensures tmp.Length >= |DecimalDigits(c)| + 2 && hi == |DecimalDigits(c)| + 1
    ensures tmp[0] == CHAR_ZERO && forall k :: 1 <= k < hi ==> tmp[k] == CHAR_ZERO + DecimalDigits(c)[k - 1]
  {
    var digits := DecimalDigits(c);
    hi := |digits| + 1;
    tmp := spare;
    if spare.Length < hi + 1 { tmp := new Byte[hi + 1](i => CHAR_ZERO); }
    tmp[0] := CHAR_ZERO;
    for k := 0 to |digits|
      invariant tmp[0] == CHAR_ZERO
      invariant forall j :: 1 <= j <= k ==> tmp[j] == CHAR_ZERO + digits[j - 1]
    {
      assert digits[k] < 10;
      tmp[k + 1] := CHAR_ZERO + digits[k];
    }
  }

  /** Drops trailing zero digits by lowering the end of the buffer. */
  method StripZeros(tmp: array<Byte>, end: nat, ghost digits: seq<nat>) returns (hi: nat)
    requires end == |digits| + 1 <= tmp.Length && StripTrailingZeros(digits) != []
    requires forall k :: 1 <= k < end ==> tmp[k] == CHAR_ZERO + digits[k - 1]
    ensures hi == |StripTrailingZeros(digits)| + 1
  {
    ghost var stripped := StripTrailingZeros(digits);
    hi := end;
    while tmp[hi - 1] == CHAR_ZERO
      invariant |stripped| + 1 <= hi <= |digits| + 1
      decreases hi
    {
      assert digits[|stripped| - 1] == stripped[|stripped| - 1];
      hi := hi - 1;
    }
  }

  /** Keeps the leading zero only for an odd exponent and evens out the number of digits. */
  method AlignInPlace(tmp: array<Byte>, end: nat, odd: bool, ghost s: seq<nat>) returns (lo: nat, hi: nat)
    requires end == |s| + 1 < tmp.Length && tmp[0] == CHAR_ZERO
    requires forall k :: 1 <= k < end ==> tmp[k] == CHAR_ZERO + s[k - 1]
    modifies tmp
    ensures lo <= hi <= tmp.Length && hi - lo == |Align(s, odd)|
    ensures forall k :: 0 <= k < hi - lo ==> tmp[lo + k] == CHAR_ZERO + Align(s, odd)[k]
  {
    lo, hi := if odd then 0 else 1, end;
    if (hi - lo) % 2 != 0 {
      tmp[hi] := CHAR_ZERO;
      hi := hi + 1;
    }
    forall k | 0 <= k < hi - lo ensures tmp[lo + k] == CHAR_ZERO + Align(s, odd)[k] {
      var j := lo + k - 1;
      assert Align(s, odd)[k] == if 0 <= j < |s| then s[j] else 0;
    }
  }

  /** Strips, aligns and pairs the digits of a buffer; the mantissa is what stands from lo to hi. */
  method MantissaInBuffer(tmp: array<Byte>, end: nat, odd: bool, ghost digits: seq<nat>) returns (lo: nat, hi: nat)
    requires end == |digits| + 1 < tmp.Length && tmp[0] == CHAR_ZERO && AllBelow(digits, 10)
    requires forall k :: 1 <= k < end ==> tmp[k] == CHAR_ZERO + digits[k - 1]
    requires digits != [] && digits[0] > 0
    modifies tmp
    ensures lo <= hi <= tmp.Length
    ensures var x := Pairs(Align(StripTrailingZeros(digits), odd)); AllBelow(x, 100) && tmp[lo..hi] == MantissaBytes(x)
  {
    ghost var stripped := StripTrailingZeros(digits);
    assert stripped != [];
    ghost var aligned := Align(stripped, odd);
    assert AllBelow(aligned, 10) by { AlignBelow(stripped, odd); }
    var last := StripZeros(tmp, end, digits);
    lo, last := AlignInPlace(tmp, last, odd, stripped);
    var n := PairInPlace(tmp, lo, last, aligned);
    hi := lo + n;
  }

  method DecimalEandM(d: Decimal, spare: array<Byte>) returns (e100: int, tmp: array<Byte>, lo: nat, hi: nat)
    requires d.Finite? && d.coeff > 0
    modifies spare
    ensures tmp == spare || fresh(tmp)
    ensures Normal(ToForm(d)) && e100 == ToForm(d).e
    ensures lo <= hi <= tmp.Length && tmp[lo..hi] == MantissaBytes(ToForm(d).x)
  {
    FormNormal(d);
    var end: nat;
    tmp, end := DigitBuffer(d.coeff, spare);
    var e10 := d.exponent + (end - 1);
    if e10 >= 0 {
      e100 := (e10 + 1) / 2;
    } else {
      e100 := -(-e10 / 2);
    }
    lo, hi := MantissaInBuffer(tmp, end, e100 * 2 != e10, DecimalDigits(d.coeff));
  }

  lemma KeyPieces(s: seq<Byte>, n: nat, l: nat, varint: seq<Byte>, m: seq<Byte>)
    requires 1 + n <= l < |s| && s[1..1 + n] == varint && s[1 + n..l] == m
    ensures s[..l + 1] == [s[0]] + varint + (m + [s[l]])
  {
    assert s[..l + 1] == [s[0]] + s[1..1 + n] + (s[1 + n..l] + [s[l]]);
  }

  function VarintOf(expAscending: bool, exp: Word): seq<Byte> {
    if expAscending then Uvarint.EncodeAscending(exp) else Uvarint.EncodeDescending(exp)
  }

  /** The mantissa is copied to its place before anything else is written: it may overlap with encInto. */
  method EncodeVarExpNumber(tag: Byte, expAscending: bool, exp: Word, m: array<Byte>, lo: nat, hi: nat,
                            encInto: array<Byte>)
    returns (l: nat)
    requires lo <= hi <= m.Length && 1 + |VarintOf(expAscending, exp)| + (hi - lo) < encInto.Length
    modifies encInto
    ensures l <= encInto.Length
    ensures encInto[..l] == [tag] + VarintOf(expAscending, exp) + (old(m[lo..hi]) + [TERMINATOR])
  {
    var n := if expAscending then Uvarint.EncLenAscending(exp) else Uvarint.EncLenDescending(exp);
    var varint := VarintOf(expAscending, exp);
    assert n == |varint| by { Uvarint.EncLenCorrect(exp); }
    var mantissa := m[lo..hi];
    l := 1 + n + |mantissa|;
    CopyInto(encInto, 1 + n, mantissa);
    PutHeader(tag, varint, encInto, l, mantissa);
    l := l + 1;
  }

  /** Writes tag, exponent and terminator around a mantissa that is already in place. */
  method PutHeader(tag: Byte, varint: seq<Byte>, encInto: array<Byte>, l: nat, ghost m: seq<Byte>)
    requires l == 1 + |varint| + |m| < encInto.Length && encInto[1 + |varint|..l] == m
    modifies encInto
    ensures encInto[..l + 1] == [tag] + varint + (m + [TERMINATOR])
  {
    encInto[0] := tag;
    CopyInto(encInto, 1, varint);
    encInto[l] := TERMINATOR;
    ghost var s := encInto[..];
    assert s[1..1 + |varint|] == varint && s[1 + |varint|..l] == m;
    KeyPieces(s, |varint|, l, varint, m);
    assert s[..l + 1] == encInto[..l + 1];
  }

  lemma SmallKey(negative: bool, e: int, exp: Word, m: seq<Byte>)
    requires ExponentFits(e) && e < 0 && exp == 0 - e
    ensures var tag := if negative then NEG_SMALL else POS_SMALL;
            FormKey(negative, e, m) == [tag] + VarintOf(negative, exp) + (SignedMantissa(negative, m) + [TERMINATOR])
    ensures |Prefix(negative, e)| == 1 + |VarintOf(negative, exp)|
  {}

  lemma LargeKey(negative: bool, e: int, m: seq<Byte>)
    requires ExponentFits(e) && e >= 11
    ensures var tag := if negative then NEG_LARGE else POS_LARGE;
            FormKey(negative, e, m) == [tag] + VarintOf(!negative, e) + (SignedMantissa(negative, m) + [TERMINATOR])
    ensures |Prefix(negative, e)| == 1 + |VarintOf(!negative, e)|
  {}

  method EncodeSmallNumber(negative: bool, e: int, m: array<Byte>, lo: nat, hi: nat, encInto: array<Byte>)
    returns (l: nat)
    requires ExponentFits(e) && e < 0
    requires lo <= hi <= m.Length && |Prefix(negative, e)| + (hi - lo) < encInto.Length
    modifies m, encInto
    ensures l <= encInto.Length && encInto[..l] == FormKey(negative, e, old(m[lo..hi]))
  {
    var exp: Word := 0 - e;
    SmallKey(negative, e, exp, m[lo..hi]);
    if negative {
      OnesComplement(m, lo, hi);
      l := EncodeVarExpNumber(NEG_SMALL, true, exp, m, lo, hi, encInto);
    } else {
      l := EncodeVarExpNumber(POS_SMALL, false, exp, m, lo, hi, encInto);
    }
  }

  method EncodeLargeNumber(negative: bool, e: int, m: array<Byte>, lo: nat, hi: nat, encInto: array<Byte>)
    returns (l: nat)
    requires ExponentFits(e) && e >= 11
    requires lo <= hi <= m.Length && |Prefix(negative, e)| + (hi - lo) < encInto.Length
    modifies m, encInto
    ensures l <= encInto.Length && encInto[..l] == FormKey(negative, e, old(m[lo..hi]))
  {
    LargeKey(negative, e, m[lo..hi]);
    if negative {
      OnesComplement(m, lo, hi);
      l := EncodeVarExpNumber(NEG_LARGE, false, e, m, lo, hi, encInto);
    } else {
      l := EncodeVarExpNumber(POS_LARGE, true, e, m, lo, hi, encInto);
    }
  }

  lemma MediumKey(negative: bool, e: int, m: seq<Byte>)
    requires 0 <= e <= 10
    ensures FormKey(negative, e, m)
            == [if negative then NEG_MEDIUM - e else POS_MEDIUM + e] + [] + (SignedMantissa(negative, m) + [TERMINATOR])
  {}

  method EncodeMediumNumber(negative: bool, e: int, m: array<Byte>, lo: nat, hi: nat, encInto: array<Byte>)
    returns (l: nat)
    requires 0 <= e <= 10
    requires lo <= hi <= m.Length && |Prefix(negative, e)| + (hi - lo) < encInto.Length
    modifies encInto
    ensures l <= encInto.Length && encInto[..l] == FormKey(negative, e, old(m[lo..hi]))
  {
    l := 1 + (hi - lo);
    ghost var mantissa := m[lo..hi];
    CopyInto(encInto, 1, m[lo..hi]);
    if negative { OnesComplement(encInto, 1, l); }
    ghost var signed := SignedMantissa(negative, mantissa);
    assert encInto[1..l] == signed;
    PutHeader(if negative then NEG_MEDIUM - e else POS_MEDIUM + e, [], encInto, l, signed);
    MediumKey(negative, e, mantissa);
    l := l + 1;
  }

  /** Encodes into the spare capacity when it suffices, which may hold the mantissa itself. */
  method EncodeEandM(appendTo: seq<Byte>, spare: array<Byte>, negative: bool, e: int, m: array<Byte>, lo: nat, hi: nat)
    returns (r: seq<Byte>)
    requires ExponentFits(e) && lo <= hi <= m.Length
    modifies spare, m
    ensures r == appendTo + FormKey(negative, e, old(m[lo..hi]))
  {
    var n := hi - lo + Uvarint.MAX_VARINT_LEN + 2;
    var buf := spare;
    if spare.Length < n { buf := new Byte[n](i => 0); }
    PrefixLength(negative, e);
    var l: nat;
    if e < 0 {
      l := EncodeSmallNumber(negative, e, m, lo, hi, buf);
    } else if e <= 10 {
      l := EncodeMediumNumber(negative, e, m, lo, hi, buf);
    } else {
      l := EncodeLargeNumber(negative, e, m, lo, hi, buf);
    }
    r := appendTo + buf[..l];
  }

  lemma PrefixLength(negative: bool, e: int)
    requires ExponentFits(e)
    ensures |Prefix(negative, e)| <= Uvarint.MAX_VARINT_LEN + 1
  {
    Uvarint.EncLenCorrect(if e < 0 then 0 - e else e);
  }

  /** Encoding appends exactly the key whose order the key theorem is about, whatever room there is. */
  method EncodeDecimal(appendTo: seq<Byte>, spare: array<Byte>, d: Decimal, invert: bool) returns (r: seq<Byte>)
    requires InMemory(d)
    modifies spare
    ensures r == appendTo + Key(d, invert)
  {
    if d.Finite? && d.coeff == 0 {
      return appendTo + [ZERO];
    }
    if d.Infinite? {
      return appendTo + [if d.negative != invert then NEGATIVE_INFINITY else INFINITY];
    }
    if d.NaN? {
      return appendTo + [if invert then NAN_DESC else NAN];
    }
    var e, m, lo, hi := DecimalEandM(d, spare);
    FormFits(d);
    r := EncodeEandM(appendTo, spare, d.negative != invert, e, m, lo, hi);
  }

  method FindDecimalTerminator(buf: seq<Byte>) returns (r: Option<nat>)
    ensures r == IndexByte(buf, TERMINATOR)
  {
    for i := 0 to |buf|
      invariant forall k :: 0 <= k < i ==> buf[k] != TERMINATOR
    {
      if buf[i] == TERMINATOR { return Some(i); }
    }
    return None;
  }

  method MakeDecimalFromMandE(negative: bool, e: int, m: seq<Byte>) returns (r: Result<Decimal, DecodeError>)
    ensures r == MakeDecimal(negative, e, m)
  {
    if |m| == 0 { return Err(EmptyMantissa); }
    var b: seq<nat> := [];
    for i := 0 to |m|
      invariant DigitsInRange(m[..i]) && b == MantissaDigits(m[..i])
    {
      var t := m[i] / 2;
      if t < 0 || t > 99 { return Err(DigitOutOfRange); }
      assert m[..i + 1] == m[..i] + [m[i]];
      MantissaDigitsSnoc(m[..i], m[i]);
      b := b + [t / 10, t % 10];
    }
    assert DigitsInRange(m) && b == MantissaDigits(m) by { assert m[..|m|] == m; }
    ghost var digits := b;
    if b[|b| - 1] == 0 { b := b[..|b| - 1]; }
    assert b == DropTrailingZero(digits);
    return Ok(Finite(negative, FromDigits(b, 10), WrapInt32(2 * e - |b|)));
  }

  lemma {:induction false} MantissaDigitsSnoc(m: seq<Byte>, b: Byte)
    requires DigitsInRange(m) && b / 2 <= 99
    ensures DigitsInRange(m + [b])
    ensures MantissaDigits(m + [b]) == MantissaDigits(m) + [b / 2 / 10, b / 2 % 10]
    decreases |m|
  {
    if m == [] {
      assert [] + [b] == [b] && [b][1..] == [];
    } else {
      MantissaDigitsSnoc(m[1..], b);
      assert (m + [b])[1..] == m[1..] + [b];
    }
  }

  /** The common tail of the three decode functions: find the terminator, copy and complement. */
  method SplitAtTerminator(negative: bool, e: int, r: seq<Byte>) returns (p: Result<Parts, DecodeError>)
    ensures p == SplitMantissa(negative, e, r)
  {
    var idx := FindDecimalTerminator(r);
    if idx.None? { return Err(NoTerminator); }
    var m := r[..idx.value];
    if negative {
      var mCpy := new Byte[|m|](i requires 0 <= i < |m| => m[i]);
      assert mCpy[0..|m|] == m;
      OnesComplement(mCpy, 0, |m|);
      assert mCpy[..] == Complement(m);
      m := mCpy[..];
    }
    return Ok(Parts(e, m, r[idx.value + 1..]));
  }

  method DecodeSmallNumber(negative: bool, buf: seq<Byte>) returns (p: Result<Parts, DecodeError>)
    requires buf != []
    ensures p == DecodeSmall(negative, buf)
  {
    var r: Uvarint.Decoded;
    if negative {
      r := Uvarint.DecodeUvarintAscending(buf[1..]);
    } else {
      r := Uvarint.DecodeUvarintDescending(buf[1..]);
    }
    if r.Err? { return Err(BadVarint); }
    var ex: int := r.value.1;
    p := SplitAtTerminator(negative, -ex, r.value.0);
  }

  method DecodeLargeNumber(negative: bool, buf: seq<Byte>) returns (p: Result<Parts, DecodeError>)
    requires buf != []
    ensures p == DecodeLarge(negative, buf)
  {
    var r: Uvarint.Decoded;
    if negative {
      r := Uvarint.DecodeUvarintDescending(buf[1..]);
    } else {
      r := Uvarint.DecodeUvarintAscending(buf[1..]);
    }
    if r.Err? { return Err(BadVarint); }
    p := SplitAtTerminator(negative, r.value.1, r.value.0);
  }

  method DecodeMediumNumber(negative: bool, buf: seq<Byte>) returns (p: Result<Parts, DecodeError>)
    requires buf != []
    ensures p == DecodeMedium(negative, buf)
  {
    p := SplitAtTerminator(negative, if negative then NEG_MEDIUM - buf[0] else buf[0] - POS_MEDIUM, buf[1..]);
  }

  method DecodeDecimal(buf: seq<Byte>, invert: bool) returns (r: DecimalKeyDecode.Decoded)
    requires buf != []
    ensures r == Decode(buf, invert)
  {
    if buf[0] == NAN || buf[0] == NAN_DESC { return Ok((buf[1..], NaN)); }
    if buf[0] == INFINITY { return Ok((buf[1..], Infinite(invert))); }
    if buf[0] == NEGATIVE_INFINITY { return Ok((buf[1..], Infinite(!invert))); }
    if buf[0] == ZERO { return Ok((buf[1..], Finite(false, 0, 0))); }
    var negative := buf[0] <= NEG_SMALL;
    var p: Result<Parts, DecodeError>;
    if buf[0] == NEG_LARGE || buf[0] == POS_LARGE {
      p := DecodeLargeNumber(negative, buf);
    } else if NEG_LARGE < buf[0] <= NEG_MEDIUM || POS_MEDIUM <= buf[0] < POS_LARGE {
      p := DecodeMediumNumber(negative, buf);
    } else if buf[0] == NEG_SMALL || buf[0] == POS_SMALL {
      p := DecodeSmallNumber(negative, buf);
    } else {
      return Err(UnknownPrefix);
    }
    if p.Err? { return Err(p.error); }
    var d := MakeDecimalFromMandE(negative != invert, p.value.e, p.value.m);
    if d.Err? { return Err(d.error); }
    return Ok((p.value.rest, d.value));
  }
}
