/** The generated code of unresolved_addr.pb.go: a writer that runs backward and a reader. */
module UnresolvedAddrs {
  import opened Buffers
  import opened Bytes
  import opened Digits
  import opened Machine
  import opened Words
  import opened Base128
  import opened VarintWords
  import opened AddrFormat
  import opened Slices

  class UnresolvedAddr {
    var networkField: Data
    var addressField: Data

    constructor ()
      ensures networkField == [] && addressField == []
    {
      networkField, addressField := [], [];
    }

    ghost function Message(): Addr
      reads this
    {
      Addr(networkField, addressField)
    }

    function Size(): (n: nat)
      reads this
      ensures n == |Encoded(Message())|
    {
      SovCounts(|networkField|);
      SovCounts(|addressField|);
      1 + |networkField| + Sov(|networkField|) + 1 + |addressField| + Sov(|addressField|)
    }

    method Marshal() returns (dAtA: array<Byte>)
      requires Size() <= MAX_INT
      ensures fresh(dAtA) && dAtA[..] == Encoded(Message())
    {
      dAtA := new Byte[Size()](_ => 0);
      var n := MarshalToSizedBuffer(dAtA);
    }

    /** Fills the end of the buffer, from the last byte to the first, and returns how much it took. */
    method MarshalToSizedBuffer(dAtA: array<Byte>) returns (n: nat)
      requires Size() <= dAtA.Length
      modifies dAtA
      ensures n == Size()
      ensures dAtA[dAtA.Length - n..] == Encoded(Message())
      ensures dAtA[..dAtA.Length - n] == old(dAtA[..dAtA.Length - n])
    {
      ghost var before := dAtA[..];
      EncodedFields(Message());
      var i := WriteField(dAtA, dAtA.Length, ADDRESS_TAG, addressField, before, []);
      assert StringField(ADDRESS_TAG, addressField) + [] == StringField(ADDRESS_TAG, addressField);
      i := WriteField(dAtA, i, NETWORK_TAG, networkField, before, StringField(ADDRESS_TAG, addressField));
      WrittenSplit(dAtA[..], before, i, Encoded(Message()));
      n := dAtA.Length - i;
    }

    /** Reads the fields in the input into the receiver. */
    method Unmarshal(dAtA: Data) returns (error: Option<ProtoError>)
      modifies this
      ensures Parsed(Message(), error) == Parse(dAtA, 0, old(Message()))
    {
      var l := |dAtA|;
      var iNdEx: nat := 0;
      while iNdEx < l
        invariant iNdEx <= l
        invariant Parse(dAtA, iNdEx, Message()) == Parse(dAtA, 0, old(Message()))
      {
        var next, e := UnmarshalField(dAtA, iNdEx);
        if e.Some? { return e; }
        iNdEx := next;
      }
      error := None;
    }

    /** One round of the loop: a field of the message, or one to be skipped. */
    method UnmarshalField(dAtA: Data, preIndex: nat) returns (iNdEx: nat, error: Option<ProtoError>)
      requires preIndex < |dAtA|
      modifies this
      ensures match FieldAt(dAtA, preIndex, old(Message()))
              case Err(e) => error == Some(e) && Message() == old(Message())
              case Ok((m, end)) => error == None && Message() == m && iNdEx == end
    {
      var wire;
      wire, iNdEx, error := ReadVarint(dAtA, preIndex);
      if error.Some? { return; }
      var fieldNum := WrapInt32(Shr(wire, 3));
      var wireType := And(wire, 7);
      WireParts(dAtA, preIndex, wire);
      if wireType == 4 { return iNdEx, Some(EndGroup); }
      if fieldNum <= 0 { return iNdEx, Some(IllegalTag); }
      if fieldNum == 1 || fieldNum == 2 {
        if wireType != 2 { return iNdEx, Some(WrongWireType); }
        var data;
        data, iNdEx, error := ReadString(dAtA, iNdEx);
        if error.Some? { return; }
        if fieldNum == 1 { networkField := data; } else { addressField := data; }
      } else {
        iNdEx := preIndex;
        var skippy;
        skippy, error := SkipField(dAtA[iNdEx..]);
        if error.Some? { return; }
        if iNdEx + skippy > MAX_INT { return iNdEx, Some(InvalidLength); }
        if iNdEx + skippy > |dAtA| { return iNdEx, Some(UnexpectedEof); }
        iNdEx := iNdEx + skippy;
      }
    }
  }

  // Writing backward.

  /** Everything from position i on has been written and is what it should be; nothing before it is. */
  ghost predicate WrittenFrom(s: seq<Byte>, before: seq<Byte>, i: nat, part: seq<Byte>) {
    && |s| == |before| && i + |part| == |s|
    && (forall k :: 0 <= k < |part| ==> s[i + k] == part[k])
    && forall k :: 0 <= k < i ==> s[k] == before[k]
  }

  lemma WrittenSplit(s: seq<Byte>, before: seq<Byte>, i: nat, part: seq<Byte>)
    requires WrittenFrom(s, before, i, part)
    ensures s[i..] == part && s[..i] == before[..i]
  {
    forall k | 0 <= k < |part| ensures s[i..][k] == part[k] { assert s[i + k] == part[k]; }
  }

  /** Putting d right before what has been written. */
  lemma Prepended(s: seq<Byte>, t: seq<Byte>, before: seq<Byte>, i: nat, d: seq<Byte>, part: seq<Byte>)
    requires WrittenFrom(s, before, i + |d|, part) && i + |d| <= |t| && Copied(t, s, i, d, |d|)
    ensures WrittenFrom(t, before, i, d + part)
  {
    forall k | 0 <= k < |d + part| ensures t[i + k] == (d + part)[k] {
      if k >= |d| { assert s[i + |d| + (k - |d|)] == part[k - |d|]; }
    }
  }

  method VarintBase(offset: nat, value: Word) returns (base: nat)
    requires |PutUvarint(value)| <= offset
    ensures base + |PutUvarint(value)| == offset
  {
    SovCounts(value);
    base := offset - Sov(value);
  }

  /** The bytes of a varint, in front of offset; the base is where they start. */
  method EncodeVarint(dAtA: array<Byte>, offset: nat, value: Word) returns (base: nat)
    requires |PutUvarint(value)| <= offset <= dAtA.Length
    modifies dAtA
    ensures base == offset - |PutUvarint(value)|
    ensures Copied(dAtA[..], old(dAtA[..]), base, PutUvarint(value), |PutUvarint(value)|)
  {
    base := VarintBase(offset, value);
    var o, v := base, value;
    ghost var before, whole := dAtA[..], PutUvarint(value);
    while v >= 128
      invariant base <= o <= offset && base + |whole| == offset && Remaining(whole, o - base, v)
      invariant Copied(dAtA[..], before, base, whole, o - base)
      decreases v
    {
      ByteWritten(dAtA[..], before, base, whole, o - base, v);
      dAtA[o] := Or(And(v, 0x7f), 0x80);
      v := Shr(v, 7);
      o := o + 1;
    }
    LastByte(whole, o - base, v);
    CopiedNext(dAtA[..], before, base, whole, o - base);
    dAtA[o] := v;
  }

  /** The bytes from position i on are those of v. */
  ghost predicate Remaining(whole: seq<Byte>, i: nat, v: nat) {
    i <= |whole| && whole[i..] == PutUvarint(v)
  }

  lemma LastByte(whole: seq<Byte>, i: nat, v: nat)
    requires Remaining(whole, i, v) && v < 128
    ensures i + 1 == |whole| && whole[i] == v
  {
    assert whole[i..][0] == whole[i];
  }

  lemma NextByte(whole: seq<Byte>, i: nat, v: Word)
    requires Remaining(whole, i, v) && v >= 128
    ensures i < |whole| && whole[i] == Or(And(v, 0x7f), 0x80) < 256
    ensures Shr(v, 7) < v && Remaining(whole, i + 1, Shr(v, 7))
  {
    ContinuationByte(v);
    ShiftSeven(v);
    assert whole[i..][0] == whole[i];
    assert whole[i + 1..] == whole[i..][1..];
  }

  lemma ByteWritten(s: seq<Byte>, before: seq<Byte>, base: nat, whole: seq<Byte>, i: nat, v: Word)
    requires Remaining(whole, i, v) && v >= 128
    requires base + |whole| <= |s| && Copied(s, before, base, whole, i)
    ensures i < |whole| && Or(And(v, 0x7f), 0x80) < 256
    ensures Copied(s[base + i := Or(And(v, 0x7f), 0x80)], before, base, whole, i + 1)
    ensures Shr(v, 7) < v && Remaining(whole, i + 1, Shr(v, 7))
  {
    NextByte(whole, i, v);
    CopiedNext(s, before, base, whole, i);
  }

  /** A tag, a length and the bytes, written from the last to the first. */
  method WriteField(dAtA: array<Byte>, end: nat, tag: Byte, d: Data, ghost before: seq<Byte>, ghost part: seq<Byte>)
    returns (i: nat)
    requires tag < 128 && |StringField(tag, d)| <= end <= dAtA.Length && WrittenFrom(dAtA[..], before, end, part)
    modifies dAtA
    ensures i + |StringField(tag, d)| == end && WrittenFrom(dAtA[..], before, i, StringField(tag, d) + part)
  {
    ghost var s0 := dAtA[..];
    i := end - |d|;
    CopyInto(dAtA, i, d);
    ghost var s1 := dAtA[..];
    Prepended(s0, s1, before, i, d, part);
    i := EncodeVarint(dAtA, i, |d|);
    ghost var s2 := dAtA[..];
    Prepended(s1, s2, before, i, PutUvarint(|d|), d + part);
    i := i - 1;
    dAtA[i] := tag;
    TagPrepended(s2, dAtA[..], before, i, tag, d, part);
  }

  /** The tag completes the field. */
  lemma TagPrepended(s: seq<Byte>, t: seq<Byte>, before: seq<Byte>, i: nat, tag: Byte, d: Data, part: seq<Byte>)
    requires tag < 128 && WrittenFrom(s, before, i + 1, PutUvarint(|d|) + (d + part))
    requires i < |s| && t == s[i := tag]
    ensures WrittenFrom(t, before, i, StringField(tag, d) + part)
  {
    OneByte(s, t, i, tag);
    Prepended(s, t, before, i, [tag], PutUvarint(|d|) + (d + part));
    FieldParts(tag, d, part);
  }

  lemma OneByte(s: seq<Byte>, t: seq<Byte>, i: nat, b: Byte)
    requires i < |s| && t == s[i := b]
    ensures Copied(t, s, i, [b], |[b]|)
  {}

  lemma FieldParts(tag: Byte, d: Data, part: seq<Byte>)
    requires tag < 128
    ensures [tag] + (PutUvarint(|d|) + (d + part)) == StringField(tag, d) + part
  {
    assert PutUvarint(tag) == [tag];
    Associate([tag], PutUvarint(|d|), d + part);
    Associate([tag] + PutUvarint(|d|), d, part);
  }

  // Reading.

  /** What has been read so far and what is still to come, p times as much, make up the number. */
  ghost predicate Reading(s: seq<Byte>, start: nat, i: nat, k: nat, exact: nat, p: nat)
    requires start <= i <= |s| && k <= 10
  {
    match VarintAt(s, i, k)
    case Err(e) => VarintAt(s, start, 0) == Err(e)
    case Ok((v, end)) => VarintAt(s, start, 0) == Ok((exact + v * p, end))
  }

  /** The loop that every number in the input is read with: at most ten bytes, low groups first. */
  method ReadVarint(dAtA: seq<Byte>, start: nat) returns (wire: Word, end: nat, error: Option<ProtoError>)
    requires start <= |dAtA|
    ensures match VarintAt(dAtA, start, 0)
            case Err(e) => error == Some(e)
            case Ok((v, p)) => error == None && wire == ToWord(v) && end == p
  {
    wire, end, error := 0, start, None;
    var shift: nat := 0;
    ghost var k: nat, exact: nat, p: nat := 0, 0, 1;
    while true
      invariant start <= end <= |dAtA| && k <= 10 && shift == 7 * k
      invariant Reading(dAtA, start, end, k, exact, p)
      invariant exact < p == Pow(2, shift) && (shift < 64 ==> wire == exact)
      decreases 10 - k
    {
      if shift >= 64 { return wire, end, Some(IntOverflow); }
      if end >= |dAtA| { return wire, end, Some(UnexpectedEof); }
      var b := dAtA[end];
      exact, p := ReadByte(dAtA, start, end, k, exact, shift, p);
      end := end + 1;
      wire := Or(wire, Shl(And(b, 0x7f), shift));
      if b < 0x80 { return; }
      shift := shift + 7;
      k := k + 1;
    }
  }

  lemma ReadByte(s: seq<Byte>, start: nat, i: nat, k: nat, exact: nat, shift: nat, p: nat) returns (sum: nat, p': nat)
    requires start <= i < |s| && k < 10 && Reading(s, start, i, k, exact, p) && shift < 64 && exact < p == Pow(2, shift)
    ensures if s[i] < 128 then VarintAt(s, start, 0) == Ok((sum, i + 1)) else Reading(s, start, i + 1, k + 1, sum, p')
    ensures exact < TWO64 && Or(exact, Shl(And(s[i], 0x7f), shift)) == ToWord(sum)
    ensures sum < p' == Pow(2, shift + 7) && (shift + 7 < 64 ==> ToWord(sum) == sum)
  {
    sum, p' := Accumulated(exact, s[i], shift, p);
    ReadOn(s, start, i, k, exact, p, sum, p');
  }

  lemma BelowWord(n: nat)
    requires n < 64
    ensures Pow(2, n) < TWO64
  {
    TwoTo64();
    PowStrict(2, n, 64);
  }

  lemma ReadOn(s: seq<Byte>, start: nat, i: nat, k: nat, exact: nat, p: nat, sum: nat, p': nat)
    requires start <= i < |s| && k < 10 && Reading(s, start, i, k, exact, p)
    requires sum == exact + s[i] % 128 * p && p' == 128 * p
    ensures if s[i] < 128 then VarintAt(s, start, 0) == Ok((sum, i + 1)) else Reading(s, start, i + 1, k + 1, sum, p')
  {
    var b := s[i] % 128;
    if s[i] < 128 {
      assert VarintAt(s, i, k) == Ok((b, i + 1));
    } else {
      assert s[i] == b + 128;
      ReadMore(s, start, i, k, exact, b, p, sum, p');
    }
  }

  lemma ReadMore(s: seq<Byte>, start: nat, i: nat, k: nat, exact: nat, b: nat, p: nat, sum: nat, p': nat)
    requires start <= i < |s| && k < 10 && Reading(s, start, i, k, exact, p) && s[i] == b + 128
    requires sum == exact + b * p && p' == 128 * p
    ensures Reading(s, start, i + 1, k + 1, sum, p')
  {
    if VarintAt(s, i + 1, k + 1).Ok? {
      Regroup(exact, b, VarintAt(s, i + 1, k + 1).value.0, p);
    }
  }

  lemma Accumulated(exact: nat, b: Byte, shift: nat, p: nat) returns (sum: nat, p': nat)
    requires shift < 64 && exact < p == Pow(2, shift)
    ensures exact < TWO64 && sum == exact + b % 128 * p && p' == 128 * p == Pow(2, shift + 7)
    ensures Or(exact, Shl(And(b, 0x7f), shift)) == ToWord(sum)
    ensures sum < p' && (shift + 7 < 64 ==> ToWord(sum) == sum)
  {
    sum, p' := exact + b % 128 * p, 128 * p;
    BelowWord(shift);
    assert sum < p' by { GroupFits(exact, b % 128, p); }
    assert p' == Pow(2, shift + 7) by { Pow128(shift + 7); }
    if shift + 7 < 64 {
      BelowWord(shift + 7);
    }
    AccumulateBits(exact, b, shift);
  }

  lemma GroupFits(x: nat, b: nat, p: nat)
    requires x < p && b < 128
    ensures x + b * p < 128 * p
  {
    MulMonotone(b, 127, p);
  }

  lemma Regroup(x: nat, b: nat, v: nat, p: nat)
    ensures x + (b + 128 * v) * p == x + b * p + v * (128 * p)
  {}

  lemma WireParts(s: seq<Byte>, i: nat, wire: Word)
    requires i <= |s| && VarintAt(s, i, 0).Ok? && wire == ToWord(VarintAt(s, i, 0).value.0)
    ensures WrapInt32(Shr(wire, 3)) == FieldNum(VarintAt(s, i, 0).value.0)
    ensures And(wire, 7) == VarintAt(s, i, 0).value.0 % 8
  {
    ShiftThree(wire);
    LowThree(wire);
    ModEight(VarintAt(s, i, 0).value.0);
  }

  lemma ModEight(v: nat)
    ensures ToWord(v) % 8 == v % 8
  {}

  lemma ShiftThree(v: Word)
    ensures Shr(v, 3) == v / 8
  {
    ShrDivides(v, 3);
    assert Pow(2, 3) == 8;
  }

  lemma LowThree(v: Word)
    ensures And(v, 7) == v % 8
  {
    LowMask(3);
    assert Pow(2, 3) == 8;
    AndLowMask(v, 3);
    LowBitsSuffix(v, 64, 3);
    LowBitsValue(v, 3);
  }

  method ReadString(dAtA: Data, start: nat) returns (data: Data, end: nat, error: Option<ProtoError>)
    requires start <= |dAtA|
    ensures match StringAt(dAtA, start)
            case Err(e) => error == Some(e)
            case Ok((d, p)) => error == None && data == d && end == p
  {
    data, end := [], start;
    var stringLen, iNdEx, err := ReadVarint(dAtA, start);
    if err.Some? { return data, end, err; }
    var intStringLen: int := ToInt64(stringLen);
    if intStringLen < 0 { return data, end, Some(InvalidLength); }
    // The sum of the two may leave the range of an int.
    if iNdEx + intStringLen > MAX_INT { return data, end, Some(InvalidLength); }
    var postIndex := iNdEx + intStringLen;
    if postIndex > |dAtA| { return data, end, Some(UnexpectedEof); }
    return dAtA[iNdEx..postIndex], postIndex, None;
  }

  /** skipUnresolvedAddr */
  method SkipField(dAtA: seq<Byte>) returns (n: nat, error: Option<ProtoError>)
    ensures match Skip(dAtA, 0, 0)
            case Err(e) => error == Some(e)
            case Ok(end) => error == None && n == end
  {
    n := 0;
    var l := |dAtA|;
    var iNdEx: nat, depth: nat := 0, 0;
    while iNdEx < l
      invariant Skip(dAtA, iNdEx, depth) == Skip(dAtA, 0, 0)
      decreases l - iNdEx
    {
      var d, next, err := SkipOne(dAtA, iNdEx, depth);
      if err.Some? { return 0, err; }
      depth, iNdEx := d, next;
      if depth == 0 { return iNdEx, None; }
    }
    return 0, Some(UnexpectedEof);
  }

  /** One round of the loop: the switch over the wire type. */
  method SkipOne(dAtA: seq<Byte>, start: nat, depth: nat) returns (d: nat, iNdEx: nat, error: Option<ProtoError>)
    requires start < |dAtA|
    ensures match SkipItem(dAtA, start, depth)
            case Err(e) => error == Some(e)
            case Ok((p, d')) => error == None && iNdEx == p && d == d'
  {
    d := depth;
    var wire, next, err := ReadVarint(dAtA, start);
    iNdEx := next;
    if err.Some? { return d, iNdEx, err; }
    WireParts(dAtA, start, wire);
    var wireType := And(wire, 7);
    error := None;
    if wireType == 0 {
      var ignored;
      ignored, iNdEx, error := ReadVarint(dAtA, iNdEx);
    } else if wireType == 1 {
      iNdEx := iNdEx + 8;
    } else if wireType == 2 {
      var length, p, e := ReadVarint(dAtA, iNdEx);
      if e.Some? { return d, iNdEx, e; }
      if ToInt64(length) < 0 { return d, iNdEx, Some(InvalidLength); }
      if p + ToInt64(length) > MAX_INT { return d, iNdEx, Some(InvalidLength); }
      iNdEx := p + ToInt64(length);
    } else if wireType == 3 {
      d := depth + 1;
    } else if wireType == 4 {
      if depth == 0 { return d, iNdEx, Some(UnexpectedEndOfGroup); }
      d := depth - 1;
    } else if wireType == 5 {
      iNdEx := iNdEx + 4;
    } else {
      error := Some(IllegalWireType);
    }
  }
}
