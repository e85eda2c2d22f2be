/** The wire format of an UnresolvedAddr: what a byte string means, and which fields are skipped. */
module AddrFormat {
  import opened Bytes
  import opened Slices
  import opened Machine
  import opened Base128

  /** A Go string or byte slice is no longer than the largest int. */
  type Data = s: seq<Byte> | |s| <= MAX_INT

  datatype Addr = Addr(network: Data, address: Data)

  datatype ProtoError =
    | IntOverflow | UnexpectedEof | InvalidLength | UnexpectedEndOfGroup | IllegalWireType
    | EndGroup | IllegalTag | WrongWireType

  const NETWORK_TAG: Byte := 0xa
  const ADDRESS_TAG: Byte := 0x12

  function Encoded(m: Addr): seq<Byte> {
    [NETWORK_TAG] + PutUvarint(|m.network|) + m.network + [ADDRESS_TAG] + PutUvarint(|m.address|) + m.address
  }

  /** A varint at position i of which k bytes have been read: its exact value and where it ends. */
  function VarintAt(s: seq<Byte>, i: nat, k: nat): (r: Result<(nat, nat), ProtoError>)
    requires i <= |s| && k <= 10
    ensures r.Ok? ==> i < r.value.1 <= |s|
    decreases 10 - k
  {
    if k == 10 then Err(IntOverflow)
    else if i == |s| then Err(UnexpectedEof)
    else if s[i] < 128 then Ok((s[i], i + 1))
    else match VarintAt(s, i + 1, k + 1)
      case Err(e) => Err(e)
      case Ok((v, end)) => Ok((s[i] - 128 + 128 * v, end))
  }

  /** The length that a varint gives, as an int. */
  function LengthAt(s: seq<Byte>, i: nat): (r: Result<(nat, nat), ProtoError>)
    requires i <= |s|
    ensures r.Ok? ==> i < r.value.1 <= |s| && r.value.0 <= MAX_INT
  {
    match VarintAt(s, i, 0)
    case Err(e) => Err(e)
    case Ok((v, end)) => if ToInt64(ToWord(v)) < 0 then Err(InvalidLength) else Ok((ToInt64(ToWord(v)), end))
  }

  /** What follows the tag of an item to be skipped: where it ends and how many groups are open then. */
  function SkipPayload(s: seq<Byte>, j: nat, kind: nat, depth: nat): (r: Result<(nat, nat), ProtoError>)
    requires j <= |s|
    ensures r.Ok? ==> j <= r.value.0
  {
    match kind
    case 0 => (match VarintAt(s, j, 0) case Err(e) => Err(e) case Ok((_, end)) => Ok((end, depth)))
    case 1 => Ok((j + 8, depth))
    case 2 =>
      (match LengthAt(s, j)
       case Err(e) => Err(e)
       case Ok((n, p)) => if p + n > MAX_INT then Err(InvalidLength) else Ok((p + n, depth)))
    case 3 => Ok((j, depth + 1))
    case 4 => if depth == 0 then Err(UnexpectedEndOfGroup) else Ok((j, depth - 1))
    case 5 => Ok((j + 4, depth))
    case _ => Err(IllegalWireType)
  }

  /** One item inside a field to be skipped. */
  function SkipItem(s: seq<Byte>, i: nat, depth: nat): (r: Result<(nat, nat), ProtoError>)
    requires i < |s|
    ensures r.Ok? ==> i < r.value.0
  {
    match VarintAt(s, i, 0)
    case Err(e) => Err(e)
    case Ok((wire, j)) => SkipPayload(s, j, wire % 8, depth)
  }

  /** skipUnresolvedAddr: the end of the field at i, behind all groups it opens. */
  function Skip(s: seq<Byte>, i: nat, depth: nat): (r: Result<nat, ProtoError>)
    ensures r.Ok? ==> i < r.value
    decreases |s| - i
  {
    if i >= |s| then Err(UnexpectedEof)
    else match SkipItem(s, i, depth)
      case Err(e) => Err(e)
      case Ok((j, d)) => if d == 0 then Ok(j) else Skip(s, j, d)
  }

  /** int32(wire >> 3) */
  function FieldNum(wire: nat): int {
    WrapInt32(ToWord(wire) / 8)
  }

  /** The message after reading, and the error that stopped it. */
  datatype Parsed = Parsed(m: Addr, error: Option<ProtoError>)

  /** The bytes that a length at position i announces. */
  function StringAt(s: Data, i: nat): (r: Result<(Data, nat), ProtoError>)
    requires i <= |s|
    ensures r.Ok? ==> i < r.value.1 <= |s|
  {
    match LengthAt(s, i)
    case Err(e) => Err(e)
    case Ok((n, p)) =>
      if p + n > MAX_INT then Err(InvalidLength)
      else if p + n > |s| then Err(UnexpectedEof)
      else Ok((s[p..p + n], p + n))
  }

  /** Where a field to be skipped ends. */
  function SkippedAt(s: Data, i: nat): (r: Result<nat, ProtoError>)
    requires i < |s|
    ensures r.Ok? ==> i < r.value <= |s|
  {
    match Skip(s[i..], 0, 0)
    case Err(e) => Err(e)
    case Ok(n) =>
      if i + n > MAX_INT then Err(InvalidLength)
      else if i + n > |s| then Err(UnexpectedEof)
      else Ok(i + n)
  }

  /** One field: the message with it and where it ends. */
  function FieldAt(s: Data, i: nat, m: Addr): (r: Result<(Addr, nat), ProtoError>)
    requires i < |s|
    ensures r.Ok? ==> i < r.value.1 <= |s|
  {
    match VarintAt(s, i, 0)
    case Err(e) => Err(e)
    case Ok((wire, j)) =>
      var num := FieldNum(wire);
      if wire % 8 == 4 then Err(EndGroup)
      else if num <= 0 then Err(IllegalTag)
      else if num == 1 || num == 2 then
        if wire % 8 != 2 then Err(WrongWireType)
        else match StringAt(s, j)
          case Err(e) => Err(e)
          case Ok((d, end)) => Ok((if num == 1 then m.(network := d) else m.(address := d), end))
      else match SkippedAt(s, i)
        case Err(e) => Err(e)
        case Ok(end) => Ok((m, end))
  }

  /** Unmarshal from position i on; fields read before an error stay. */
  function Parse(s: Data, i: nat, m: Addr): Parsed
    requires i <= |s|
    decreases |s| - i
  {
    if i == |s| then Parsed(m, None)
    else match FieldAt(s, i, m)
      case Err(e) => Parsed(m, Some(e))
      case Ok((m', j)) => Parse(s, j, m')
  }

  // Reading what was written.

  lemma {:induction false} VarintWritten(s: seq<Byte>, i: nat, v: nat, k: nat)
    requires Holds(s, i, PutUvarint(v)) && k + |PutUvarint(v)| <= 10
    ensures VarintAt(s, i, k) == Ok((v, i + |PutUvarint(v)|))
    decreases v
  {
    if v < 128 {
      assert s[i + 0] == [v][0];
    } else {
      HoldsParts(s, i, [128 + v % 128], PutUvarint(v / 128));
      assert s[i + 0] == [128 + v % 128][0];
      VarintWritten(s, i + 1, v / 128, k + 1);
    }
  }

  /** A tag, a length and the bytes. */
  function StringField(tag: nat, d: Data): seq<Byte> {
    PutUvarint(tag) + PutUvarint(|d|) + d
  }

  lemma EncodedFields(m: Addr)
    ensures Encoded(m) == StringField(NETWORK_TAG, m.network) + StringField(ADDRESS_TAG, m.address)
  {}
}
