/** Unmarshalling undoes marshalling, and does not notice fields it does not know. */
module AddrRoundTrip {
  import opened Bytes
  import opened Slices
  import opened Machine
  import opened Base128
  import opened VarintWords
  import opened AddrFormat

  lemma LengthWritten(s: seq<Byte>, i: nat, d: Data)
    requires Holds(s, i, PutUvarint(|d|))
    ensures LengthAt(s, i) == Ok((|d|, i + |PutUvarint(|d|)|))
  {
    ShortVarint(|d|);
    VarintWritten(s, i, |d|, 0);
  }

  lemma HoldsSlice(s: seq<Byte>, i: nat, part: seq<Byte>)
    requires Holds(s, i, part)
    ensures s[i..i + |part|] == part
  {
    forall k | 0 <= k < |part| ensures s[i..i + |part|][k] == part[k] { assert s[i + k] == part[k]; }
  }

  lemma StringWritten(s: Data, i: nat, d: Data, end: nat)
    requires Holds(s, i, PutUvarint(|d|) + d) && end == i + |PutUvarint(|d|)| + |d|
    ensures StringAt(s, i) == Ok((d, end))
  {
    HoldsParts(s, i, PutUvarint(|d|), d);
    LengthWritten(s, i, d);
    StringBehindLength(s, i, end - |d|, d);
  }

  lemma StringBehindLength(s: Data, i: nat, p: nat, d: Data)
    requires i <= |s| && LengthAt(s, i) == Ok((|d|, p)) && Holds(s, p, d)
    ensures StringAt(s, i) == Ok((d, p + |d|))
  {
    HoldsSlice(s, p, d);
  }

  lemma KnownTags()
    ensures FieldNum(NETWORK_TAG) == 1 && NETWORK_TAG % 8 == 2
    ensures FieldNum(ADDRESS_TAG) == 2 && ADDRESS_TAG % 8 == 2
  {}

  lemma KnownField(s: Data, i: nat, tag: Byte, j: nat, d: Data, end: nat, m: Addr)
    requires (tag == NETWORK_TAG || tag == ADDRESS_TAG) && i < |s|
    requires VarintAt(s, i, 0) == Ok((tag, j)) && StringAt(s, j) == Ok((d, end))
    ensures FieldAt(s, i, m) == Ok((if tag == NETWORK_TAG then m.(network := d) else m.(address := d), end))
  {
    KnownTags();
  }

  /** A known field is read back. */
  lemma FieldWritten(s: Data, i: nat, tag: Byte, d: Data, m: Addr, end: nat)
    requires tag == NETWORK_TAG || tag == ADDRESS_TAG
    requires Holds(s, i, StringField(tag, d)) && end == i + |StringField(tag, d)|
    ensures i < |s|
    ensures FieldAt(s, i, m) == Ok((if tag == NETWORK_TAG then m.(network := d) else m.(address := d), end))
  {
    var j := i + |PutUvarint(tag)|;
    assert StringField(tag, d) == PutUvarint(tag) + (PutUvarint(|d|) + d);
    HoldsParts(s, i, PutUvarint(tag), PutUvarint(|d|) + d);
    WordWritten(s, i, tag, j);
    StringWritten(s, j, d, end);
    KnownField(s, i, tag, j, d, end, m);
  }

  lemma ParseStep(s: Data, i: nat, m: Addr, m': Addr, end: nat)
    requires i < |s| && FieldAt(s, i, m) == Ok((m', end))
    ensures Parse(s, i, m) == Parse(s, end, m')
  {}

  lemma ParseField(s: Data, i: nat, tag: Byte, d: Data, m: Addr, end: nat)
    requires tag == NETWORK_TAG || tag == ADDRESS_TAG
    requires Holds(s, i, StringField(tag, d)) && end == i + |StringField(tag, d)|
    ensures Parse(s, i, m) == Parse(s, end, if tag == NETWORK_TAG then m.(network := d) else m.(address := d))
  {
    FieldWritten(s, i, tag, d, m, end);
    ParseStep(s, i, m, if tag == NETWORK_TAG then m.(network := d) else m.(address := d), end);
  }

  lemma ParseAtEnd(s: Data, m: Addr)
    ensures Parse(s, |s|, m) == Parsed(m, None)
  {}

  /** A message at the end of the input is read back, whatever was in the receiver. */
  lemma ParseMessage(s: Data, i: nat, m: Addr, before: Addr)
    requires Holds(s, i, Encoded(m)) && i + |Encoded(m)| == |s|
    ensures Parse(s, i, before) == Parsed(m, None)
  {
    var f, g := StringField(NETWORK_TAG, m.network), StringField(ADDRESS_TAG, m.address);
    EncodedFields(m);
    HoldsParts(s, i, f, g);
    ParseFields(s, i, i + |f|, m, before);
  }

  lemma ParseFields(s: Data, i: nat, j: nat, m: Addr, before: Addr)
    requires Holds(s, i, StringField(NETWORK_TAG, m.network)) && j == i + |StringField(NETWORK_TAG, m.network)|
    requires Holds(s, j, StringField(ADDRESS_TAG, m.address)) && j + |StringField(ADDRESS_TAG, m.address)| == |s|
    ensures Parse(s, i, before) == Parsed(m, None)
  {
    ParseField(s, i, NETWORK_TAG, m.network, before, j);
    ParseField(s, j, ADDRESS_TAG, m.address, before.(network := m.network), |s|);
    ParseAtEnd(s, m);
  }

  /** Reading what Marshal writes gives the message back. */
  lemma ParseEncoded(m: Addr, before: Addr)
    requires |Encoded(m)| <= MAX_INT
    ensures Parse(Encoded(m), 0, before) == Parsed(m, None)
  {
    ParseMessage(Encoded(m), 0, m, before);
  }

  // More input behind what has been read.

  lemma {:induction false} VarintExtends(s: seq<Byte>, t: seq<Byte>, i: nat, k: nat)
    requires i <= |s| && k <= 10 && VarintAt(s, i, k).Ok?
    ensures VarintAt(s + t, i, k) == VarintAt(s, i, k)
    decreases 10 - k
  {
    if s[i] >= 128 { VarintExtends(s, t, i + 1, k + 1); }
  }

  lemma LengthExtends(s: seq<Byte>, t: seq<Byte>, i: nat)
    requires i <= |s| && LengthAt(s, i).Ok?
    ensures LengthAt(s + t, i) == LengthAt(s, i)
  {
    VarintExtends(s, t, i, 0);
  }

  lemma SkipPayloadExtends(s: seq<Byte>, t: seq<Byte>, j: nat, kind: nat, depth: nat)
    requires j <= |s| && SkipPayload(s, j, kind, depth).Ok?
    ensures SkipPayload(s + t, j, kind, depth) == SkipPayload(s, j, kind, depth)
  {
    if kind == 0 {
      VarintExtends(s, t, j, 0);
    } else if kind == 2 {
      LengthExtends(s, t, j);
    }
  }

  lemma SkipItemExtends(s: seq<Byte>, t: seq<Byte>, i: nat, depth: nat)
    requires i < |s| && SkipItem(s, i, depth).Ok?
    ensures SkipItem(s + t, i, depth) == SkipItem(s, i, depth)
  {
    VarintExtends(s, t, i, 0);
    var (wire, j) := VarintAt(s, i, 0).value;
    SkipPayloadExtends(s, t, j, wire % 8, depth);
  }

  lemma {:induction false} SkipExtends(s: seq<Byte>, t: seq<Byte>, i: nat, depth: nat)
    requires Skip(s, i, depth).Ok?
    ensures Skip(s + t, i, depth) == Skip(s, i, depth)
    decreases |s| - i
  {
    SkipItemExtends(s, t, i, depth);
    var (j, d) := SkipItem(s, i, depth).value;
    if d != 0 { SkipExtends(s, t, j, d); }
  }

  lemma StringExtends(s: Data, t: Data, i: nat)
    requires i <= |s| && |s + t| <= MAX_INT && StringAt(s, i).Ok?
    ensures StringAt(s + t, i) == StringAt(s, i)
  {
    LengthExtends(s, t, i);
    var (n, p) := LengthAt(s, i).value;
    assert (s + t)[p..p + n] == s[p..p + n];
  }

  lemma SkippedExtends(s: Data, t: Data, i: nat)
    requires i < |s| && |s + t| <= MAX_INT && SkippedAt(s, i).Ok?
    ensures SkippedAt(s + t, i) == SkippedAt(s, i)
  {
    SkipExtends(s[i..], t, 0, 0);
    assert (s + t)[i..] == s[i..] + t;
  }

  lemma FieldExtends(s: Data, t: Data, i: nat, m: Addr)
    requires i < |s| && |s + t| <= MAX_INT && FieldAt(s, i, m).Ok?
    ensures FieldAt(s + t, i, m) == FieldAt(s, i, m)
  {
    VarintExtends(s, t, i, 0);
    var (wire, j) := VarintAt(s, i, 0).value;
    if FieldNum(wire) == 1 || FieldNum(wire) == 2 {
      StringExtends(s, t, j);
    } else {
      SkippedExtends(s, t, i);
    }
  }

  /** What reads without error reads the same in front of more input. */
  lemma {:induction false} ParseExtends(s: Data, t: Data, i: nat, m: Addr)
    requires i <= |s| && |s + t| <= MAX_INT && Parse(s, i, m).error == None
    ensures Parse(s + t, i, m) == Parse(s + t, |s|, Parse(s, i, m).m)
    decreases |s| - i
  {
    if i < |s| {
      FieldExtends(s, t, i, m);
      var (m', j) := FieldAt(s, i, m).value;
      ParseExtends(s, t, j, m');
    }
  }

  // Fields that are not known.

  datatype Unknown =
    | Varint(num: nat, value: Word)
    | Fixed64(num: nat, bytes: seq<Byte>)
    | Delimited(num: nat, data: Data)
    | Group(num: nat, fields: Unknowns)
    | Fixed32(num: nat, bytes: seq<Byte>)

  datatype Unknowns = Nil | Cons(head: Unknown, tail: Unknowns)

  /** Well formed: a group may contain anything, itself included. */
  predicate WellFormed(u: Unknown)
    decreases u
  {
    u.num < MAX_NUM &&
    match u
    case Fixed64(_, b) => |b| == 8
    case Fixed32(_, b) => |b| == 4
    case Group(_, fields) => AllWellFormed(fields)
    case _ => true
  }

  predicate AllWellFormed(us: Unknowns) {
    us.Nil? || (WellFormed(us.head) && AllWellFormed(us.tail))
  }

  function WireType(u: Unknown): nat {
    match u
    case Varint(_, _) => 0
    case Fixed64(_, _) => 1
    case Delimited(_, _) => 2
    case Group(_, _) => 3
    case Fixed32(_, _) => 5
  }

  function Payload(u: Unknown): seq<Byte>
    decreases u, 0
  {
    match u
    case Varint(_, v) => PutUvarint(v)
    case Fixed64(_, b) => b
    case Delimited(_, d) => PutUvarint(|d|) + d
    case Group(num, fields) => AllWritten(fields) + PutUvarint(8 * num + 4)
    case Fixed32(_, b) => b
  }

  function Written(u: Unknown): seq<Byte>
    decreases u, 1
  {
    PutUvarint(8 * u.num + WireType(u)) + Payload(u)
  }

  function AllWritten(us: Unknowns): seq<Byte>
    decreases us, 0
  {
    match us
    case Nil => []
    case Cons(u, rest) => Written(u) + AllWritten(rest)
  }

  const MAX_NUM := 0x1000_0000_0000_0000

  lemma WordWritten(s: seq<Byte>, i: nat, v: Word, end: nat)
    requires Holds(s, i, PutUvarint(v)) && end == i + |PutUvarint(v)|
    ensures i < |s| && VarintAt(s, i, 0) == Ok((v, end))
  {
    ShortVarint(v);
    VarintWritten(s, i, v, 0);
  }

  // One item, from what its tag and its payload read as.

  /** The tag of an item has been written: skipping goes on behind it. */
  lemma ItemTag(s: Data, i: nat, tag: Word, kind: nat, depth: nat, j: nat)
    requires tag % 8 == kind && Holds(s, i, PutUvarint(tag)) && j == i + |PutUvarint(tag)|
    ensures i < |s| && SkipItem(s, i, depth) == SkipPayload(s, j, kind, depth)
  {
    WordWritten(s, i, tag, j);
  }

  lemma ItemPayload(s: Data, i: nat, tag: Word, kind: nat, payload: seq<Byte>, depth: nat) returns (j: nat)
    requires tag % 8 == kind && Holds(s, i, PutUvarint(tag) + payload)
    ensures i < |s| && j == i + |PutUvarint(tag)| && Holds(s, j, payload)
    ensures SkipItem(s, i, depth) == SkipPayload(s, j, kind, depth)
  {
    j := i + |PutUvarint(tag)|;
    HoldsParts(s, i, PutUvarint(tag), payload);
    ItemTag(s, i, tag, kind, depth, j);
  }

  lemma PayloadVarint(s: Data, j: nat, v: Word, depth: nat)
    requires Holds(s, j, PutUvarint(v))
    ensures SkipPayload(s, j, 0, depth) == Ok((j + |PutUvarint(v)|, depth))
  {
    WordWritten(s, j, v, j + |PutUvarint(v)|);
  }

  lemma PayloadDelimited(s: Data, j: nat, d: Data, depth: nat)
    requires Holds(s, j, PutUvarint(|d|) + d)
    ensures SkipPayload(s, j, 2, depth) == Ok((j + |PutUvarint(|d|) + d|, depth))
  {
    HoldsParts(s, j, PutUvarint(|d|), d);
    LengthWritten(s, j, d);
  }

  lemma ItemGroupTag(s: Data, i: nat, tag: Word, kind: nat, depth: nat, end: nat)
    requires tag % 8 == kind && Holds(s, i, PutUvarint(tag)) && end == i + |PutUvarint(tag)|
    requires kind == 3 || (kind == 4 && depth > 0)
    ensures i < |s| && SkipItem(s, i, depth) == Ok((end, if kind == 3 then depth + 1 else depth - 1))
  {
    ItemTag(s, i, tag, kind, depth, end);
  }

  /** Where skipping goes on after one field: it ends at the outermost level. */
  ghost predicate Passes(s: Data, i: nat, end: nat, depth: nat) {
    Skip(s, i, depth) == if depth == 0 then Ok(end) else Skip(s, end, depth)
  }

  lemma PassesItem(s: Data, i: nat, j: nat, depth: nat)
    requires i < |s| && SkipItem(s, i, depth) == Ok((j, depth))
    ensures Passes(s, i, j, depth)
  {}

  lemma PassesGroup(s: Data, i: nat, body: nat, close: nat, end: nat, depth: nat)
    requires i < |s| && SkipItem(s, i, depth) == Ok((body, depth + 1))
    requires Skip(s, body, depth + 1) == Skip(s, close, depth + 1)
    requires close < |s| && SkipItem(s, close, depth + 1) == Ok((end, depth))
    ensures Passes(s, i, end, depth)
  {}

  function TagOf(u: Unknown): (t: Word)
    requires u.num < MAX_NUM
    ensures t % 8 == WireType(u)
  {
    8 * u.num + WireType(u)
  }

  lemma PayloadSkipped(s: Data, j: nat, u: Unknown, depth: nat)
    requires WellFormed(u) && !u.Group? && Holds(s, j, Payload(u))
    ensures SkipPayload(s, j, WireType(u), depth) == Ok((j + |Payload(u)|, depth))
  {
    match u
    case Varint(_, v) => PayloadVarint(s, j, v, depth);
    case Delimited(_, d) => PayloadDelimited(s, j, d, depth);
    case _ =>
  }

  /** A field that opens no group, as one item. */
  lemma FlatItem(s: Data, i: nat, u: Unknown, depth: nat, end: nat)
    requires WellFormed(u) && !u.Group? && Holds(s, i, Written(u)) && end == i + |Written(u)|
    ensures i < |s| && SkipItem(s, i, depth) == Ok((end, depth))
  {
    var j := ItemPayload(s, i, TagOf(u), WireType(u), Payload(u), depth);
    PayloadSkipped(s, j, u, depth);
  }

  /** The parts of a group: the start tag, the fields from body to close, the end tag. */
  lemma GroupParts(s: Data, i: nat, u: Unknown, end: nat) returns (open: Word, shut: Word, body: nat, close: nat)
    requires WellFormed(u) && u.Group? && Holds(s, i, Written(u)) && end == i + |Written(u)|
    ensures open % 8 == 3 && body == i + |PutUvarint(open)| && Holds(s, i, PutUvarint(open))
    ensures close == body + |AllWritten(u.fields)| && Holds(s, body, AllWritten(u.fields))
    ensures shut % 8 == 4 && end == close + |PutUvarint(shut)| && Holds(s, close, PutUvarint(shut))
  {
    open, shut := TagOf(u), TagOf(u) + 1;
    var first, fields, last := PutUvarint(open), AllWritten(u.fields), PutUvarint(shut);
    assert Written(u) == first + (fields + last);
    body, close := i + |first|, i + |first| + |fields|;
    HoldsParts(s, i, first, fields + last);
    HoldsParts(s, body, fields, last);
  }

  /** The tags of a group open and close it. */
  lemma GroupItems(s: Data, i: nat, u: Unknown, depth: nat, end: nat) returns (body: nat, close: nat)
    requires WellFormed(u) && u.Group? && Holds(s, i, Written(u)) && end == i + |Written(u)|
    ensures i < |s| && SkipItem(s, i, depth) == Ok((body, depth + 1))
    ensures close == body + |AllWritten(u.fields)| && Holds(s, body, AllWritten(u.fields))
    ensures close < |s| && SkipItem(s, close, depth + 1) == Ok((end, depth))
  {
    var open, shut;
    open, shut, body, close := GroupParts(s, i, u, end);
    ItemGroupTag(s, i, open, 3, depth, body);
    ItemGroupTag(s, close, shut, 4, depth + 1, end);
  }

  /** Skipping a well-formed field, nested groups included, ends exactly behind it. */
  lemma {:induction false} SkipUnknown(s: Data, i: nat, u: Unknown, depth: nat, end: nat)
    requires WellFormed(u) && Holds(s, i, Written(u)) && end == i + |Written(u)|
    ensures i < |s| && Passes(s, i, end, depth)
    decreases u, 1
  {
    if u.Group? {
      SkipGroup(s, i, u, depth, end);
    } else {
      FlatItem(s, i, u, depth, end);
      PassesItem(s, i, end, depth);
    }
  }

  lemma {:induction false} SkipGroup(s: Data, i: nat, u: Unknown, depth: nat, end: nat)
    requires WellFormed(u) && u.Group? && Holds(s, i, Written(u)) && end == i + |Written(u)|
    ensures i < |s| && Passes(s, i, end, depth)
    decreases u, 0
  {
    var body, close := GroupItems(s, i, u, depth, end);
    SkipUnknowns(s, body, u.fields, depth + 1, close);
    PassesGroup(s, i, body, close, end, depth);
  }

  lemma {:induction false} SkipUnknowns(s: Data, i: nat, us: Unknowns, depth: nat, end: nat)
    requires AllWellFormed(us) && depth > 0 && Holds(s, i, AllWritten(us)) && end == i + |AllWritten(us)|
    ensures Skip(s, i, depth) == Skip(s, end, depth)
    decreases us, 2
  {
    if us.Nil? {
      assert end == i;
    } else {
      var head := Written(us.head);
      HoldsParts(s, i, head, AllWritten(us.tail));
      var j := i + |head|;
      SkipUnknown(s, i, us.head, depth, j);
      SkipUnknowns(s, j, us.tail, depth, end);
    }
  }

  /** The fields a message may carry beside its own two. */
  predicate Foreign(us: Unknowns) {
    us.Nil? || (WellFormed(us.head) && 3 <= us.head.num < 0x2000_0000 && Foreign(us.tail))
  }

  lemma NumOfTag(u: Unknown)
    requires u.num < 0x2000_0000
    ensures FieldNum(TagOf(u)) == u.num
  {}

  lemma ForeignTag(s: Data, i: nat, u: Unknown) returns (tag: Word, j: nat)
    requires 3 <= u.num < 0x2000_0000 && Holds(s, i, Written(u))
    ensures i < |s| && VarintAt(s, i, 0) == Ok((tag, j)) && tag % 8 != 4 && FieldNum(tag) >= 3
  {
    tag := TagOf(u);
    j := i + |PutUvarint(tag)|;
    assert Holds(s, i, PutUvarint(tag)) by { HoldsParts(s, i, PutUvarint(tag), Payload(u)); }
    WordWritten(s, i, tag, j);
    NumOfTag(u);
  }

  lemma SkipFromHere(s: Data, i: nat, u: Unknown, end: nat)
    requires WellFormed(u) && i < |s| && Holds(s, i, Written(u)) && end == i + |Written(u)|
    ensures SkippedAt(s, i) == Ok(end)
  {
    var t := s[i..];
    assert Holds(t, 0, Written(u)) by {
      forall k | 0 <= k < |Written(u)| ensures t[0 + k] == Written(u)[k] { assert s[i + k] == Written(u)[k]; }
    }
    SkipUnknown(t, 0, u, 0, |Written(u)|);
  }

  lemma OtherField(s: Data, i: nat, tag: Word, j: nat, end: nat, m: Addr)
    requires i < |s| && VarintAt(s, i, 0) == Ok((tag, j)) && tag % 8 != 4 && FieldNum(tag) >= 3
    requires SkippedAt(s, i) == Ok(end)
    ensures FieldAt(s, i, m) == Ok((m, end))
  {}

  lemma ForeignField(s: Data, i: nat, u: Unknown, m: Addr, end: nat)
    requires WellFormed(u) && 3 <= u.num < 0x2000_0000 && Holds(s, i, Written(u)) && end == i + |Written(u)|
    ensures i < |s| && FieldAt(s, i, m) == Ok((m, end))
  {
    var tag, j := ForeignTag(s, i, u);
    SkipFromHere(s, i, u, end);
    OtherField(s, i, tag, j, end, m);
  }

  lemma ParseOver(s: Data, i: nat, u: Unknown, m: Addr, end: nat)
    requires WellFormed(u) && 3 <= u.num < 0x2000_0000 && Holds(s, i, Written(u)) && end == i + |Written(u)|
    ensures Parse(s, i, m) == Parse(s, end, m)
  {
    ForeignField(s, i, u, m, end);
    ParseStep(s, i, m, m, end);
  }

  lemma {:induction false} ParseForeign(s: Data, i: nat, us: Unknowns, m: Addr)
    requires Foreign(us) && Holds(s, i, AllWritten(us)) && i + |AllWritten(us)| == |s|
    ensures Parse(s, i, m) == Parsed(m, None)
    decreases us
  {
    if us.Nil? {
      ParseAtEnd(s, m);
    } else {
      var j := ParseHead(s, i, us, m);
      ParseForeign(s, j, us.tail, m);
    }
  }

  lemma ParseHead(s: Data, i: nat, us: Unknowns, m: Addr) returns (j: nat)
    requires us.Cons? && Foreign(us) && Holds(s, i, AllWritten(us)) && i + |AllWritten(us)| == |s|
    ensures Holds(s, j, AllWritten(us.tail)) && j + |AllWritten(us.tail)| == |s| && Parse(s, i, m) == Parse(s, j, m)
  {
    var head := Written(us.head);
    j := i + |head|;
    HoldsParts(s, i, head, AllWritten(us.tail));
    ParseOver(s, i, us.head, m, j);
  }

  /** Unknown fields behind any message that reads without error leave the result unchanged. */
  lemma ForeignFieldsIgnored(s: Data, us: Unknowns, m: Addr)
    requires Foreign(us) && |s + AllWritten(us)| <= MAX_INT && Parse(s, 0, m).error == None
    ensures Parse(s + AllWritten(us), 0, m) == Parse(s, 0, m)
  {
    var t := AllWritten(us);
    ParseExtends(s, t, 0, m);
    assert Holds(s + t, |s|, t);
    ParseForeign(s + t, |s|, us, Parse(s, 0, m).m);
  }

  /** Concatenated messages are read as one after the other: fields of the second replace the first's. */
  lemma ConcatenationMerges(a: Addr, b: Addr, before: Addr)
    requires |Encoded(a) + Encoded(b)| <= MAX_INT
    ensures Parse(Encoded(a) + Encoded(b), 0, before) == Parsed(b, None)
  {
    var s, t := Encoded(a), Encoded(b);
    ParseEncoded(a, before);
    ParseExtends(s, t, 0, before);
    assert Holds(s + t, |s|, t);
    ParseMessage(s + t, |s|, b, a);
  }
}
