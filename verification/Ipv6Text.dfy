/** IPv6 text: what parseIPv6 accepts, and the grammar of RFC 4291 section 2.2 behind it. */
module Ipv6Text {
  import opened Bytes
  import opened IpText

  /** The state of the loop: the bytes so far and where an ellipsis stood, or -1. */
  datatype Groups = Groups(bytes: seq<Byte>, ellipsis: int)

  function GroupBytes(n: nat): (b: seq<Byte>)
    requires n <= 0xFFFF
    ensures |b| == 2
  {
    seq(2, k => if k == 0 then n / 256 else n % 256)
  }

  function ZeroBytes(n: nat): (b: seq<Byte>)
    ensures |b| == n && forall i :: 0 <= i < n ==> b[i] == 0
  {
    seq(n, _ => 0)
  }

  /** One round of the loop and those after it; None where the source gives up. */
  function ParseGroups(s: string, g: Groups): (r: Option<Groups>)
    decreases |s|
  {
    var i := |g.bytes|;
    if i >= 16 then if s == [] then Some(g) else None
    else match Scanned(s, 16)
      case None => None
      case Some((n, c)) =>
        if n > 0xFFFF then None
        else if c < |s| && s[c] == '.' then
          if (g.ellipsis < 0 && i != 12) || i + 4 > 16 then None
          else match Octets(s, 0)
            case None => None
            case Some(ip4) => Some(g.(bytes := g.bytes + ip4))
        else AfterGroup(s[c..], Groups(g.bytes + GroupBytes(n), g.ellipsis))
  }

  /** What follows a group: the end, a colon and more, or an ellipsis. */
  function AfterGroup(s: string, g: Groups): Option<Groups>
    decreases |s|
  {
    if s == [] then Some(g)
    else if s[0] != ':' || |s| == 1 then None
    else if s[1] != ':' then ParseGroups(s[1..], g)
    else if g.ellipsis >= 0 then None
    else if |s| == 2 then Some(g.(ellipsis := |g.bytes|))
    else ParseGroups(s[2..], g.(ellipsis := |g.bytes|))
  }

  /** The ellipsis filled with zeros; it must stand for at least one group. */
  function Expanded(g: Groups): Option<seq<Byte>> {
    var n := 16 - |g.bytes|;
    if n > 0 then
      if g.ellipsis < 0 || g.ellipsis > |g.bytes| then None
      else Some(g.bytes[..g.ellipsis] + ZeroBytes(n) + g.bytes[g.ellipsis..])
    else if g.ellipsis >= 0 then None
    else Some(g.bytes)
  }

  /** What the loop leaves, expanded unless it gave up. */
  function Finished(g: Option<Groups>): Option<seq<Byte>> {
    match g
    case None => None
    case Some(g) => Expanded(g)
  }

  function ParsedIpv6(s: string): Option<seq<Byte>> {
    if |s| >= 2 && s[0] == ':' && s[1] == ':' then
      if |s| == 2 then Some(ZeroBytes(16)) else Finished(ParseGroups(s[2..], Groups([], 0)))
    else Finished(ParseGroups(s, Groups([], -1)))
  }

  // The grammar.

  /** Groups on both sides of an optional ellipsis, the last of them possibly dotted. */
  datatype Address = Address(left: seq<string>, ellipsis: bool, right: seq<string>, tail: Option<seq<string>>)

  predicate AllGroups(gs: seq<string>) {
    forall k :: 0 <= k < |gs| ==> IsNumber(gs[k], 16, 0xFFFF)
  }

  predicate IsTail(tail: Option<seq<string>>) {
    tail.Some? ==> |tail.value| == 4 && AllOctets(tail.value)
  }

  /** Groups separated by colons, and the dotted tail. */
  function Row(gs: seq<string>, tail: Option<seq<string>>): string {
    if gs == [] then if tail.Some? then Dotted(tail.value, 0) else ""
    else if |gs| == 1 && tail.None? then gs[0]
    else gs[0] + ":" + Row(gs[1..], tail)
  }

  function RowBytes(gs: seq<string>, tail: Option<seq<string>>): (b: seq<Byte>)
    requires AllGroups(gs) && IsTail(tail)
    ensures |b| == 2 * |gs| + if tail.Some? then 4 else 0
  {
    if gs == [] then if tail.Some? then OctetBytes(tail.value) else []
    else GroupBytes(NumberOf(gs[0], 16)) + RowBytes(gs[1..], tail)
  }

  function Text(a: Address): string {
    if a.ellipsis then Row(a.left, None) + "::" + Row(a.right, a.tail) else Row(a.left, a.tail)
  }

  /** Eight groups, a dotted tail counting for two; an ellipsis stands for at least one. */
  predicate WellFormed(a: Address) {
    && AllGroups(a.left) && AllGroups(a.right) && IsTail(a.tail)
    && var n := |a.left| + |a.right| + if a.tail.Some? then 2 else 0;
       if a.ellipsis then n <= 7 else a.right == [] && n == 8
  }

  function AddressBytes(a: Address): (b: seq<Byte>)
    requires WellFormed(a)
    ensures |b| == 16
  {
    if a.ellipsis then
      var l, r := RowBytes(a.left, None), RowBytes(a.right, a.tail);
      l + ZeroBytes(16 - |l| - |r|) + r
    else RowBytes(a.left, a.tail)
  }

  // What the grammar allows is accepted.

  /** A group in front of the end, or of a colon, is read and handed on. */
  lemma ReadGroup(h: string, rest: string, g: Groups)
    requires IsNumber(h, 16, 0xFFFF) && (rest == [] || rest[0] == ':') && |g.bytes| < 16
    ensures ParseGroups(h + rest, g) == AfterGroup(rest, Groups(g.bytes + GroupBytes(NumberOf(h, 16)), g.ellipsis))
  {
    ScanNumberText(h, rest, 16, 0xFFFF);
    assert (h + rest)[|h|..] == rest;
    if rest != [] { assert (h + rest)[|h|] == rest[0]; }
  }

  /** The digits of an octet are hexadecimal digits of a small number too. */
  lemma {:induction false} OctetIsGroup(h: string)
    requires AllDigits(h, 10)
    ensures AllDigits(h, 16) && (NumberOf(h, 10) <= 9 ==> NumberOf(h, 16) == NumberOf(h, 10))
    ensures NumberOf(h, 10) <= 99 ==> NumberOf(h, 16) <= 0x99
    ensures NumberOf(h, 10) <= 999 ==> NumberOf(h, 16) <= 0x999
    decreases |h|
  {
    assert AllDigits(h, 16) by {
      forall k | 0 <= k < |h| ensures DigitValue(h[k], 16).Some? { assert DigitValue(h[k], 10).Some?; }
    }
    if h != [] {
      OctetIsGroup(h[..|h| - 1]);
      assert DigitValue(h[|h| - 1], 16) == DigitValue(h[|h| - 1], 10);
    }
  }

  /** A dotted tail is read where there is room for it. */
  lemma ReadTail(os: seq<string>, g: Groups)
    requires |os| == 4 && AllOctets(os)
    requires |g.bytes| <= 12 && (g.ellipsis < 0 ==> |g.bytes| == 12)
    ensures ParseGroups(Dotted(os, 0), g) == Some(g.(bytes := g.bytes + OctetBytes(os)))
  {
    var rest := Dotted(os[1..], 1);
    assert Dotted(os, 0) == os[0] + rest;
    DotStops(os[1..], 1);
    OctetIsGroup(os[0]);
    ScanNumberText(os[0], rest, 16, 0xFFFF);
    assert (os[0] + rest)[|os[0]|] == rest[0] == '.';
    OctetsComplete(os, 0);
  }

  lemma RowStart(gs: seq<string>, tail: Option<seq<string>>)
    requires AllGroups(gs) && IsTail(tail) && (gs != [] || tail.Some?)
    ensures Row(gs, tail) != [] && Row(gs, tail)[0] != ':'
  {
    if gs != [] {
      assert DigitValue(gs[0][0], 16).Some?;
    } else {
      assert tail.value[0] != [] && DigitValue(tail.value[0][0], 10).Some?;
      assert Dotted(tail.value, 0)[0] == tail.value[0][0];
    }
  }

  /** The place where a dotted tail may start. */
  predicate TailFits(g: Groups, gs: seq<string>, tail: Option<seq<string>>) {
    var n := |g.bytes| + 2 * |gs|;
    if tail.Some? then n <= 12 && (g.ellipsis < 0 ==> n == 12) else n <= 16
  }

  function WithGroup(g: Groups, h: string): (r: Groups)
    requires IsNumber(h, 16, 0xFFFF)
    ensures |r.bytes| == |g.bytes| + 2 && (|g.bytes| % 2 == 0 ==> |r.bytes| % 2 == 0)
  {
    Groups(g.bytes + GroupBytes(NumberOf(h, 16)), g.ellipsis)
  }

  lemma GroupThenMore(h: string, rest: string, g: Groups)
    requires IsNumber(h, 16, 0xFFFF) && |g.bytes| < 16 && rest != [] && rest[0] != ':'
    ensures ParseGroups(h + ":" + rest, g) == ParseGroups(rest, WithGroup(g, h))
  {
    var t := ":" + rest;
    assert h + ":" + rest == h + t;
    ReadGroup(h, t, g);
    assert t[1..] == rest;
  }

  lemma GroupLast(h: string, g: Groups)
    requires IsNumber(h, 16, 0xFFFF) && |g.bytes| < 16
    ensures ParseGroups(h, g) == Some(WithGroup(g, h))
  {
    ReadGroup(h, "", g);
    assert h + "" == h;
  }

  lemma GroupThenEllipsis(h: string, r: string, g: Groups)
    requires IsNumber(h, 16, 0xFFFF) && |g.bytes| < 16 && g.ellipsis < 0
    ensures var g' := WithGroup(g, h).(ellipsis := |g.bytes| + 2);
            ParseGroups(h + "::" + r, g) == if r == [] then Some(g') else ParseGroups(r, g')
  {
    var t := "::" + r;
    assert h + "::" + r == h + t;
    ReadGroup(h, t, g);
    assert t[2..] == r;
  }

  lemma GroupFirst(g: Groups, h: string, rest: seq<Byte>)
    requires IsNumber(h, 16, 0xFFFF)
    ensures g.bytes + (GroupBytes(NumberOf(h, 16)) + rest) == WithGroup(g, h).bytes + rest
  {}

  /** A row of groups with its tail is read to the end. */
  lemma {:induction false} RowComplete(gs: seq<string>, tail: Option<seq<string>>, g: Groups)
    requires AllGroups(gs) && IsTail(tail) && (gs != [] || tail.Some?) && TailFits(g, gs, tail)
    ensures ParseGroups(Row(gs, tail), g) == Some(g.(bytes := g.bytes + RowBytes(gs, tail)))
    decreases |gs|
  {
    if gs == [] {
      ReadTail(tail.value, g);
    } else {
      GroupFirst(g, gs[0], RowBytes(gs[1..], tail));
      if |gs| == 1 && tail.None? {
        GroupLast(gs[0], g);
        assert WithGroup(g, gs[0]).bytes + [] == WithGroup(g, gs[0]).bytes;
      } else {
        RowStart(gs[1..], tail);
        GroupThenMore(gs[0], Row(gs[1..], tail), g);
        RowComplete(gs[1..], tail, WithGroup(g, gs[0]));
      }
    }
  }

  /** What is read behind the ellipsis. */
  lemma AfterEllipsis(right: seq<string>, tail: Option<seq<string>>, g: Groups)
    requires AllGroups(right) && IsTail(tail) && TailFits(g, right, tail) && g.ellipsis == |g.bytes|
    ensures (if Row(right, tail) == [] then Some(g) else ParseGroups(Row(right, tail), g))
            == Some(g.(bytes := g.bytes + RowBytes(right, tail)))
  {
    if right != [] || tail.Some? {
      RowStart(right, tail);
      RowComplete(right, tail, g);
    } else {
      assert g.bytes + [] == g.bytes;
    }
  }

  /** Groups, an ellipsis, and what follows it. */
  lemma {:induction false} EllipsisComplete(left: seq<string>, right: seq<string>, tail: Option<seq<string>>, g: Groups)
    requires left != [] && AllGroups(left) && AllGroups(right) && IsTail(tail) && g.ellipsis < 0
    requires |g.bytes| + |RowBytes(left, None)| + |RowBytes(right, tail)| <= 14
    ensures ParseGroups(Row(left, None) + "::" + Row(right, tail), g)
            == Some(Groups(g.bytes + RowBytes(left, None) + RowBytes(right, tail), |g.bytes| + |RowBytes(left, None)|))
    decreases |left|
  {
    if |left| == 1 {
      LastBeforeEllipsis(left, right, tail, g);
    } else {
      GroupFirst(g, left[0], RowBytes(left[1..], None));
      RowStart(left[1..], None);
      GroupBeforeRow(left[0], Row(left[1..], None), Row(right, tail), g);
      EllipsisComplete(left[1..], right, tail, WithGroup(g, left[0]));
    }
  }

  lemma LastBeforeEllipsis(left: seq<string>, right: seq<string>, tail: Option<seq<string>>, g: Groups)
    requires |left| == 1 && AllGroups(left) && AllGroups(right) && IsTail(tail) && g.ellipsis < 0
    requires |g.bytes| + |RowBytes(left, None)| + |RowBytes(right, tail)| <= 14
    ensures ParseGroups(Row(left, None) + "::" + Row(right, tail), g)
            == Some(Groups(g.bytes + RowBytes(left, None) + RowBytes(right, tail), |g.bytes| + |RowBytes(left, None)|))
  {
    var g' := WithGroup(g, left[0]);
    GroupFirst(g, left[0], RowBytes(left[1..], None));
    GroupThenEllipsis(left[0], Row(right, tail), g);
    AfterEllipsis(right, tail, g'.(ellipsis := |g'.bytes|));
    assert g'.bytes + [] == g'.bytes;
  }

  lemma GroupBeforeRow(h: string, row: string, r: string, g: Groups)
    requires IsNumber(h, 16, 0xFFFF) && |g.bytes| < 16 && row != [] && row[0] != ':'
    ensures ParseGroups(h + ":" + row + "::" + r, g) == ParseGroups(row + "::" + r, WithGroup(g, h))
  {
    var rest := row + "::" + r;
    RowRegroup(h, row, r);
    assert rest[0] == row[0];
    GroupThenMore(h, rest, g);
  }

  lemma RowRegroup(h: string, row: string, r: string)
    ensures h + ":" + row + "::" + r == h + ":" + (row + "::" + r)
  {}

  /** Every address of the grammar is accepted, with the bytes it denotes. */
  lemma Complete(a: Address)
    requires WellFormed(a)
    ensures ParsedIpv6(Text(a)) == Some(AddressBytes(a))
  {
    if !a.ellipsis {
      PlainComplete(a);
    } else if a.left == [] {
      LeadingBytes(a.right, a.tail);
      LeadingText(a.right, a.tail);
      LeadingComplete(a.right, a.tail);
    } else {
      MiddleAddress(a.left, a.right, a.tail);
    }
  }

  lemma PlainComplete(a: Address)
    requires WellFormed(a) && !a.ellipsis
    ensures ParsedIpv6(Text(a)) == Some(AddressBytes(a))
  {
    RowStart(a.left, a.tail);
    RowComplete(a.left, a.tail, Groups([], -1));
    assert [] + RowBytes(a.left, a.tail) == RowBytes(a.left, a.tail);
  }

  lemma ExpandedInFront(r: seq<Byte>)
    requires |r| < 16
    ensures Expanded(Groups(r, 0)) == Some(ZeroBytes(16 - |r|) + r)
  {
    assert r[..0] == [] && r[0..] == r;
    assert [] + ZeroBytes(16 - |r|) == ZeroBytes(16 - |r|);
  }

  lemma LeadingBytes(right: seq<string>, tail: Option<seq<string>>)
    requires WellFormed(Address([], true, right, tail))
    ensures var r := RowBytes(right, tail);
            |r| < 16 && AddressBytes(Address([], true, right, tail)) == ZeroBytes(16 - |r|) + r
  {
    NothingInFront(ZeroBytes(16 - |RowBytes(right, tail)|));
  }

  lemma LeadingText(right: seq<string>, tail: Option<seq<string>>)
    ensures Text(Address([], true, right, tail)) == "::" + Row(right, tail)
  {
    assert "" + "::" == "::";
  }

  lemma NothingInFront(r: seq<Byte>)
    ensures [] + r == r
  {}

  lemma OnlyZeros(r: seq<Byte>)
    requires r == []
    ensures ZeroBytes(16 - |r|) + r == ZeroBytes(16)
  {}

  lemma ParsedLeading(row: string)
    requires row != []
    ensures ParsedIpv6("::" + row) == Finished(ParseGroups(row, Groups([], 0)))
  {
    var s := "::" + row;
    assert |s| > 2 && s[0] == ':' && s[1] == ':' && s[2..] == row;
  }

  /** What follows an ellipsis at the front. */
  lemma LeadingComplete(right: seq<string>, tail: Option<seq<string>>)
    requires AllGroups(right) && IsTail(tail) && |RowBytes(right, tail)| <= 14
    ensures var r := RowBytes(right, tail); ParsedIpv6("::" + Row(right, tail)) == Some(ZeroBytes(16 - |r|) + r)
  {
    var r := RowBytes(right, tail);
    if right == [] && tail.None? {
      OnlyZeros(r);
    } else {
      RowStart(right, tail);
      ParsedLeading(Row(right, tail));
      RowComplete(right, tail, Groups([], 0));
      NothingInFront(r);
      ExpandedInFront(r);
    }
  }

  lemma ExpandedBetween(l: seq<Byte>, r: seq<Byte>)
    requires |l| + |r| < 16
    ensures Expanded(Groups(l + r, |l|)) == Some(l + ZeroBytes(16 - |l| - |r|) + r)
  {
    assert (l + r)[..|l|] == l && (l + r)[|l|..] == r;
  }

  lemma ParsedInside(s: string)
    requires s != [] && s[0] != ':'
    ensures ParsedIpv6(s) == Finished(ParseGroups(s, Groups([], -1)))
  {}

  lemma ParsedRow(left: seq<string>, rest: string)
    requires left != [] && AllGroups(left)
    ensures var s := Row(left, None) + "::" + rest; ParsedIpv6(s) == Finished(ParseGroups(s, Groups([], -1)))
  {
    RowStart(left, None);
    ParsedInside(Row(left, None) + "::" + rest);
  }

  /** Groups, an ellipsis and what follows it. */
  lemma MiddleComplete(left: seq<string>, right: seq<string>, tail: Option<seq<string>>)
    requires left != [] && AllGroups(left) && AllGroups(right) && IsTail(tail)
    requires |RowBytes(left, None)| + |RowBytes(right, tail)| <= 14
    ensures var l, r := RowBytes(left, None), RowBytes(right, tail);
            Finished(ParseGroups(Row(left, None) + "::" + Row(right, tail), Groups([], -1)))
            == Some(l + ZeroBytes(16 - |l| - |r|) + r)
  {
    EllipsisComplete(left, right, tail, Groups([], -1));
    NothingInFront(RowBytes(left, None));
    ExpandedBetween(RowBytes(left, None), RowBytes(right, tail));
  }

  lemma MiddleAddress(left: seq<string>, right: seq<string>, tail: Option<seq<string>>)
    requires WellFormed(Address(left, true, right, tail)) && left != []
    ensures var a := Address(left, true, right, tail); ParsedIpv6(Text(a)) == Some(AddressBytes(a))
  {
    ParsedRow(left, Row(right, tail));
    MiddleComplete(left, right, tail);
  }

  // What is accepted is allowed by the grammar.

  /** A second ellipsis is never accepted, so the first one stays. */
  lemma {:induction false} EllipsisStays(s: string, g: Groups)
    requires g.ellipsis >= 0 && ParseGroups(s, g).Some?
    ensures ParseGroups(s, g).value.ellipsis == g.ellipsis
    decreases |s|
  {
    if |g.bytes| < 16 {
      var (n, c) := Scanned(s, 16).value;
      if !(c < |s| && s[c] == '.') && |s[c..]| > 1 {
        EllipsisStays(s[c..][1..], Groups(g.bytes + GroupBytes(n), g.ellipsis));
      }
    }
  }

  /** The first group of what is accepted, when no dotted tail comes. */
  lemma FirstGroup(s: string, g: Groups) returns (h: string, rest: string)
    requires ParseGroups(s, g).Some? && |g.bytes| < 16
    requires var c := Scanned(s, 16).value.1; !(c < |s| && s[c] == '.')
    ensures IsNumber(h, 16, 0xFFFF) && s == h + rest && |rest| < |s|
    ensures ParseGroups(s, g) == AfterGroup(rest, WithGroup(g, h))
  {
    h := ScannedText(s, 16, 0xFFFF);
    rest := s[|h|..];
  }

  lemma RowMore(h: string, rest: seq<string>, tail: Option<seq<string>>)
    requires IsNumber(h, 16, 0xFFFF) && AllGroups(rest) && IsTail(tail) && (rest != [] || tail.Some?)
    ensures AllGroups([h] + rest) && Row([h] + rest, tail) == h + ":" + Row(rest, tail)
    ensures RowBytes([h] + rest, tail) == GroupBytes(NumberOf(h, 16)) + RowBytes(rest, tail)
  {
    assert ([h] + rest)[1..] == rest;
  }

  lemma RowLast(h: string)
    requires IsNumber(h, 16, 0xFFFF)
    ensures AllGroups([h]) && Row([h], None) == h && RowBytes([h], None) == GroupBytes(NumberOf(h, 16))
  {
    assert [h][1..] == [];
  }

  /** gs and tail are what has been read from s after g. */
  ghost predicate IsRow(s: string, g: Groups, gs: seq<string>, tail: Option<seq<string>>, r: Groups) {
    && AllGroups(gs) && IsTail(tail) && (gs != [] || tail.Some?) && Row(gs, tail) == s
    && r == Groups(g.bytes + RowBytes(gs, tail), g.ellipsis) && |r.bytes| <= 16
  }

  lemma ColonSplit(h: string, rest: string)
    requires |rest| >= 2 && rest[0] == ':'
    ensures h + rest == h + ":" + rest[1..]
    ensures rest[1] == ':' ==> h + rest == h + "::" + rest[2..]
  {
    assert rest == ":" + rest[1..];
    if rest[1] == ':' { assert rest == "::" + rest[2..]; }
  }

  lemma TailRow(s: string, g: Groups) returns (tail: Option<seq<string>>)
    requires s != [] && ParseGroups(s, g).Some?
    requires |g.bytes| < 16 && Scanned(s, 16).Some? && var c := Scanned(s, 16).value.1; c < |s| && s[c] == '.'
    ensures IsRow(s, g, [], tail, ParseGroups(s, g).value)
  {
    var os := OctetsSound(s, 0);
    tail := Some(os);
  }

  /** Where no ellipsis comes, a colon leads to the next group. */
  lemma GroupFollows(h: string, rest: string, g: Groups) returns (s: string)
    requires rest != [] && AfterGroup(rest, g).Some? && AfterGroup(rest, g).value.ellipsis == g.ellipsis
    ensures s != [] && |s| < |rest| && h + rest == h + ":" + s && AfterGroup(rest, g) == ParseGroups(s, g)
    ensures ParseGroups(s, g).Some? && ParseGroups(s, g).value.ellipsis == g.ellipsis
  {
    s := rest[1..];
    ColonSplit(h, rest);
    if rest[1] == ':' { NoEllipsisHere(rest, g); }
  }

  /** Without an ellipsis on the way, what is accepted is a row. */
  lemma {:induction false} RowSound(s: string, g: Groups)
    returns (gs: seq<string>, tail: Option<seq<string>>, r: Groups)
    requires s != [] && |g.bytes| % 2 == 0
    requires ParseGroups(s, g).Some? && ParseGroups(s, g).value.ellipsis == g.ellipsis
    ensures ParseGroups(s, g) == Some(r) && IsRow(s, g, gs, tail, r)
    decreases |s|
  {
    var c := Scanned(s, 16).value.1;
    if c < |s| && s[c] == '.' {
      tail := TailRow(s, g);
      gs, r := [], ParseGroups(s, g).value;
    } else {
      var h, rest := FirstGroup(s, g);
      if rest == [] {
        LastRow(s, g, h);
        gs, tail, r := [h], None, WithGroup(g, h);
      } else {
        var g' := WithGroup(g, h);
        var s' := GroupFollows(h, rest, g');
        var more;
        more, tail, r := RowSound(s', g');
        LongerRow(s', g, h, more, tail, r);
        gs := [h] + more;
      }
    }
  }

  lemma LastRow(s: string, g: Groups, h: string)
    requires IsNumber(h, 16, 0xFFFF) && s == h + "" && |g.bytes| < 16 && |g.bytes| % 2 == 0
    ensures IsRow(s, g, [h], None, WithGroup(g, h))
  {
    RowLast(h);
    assert h + "" == h;
  }

  lemma LongerRow(s: string, g: Groups, h: string, gs: seq<string>, tail: Option<seq<string>>, r: Groups)
    requires IsNumber(h, 16, 0xFFFF) && IsRow(s, WithGroup(g, h), gs, tail, r)
    ensures IsRow(h + ":" + s, g, [h] + gs, tail, r)
  {
    RowMore(h, gs, tail);
    GroupFirst(g, h, RowBytes(gs, tail));
  }

  lemma NoEllipsisHere(rest: string, g: Groups)
    requires |rest| >= 2 && rest[0] == ':' && rest[1] == ':' && AfterGroup(rest, g).Some?
    ensures AfterGroup(rest, g).value.ellipsis != g.ellipsis
  {
    if |rest| > 2 { EllipsisStays(rest[2..], g.(ellipsis := |g.bytes|)); }
  }

  /** left, right and tail are what has been read from s after g, with an ellipsis in between. */
  ghost predicate IsSplit(s: string, g: Groups, left: seq<string>, right: seq<string>, tail: Option<seq<string>>,
        r: Groups)
  {
    && left != [] && AllGroups(left) && AllGroups(right) && IsTail(tail)
    && Row(left, None) + "::" + Row(right, tail) == s
    && r == Groups(g.bytes + RowBytes(left, None) + RowBytes(right, tail), |g.bytes| + |RowBytes(left, None)|)
  }

  /** With an ellipsis on the way, what is accepted are two rows. */
  lemma {:induction false} SplitSound(s: string, g: Groups)
    returns (left: seq<string>, right: seq<string>, tail: Option<seq<string>>)
    requires s != [] && |g.bytes| % 2 == 0 && g.ellipsis < 0
    requires ParseGroups(s, g).Some? && ParseGroups(s, g).value.ellipsis != g.ellipsis
    ensures IsSplit(s, g, left, right, tail, ParseGroups(s, g).value)
    decreases |s|
  {
    var h, rest := FirstGroup(s, g);
    var g' := WithGroup(g, h);
    ColonSplit(h, rest);
    if rest[1] == ':' {
      right, tail := EndSound(rest[2..], g'.(ellipsis := |g'.bytes|));
      RowLast(h);
      left := [h];
    } else {
      left, right, tail := SplitSound(rest[1..], g');
      RowMore(h, left, None);
      RowRegroup(h, Row(left, None), Row(right, tail));
      GroupFirst(g, h, RowBytes(left, None));
      left := [h] + left;
    }
  }

  /** The row behind an ellipsis may be missing. */
  lemma EndSound(s: string, g: Groups) returns (gs: seq<string>, tail: Option<seq<string>>)
    requires g.ellipsis >= 0 && |g.bytes| % 2 == 0 && (s != [] ==> ParseGroups(s, g).Some?)
    ensures AllGroups(gs) && IsTail(tail) && Row(gs, tail) == s
    ensures (if s == [] then g else ParseGroups(s, g).value) == Groups(g.bytes + RowBytes(gs, tail), g.ellipsis)
  {
    if s == [] {
      gs, tail := [], None;
      assert g.bytes + [] == g.bytes;
    } else {
      EllipsisStays(s, g);
      var r;
      gs, tail, r := RowSound(s, g);
    }
  }

  /** Whatever is accepted is an address of the grammar, and its bytes are those it denotes. */
  lemma Sound(s: string) returns (a: Address)
    requires ParsedIpv6(s).Some?
    ensures WellFormed(a) && Text(a) == s && AddressBytes(a) == ParsedIpv6(s).value
  {
    if |s| >= 2 && s[0] == ':' && s[1] == ':' {
      a := LeadingSound(s);
    } else {
      var r := ParseGroups(s, Groups([], -1)).value;
      if r.ellipsis < 0 {
        a := PlainSound(s);
      } else {
        a := MiddleSound(s);
      }
    }
  }

  lemma LeadingSound(s: string) returns (a: Address)
    requires |s| >= 2 && s[0] == ':' && s[1] == ':' && ParsedIpv6(s).Some?
    ensures WellFormed(a) && Text(a) == s && AddressBytes(a) == ParsedIpv6(s).value
  {
    assert s == "::" + s[2..];
    if |s| == 2 {
      a := Address([], true, [], None);
      LeadingBytes([], None);
      LeadingText([], None);
      OnlyZeros([]);
    } else {
      a := BehindEllipsis(s[2..]);
    }
  }

  lemma BehindEllipsis(t: string) returns (a: Address)
    requires t != [] && ParseGroups(t, Groups([], 0)).Some? && Expanded(ParseGroups(t, Groups([], 0)).value).Some?
    ensures WellFormed(a) && Text(a) == "::" + t
    ensures Some(AddressBytes(a)) == Expanded(ParseGroups(t, Groups([], 0)).value)
  {
    var gs, tail := EndSound(t, Groups([], 0));
    var r := RowBytes(gs, tail);
    assert [] + r == r;
    ExpandedInFront(r);
    a := Address([], true, gs, tail);
    LeadingBytes(gs, tail);
    LeadingText(gs, tail);
  }

  lemma NeverNegative(s: string, g: Groups)
    requires g.ellipsis == -1 && ParseGroups(s, g).Some?
    ensures ParseGroups(s, g).value.ellipsis >= -1
    decreases |s|
  {
    if |g.bytes| < 16 {
      var (n, c) := Scanned(s, 16).value;
      var g' := Groups(g.bytes + GroupBytes(n), g.ellipsis);
      if !(c < |s| && s[c] == '.') && |s[c..]| > 1 {
        if s[c..][1] != ':' {
          NeverNegative(s[c..][1..], g');
        } else if |s[c..]| > 2 {
          EllipsisStays(s[c..][2..], g'.(ellipsis := |g'.bytes|));
        }
      }
    }
  }

  lemma PlainSound(s: string) returns (a: Address)
    requires !(|s| >= 2 && s[0] == ':' && s[1] == ':') && ParsedIpv6(s).Some?
    requires ParseGroups(s, Groups([], -1)).value.ellipsis < 0
    ensures WellFormed(a) && Text(a) == s && AddressBytes(a) == ParsedIpv6(s).value
  {
    NeverNegative(s, Groups([], -1));
    var gs, tail, r := RowSound(s, Groups([], -1));
    a := Address(gs, false, [], tail);
    assert [] + RowBytes(gs, tail) == RowBytes(gs, tail);
  }

  lemma MiddleSound(s: string) returns (a: Address)
    requires !(|s| >= 2 && s[0] == ':' && s[1] == ':') && ParsedIpv6(s).Some?
    requires ParseGroups(s, Groups([], -1)).value.ellipsis >= 0
    ensures WellFormed(a) && Text(a) == s && AddressBytes(a) == ParsedIpv6(s).value
  {
    var left, right, tail := SplitSound(s, Groups([], -1));
    a := Address(left, true, right, tail);
    var l, r := RowBytes(left, None), RowBytes(right, tail);
    assert [] + l + r == l + r;
    assert (l + r)[..|l|] == l && (l + r)[|l|..] == r;
  }

  /** parseIPv6 accepts exactly the texts of the grammar, and returns the bytes they denote. */
  lemma ParsedIffAddress(s: string, b: seq<Byte>)
    ensures ParsedIpv6(s) == Some(b) <==> exists a :: WellFormed(a) && Text(a) == s && AddressBytes(a) == b
  {
    if ParsedIpv6(s) == Some(b) {
      var a := Sound(s);
    }
    forall a | WellFormed(a) && Text(a) == s && AddressBytes(a) == b ensures ParsedIpv6(s) == Some(b) {
      Complete(a);
    }
  }

  // Printing and parsing.

  /** The number of group k, its high half first. */
  function GroupAt(b: seq<Byte>, k: nat): int
    requires 2 * k + 1 < |b|
  {
    b[2 * k] as int * 256 + b[2 * k + 1] as int
  }

  /** The bytes of a group are its high and its low half, in this order. */
  lemma {:induction false} RowBytesAt(gs: seq<string>, tail: Option<seq<string>>, k: nat)
    requires AllGroups(gs) && IsTail(tail) && k < |gs|
    ensures GroupAt(RowBytes(gs, tail), k) == NumberOf(gs[k], 16)
    decreases |gs|
  {
    if k > 0 { RowBytesAt(gs[1..], tail, k - 1); }
  }

  /** Eight printed groups are read back, whatever the case of their digits. */
  lemma GroupsRoundTrip(vs: seq<nat>, upper: bool)
    requires |vs| == 8 && forall k :: 0 <= k < 8 ==> vs[k] <= 0xFFFF
    ensures var r := ParsedIpv6(Row(Numerals(vs, 16, upper), None));
            r.Some? && |r.value| == 16 && forall k :: 0 <= k < 8 ==> GroupAt(r.value, k) == vs[k]
  {
    var gs := Numerals(vs, 16, upper);
    NumeralsAreNumbers(vs, 16, upper, 0xFFFF);
    Complete(Address(gs, false, [], None));
    forall k | 0 <= k < 8 ensures GroupAt(RowBytes(gs, None), k) == vs[k] { RowBytesAt(gs, None, k); }
  }
}
