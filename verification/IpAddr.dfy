/** ip.go: the parsers as they run, on a 16-byte array that is filled and shifted in place. */
module IpAddr {
  import opened Bytes
  import opened IpText
  import opened Ipv6Text

  const IPV4_LEN := 4
  const IPV6_LEN := 16

  const V4_IN_V6_PREFIX: seq<Byte> := [0, 0, 0, 0, 0, 0, 0, 0, 0, 0, 0xff, 0xff]

  /** Decimal to integer: the number, the characters it took, success. */
  method Dtoi(s: string) returns (n: nat, i: nat, ok: bool)
    ensures ok <==> Scanned(s, 10).Some?
    ensures ok ==> Scanned(s, 10) == Some((n, i))
  {
    n, i := 0, 0;
    while i < |s| && '0' <= s[i] <= '9'
      invariant i <= |s| && ScanNumber(s, 10, i, n) == Scanned(s, 10)
      decreases |s| - i
    {
      n := n * 10 + (s[i] as int - '0' as int);
      if n >= BIG { return BIG, i, false; }
      i := i + 1;
    }
    if i == 0 { return 0, 0, false; }
    return n, i, true;
  }

  /** Hexadecimal to integer. */
  method Xtoi(s: string) returns (n: nat, i: nat, ok: bool)
    ensures ok <==> Scanned(s, 16).Some?
    ensures ok ==> Scanned(s, 16) == Some((n, i))
  {
    n, i := 0, 0;
    while i < |s|
      invariant i <= |s| && ScanNumber(s, 16, i, n) == Scanned(s, 16)
      decreases |s| - i
    {
      if '0' <= s[i] <= '9' {
        n := n * 16;
        n := n + (s[i] as int - '0' as int);
      } else if 'a' <= s[i] <= 'f' {
        n := n * 16;
        n := n + (s[i] as int - 'a' as int) + 10;
      } else if 'A' <= s[i] <= 'F' {
        n := n * 16;
        n := n + (s[i] as int - 'A' as int) + 10;
      } else {
        break;
      }
      if n >= BIG { return 0, i, false; }
      i := i + 1;
    }
    if i == 0 { return 0, i, false; }
    return n, i, true;
  }

  /** An IPv4 address in its 16-byte form. */
  method MakeIPv4(a: Byte, b: Byte, c: Byte, d: Byte) returns (p: array<Byte>)
    ensures fresh(p) && p[..] == V4_IN_V6_PREFIX + [a, b, c, d]
  {
    p := new Byte[IPV6_LEN](i => if 0 <= i < 12 then V4_IN_V6_PREFIX[i] else 0);
    p[12], p[13], p[14], p[15] := a, b, c, d;
  }

  /** The octets still to come, behind those that have been read. */
  function Joined(read: seq<Byte>, rest: Option<seq<Byte>>): Option<seq<Byte>> {
    if rest.None? then None else Some(read + rest.value)
  }

  method ParseIPv4(s: string) returns (ip: array?<Byte>)
    ensures Octets(s, 0).None? ==> ip == null
    ensures Octets(s, 0).Some? ==> ip != null && fresh(ip) && ip[..] == V4_IN_V6_PREFIX + Octets(s, 0).value
  {
    var p := new Byte[IPV4_LEN](_ => 0);
    var ok := ReadOctets(s, p);
    if !ok { return null; }
    ip := MakeIPv4(p[0], p[1], p[2], p[3]);
    assert p[..] == [p[0], p[1], p[2], p[3]];
  }

  /** The loop over the four octets. */
  method ReadOctets(text: string, p: array<Byte>) returns (ok: bool)
    requires p.Length == IPV4_LEN
    modifies p
    ensures ok <==> Octets(text, 0).Some?
    ensures ok ==> p[..] == Octets(text, 0).value
  {
    var s := text;
    ghost var read: seq<Byte> := [];
    NothingRead(read, Octets(text, 0));
    for i := 0 to IPV4_LEN
      invariant p[..i] == read && Octets(text, 0) == Joined(read, Octets(s, i))
    {
      if |s| == 0 { return false; }
      ghost var before := s;
      if i > 0 {
        if s[0] != '.' { return false; }
        s := s[1..];
      }
      var n, c;
      n, c, ok := Dtoi(s);
      if !ok || n > 0xFF { return false; }
      s := s[c..];
      OneOctet(before, i, read, n, s);
      p[i] := n;
      read := read + [n];
    }
    ok := |s| == 0;
  }

  lemma NothingRead(read: seq<Byte>, rest: Option<seq<Byte>>)
    requires read == []
    ensures Joined(read, rest) == rest
  {
    if rest.Some? { assert read + rest.value == rest.value; }
  }

  lemma OneOctet(s: string, i: nat, read: seq<Byte>, n: Byte, rest: string)
    requires i < 4 && s != [] && (i > 0 ==> s[0] == '.')
    requires var t := if i > 0 then s[1..] else s;
             Scanned(t, 10).Some? && Scanned(t, 10).value.0 == n && rest == t[Scanned(t, 10).value.1..]
    ensures Joined(read, Octets(s, i)) == Joined(read + [n], Octets(rest, i + 1))
  {
    if Octets(rest, i + 1).Some? {
      assert read + ([n] + Octets(rest, i + 1).value) == read + [n] + Octets(rest, i + 1).value;
    }
  }

  datatype Progress = Failed | Done | More

  /** The state of the loop as the source keeps it. */
  ghost function StateOf(bytes: seq<Byte>, i: nat, ellipsis: int): Groups
    requires i <= |bytes|
  {
    Groups(bytes[..i], ellipsis)
  }

  method ParseIPv6(text: string) returns (ip: array?<Byte>)
    ensures ParsedIpv6(text).None? ==> ip == null
    ensures ParsedIpv6(text).Some? ==> ip != null && fresh(ip) && ip[..] == ParsedIpv6(text).value
  {
    var s := text;
    var buffer := new Byte[IPV6_LEN](_ => 0);
    var ellipsis := -1;
    if |s| >= 2 && s[0] == ':' && s[1] == ':' {
      ellipsis := 0;
      s := s[2..];
      if |s| == 0 {
        assert buffer[..] == ZeroBytes(16);
        return buffer;
      }
    }
    ghost var target := ParseGroups(s, Groups([], ellipsis));
    assert buffer[..0] == [];
    var i: nat := 0;
    var progress := More;
    while i < IPV6_LEN && progress == More
      invariant i <= IPV6_LEN && i % 2 == 0 && ellipsis <= i && -1 <= ellipsis
      invariant progress == More ==> target == ParseGroups(s, StateOf(buffer[..], i, ellipsis))
      invariant progress == Done ==> s == "" && target == Some(StateOf(buffer[..], i, ellipsis))
      invariant progress == Failed ==> target.None?
      decreases if progress == More then 1 else 0, |s|
    {
      s, i, ellipsis, progress := ParseGroup(s, buffer, i, ellipsis, target);
    }
    if progress == Failed || |s| != 0 { return null; }
    if i < IPV6_LEN {
      if ellipsis < 0 { return null; }
      ExpandEllipsis(buffer, i, ellipsis);
    } else if ellipsis >= 0 {
      return null;
    } else {
      assert buffer[..16] == buffer[..];
    }
    ip := buffer;
  }

  /** One round of the loop: a group or a dotted tail, and what follows it. */
  method ParseGroup(text: string, ip: array<Byte>, start: nat, ellipsisBefore: int, ghost target: Option<Groups>)
    returns (s: string, i: nat, ellipsis: int, progress: Progress)
    requires ip.Length == IPV6_LEN && start + 2 <= IPV6_LEN && -1 <= ellipsisBefore <= start
    requires target == ParseGroups(text, StateOf(ip[..], start, ellipsisBefore))
    modifies ip
    ensures i <= IPV6_LEN && -1 <= ellipsis <= i
    ensures i == start || i == start + 2 || i == start + IPV4_LEN
    ensures match progress
            case Failed => target.None?
            case Done => s == "" && target == Some(StateOf(ip[..], i, ellipsis))
            case More => |s| < |text| && target == ParseGroups(s, StateOf(ip[..], i, ellipsis))
  {
    s, i, ellipsis := text, start, ellipsisBefore;
    var n, c, ok := Xtoi(s);
    if !ok || n > 0xFFFF { return s, i, ellipsis, Failed; }
    if c < |s| && s[c] == '.' {
      ok := DottedTail(s, ip, i, ellipsis, n, c);
      if !ok { return s, i, ellipsis, Failed; }
      return "", i + IPV4_LEN, ellipsis, Done;
    }
    i := i + 2;
    s, ellipsis, progress := PlainGroup(s, ip, start, ellipsis, n, c);
  }

  /** A group without a dot behind it is saved, and what follows is looked at. */
  method PlainGroup(text: string, ip: array<Byte>, i: nat, ellipsisBefore: int, n: nat, c: nat)
    returns (s: string, ellipsis: int, progress: Progress)
    requires ip.Length == IPV6_LEN && i + 2 <= IPV6_LEN && -1 <= ellipsisBefore <= i
    requires Scanned(text, 16) == Some((n, c)) && n <= 0xFFFF && !(c < |text| && text[c] == '.')
    modifies ip
    ensures -1 <= ellipsis <= i + 2
    ensures var before := ParseGroups(text, StateOf(old(ip[..]), i, ellipsisBefore));
            match progress
            case Failed => before.None?
            case Done => s == "" && before == Some(StateOf(ip[..], i + 2, ellipsis))
            case More => |s| < |text| && before == ParseGroups(s, StateOf(ip[..], i + 2, ellipsis))
  {
    ghost var g := StateOf(ip[..], i, ellipsisBefore);
    GroupRead(text, g, n, c);
    StoreGroup(ip, i, n);
    g := Groups(g.bytes + GroupBytes(n), ellipsisBefore);
    s, ellipsis, progress := FollowGroup(text[c..], i + 2, ellipsisBefore, g);
    assert StateOf(ip[..], i + 2, ellipsis) == Groups(g.bytes, ellipsis);
  }

  /** A dotted tail, if it stands in the right place and there is room for it. */
  method DottedTail(s: string, ip: array<Byte>, i: nat, ellipsis: int, ghost n: nat, ghost c: nat) returns (ok: bool)
    requires ip.Length == IPV6_LEN && i < IPV6_LEN
    requires Scanned(s, 16) == Some((n, c)) && n <= 0xFFFF && c < |s| && s[c] == '.'
    modifies ip
    ensures ok <==> ParseGroups(s, StateOf(old(ip[..]), i, ellipsis)).Some?
    ensures ok ==>
              i <= 12 &&
              ParseGroups(s, StateOf(old(ip[..]), i, ellipsis)) == Some(StateOf(ip[..], i + IPV4_LEN, ellipsis))
  {
    ghost var g := StateOf(ip[..], i, ellipsis);
    if ellipsis < 0 && i != IPV6_LEN - IPV4_LEN { return false; }
    if i + IPV4_LEN > IPV6_LEN { return false; }
    TailRead(s, g, n, c);
    ok := StoreTail(s, ip, i);
    if ok { assert StateOf(ip[..], i + IPV4_LEN, ellipsis) == Groups(g.bytes + Octets(s, 0).value, ellipsis); }
  }

  lemma TailRead(s: string, g: Groups, n: nat, c: nat)
    requires Scanned(s, 16) == Some((n, c)) && n <= 0xFFFF && c < |s| && s[c] == '.'
    requires |g.bytes| <= 12 && (g.ellipsis < 0 ==> |g.bytes| == 12)
    ensures ParseGroups(s, g)
            == if Octets(s, 0).None? then None else Some(Groups(g.bytes + Octets(s, 0).value, g.ellipsis))
  {}

  lemma GroupRead(s: string, g: Groups, n: nat, c: nat)
    requires Scanned(s, 16) == Some((n, c)) && n <= 0xFFFF && !(c < |s| && s[c] == '.') && |g.bytes| < 16
    ensures ParseGroups(s, g) == AfterGroup(s[c..], Groups(g.bytes + GroupBytes(n), g.ellipsis))
  {}

  /** Saves a 16-bit chunk. */
  method StoreGroup(ip: array<Byte>, i: nat, n: nat)
    requires i + 2 <= ip.Length && n <= 0xFFFF
    modifies ip
    ensures ip[..i + 2] == old(ip[..i]) + GroupBytes(n)
  {
    ip[i] := n / 256;
    ip[i + 1] := n % 256;
  }

  lemma OctetsAt(ip4: seq<Byte>, octets: seq<Byte>)
    requires |octets| == 4 && ip4 == V4_IN_V6_PREFIX + octets
    ensures |ip4| == 16 && forall k :: 0 <= k < 4 ==> ip4[12 + k] == octets[k]
  {}

  lemma Appended(before: seq<Byte>, after: seq<Byte>, i: nat, octets: seq<Byte>)
    requires |octets| == 4 && i + 4 <= |before| == |after| && after[..i] == before[..i]
    requires after[i] == octets[0] && after[i + 1] == octets[1]
    requires after[i + 2] == octets[2] && after[i + 3] == octets[3]
    ensures after[..i + 4] == before[..i] + octets
  {
    assert after[..i + 4] == after[..i] + [after[i], after[i + 1], after[i + 2], after[i + 3]];
  }

  /** Saves the four octets of a dotted tail. */
  method StoreTail(s: string, ip: array<Byte>, i: nat) returns (ok: bool)
    requires i + IPV4_LEN <= ip.Length
    modifies ip
    ensures ok <==> Octets(s, 0).Some?
    ensures ok ==> ip[..i + IPV4_LEN] == old(ip[..i]) + Octets(s, 0).value
  {
    var ip4 := ParseIPv4(s);
    if ip4 == null { return false; }
    ghost var octets := Octets(s, 0).value;
    OctetsAt(ip4[..], octets);
    ip[i] := ip4[12];
    ip[i + 1] := ip4[13];
    ip[i + 2] := ip4[14];
    ip[i + 3] := ip4[15];
    Appended(old(ip[..]), ip[..], i, octets);
    ok := true;
  }

  /** What follows a group: the end, a colon and more, or an ellipsis. */
  method FollowGroup(text: string, i: nat, ellipsisBefore: int, ghost g: Groups)
    returns (s: string, ellipsis: int, progress: Progress)
    requires -1 <= ellipsisBefore <= i == |g.bytes| && g.ellipsis == ellipsisBefore
    ensures -1 <= ellipsis <= i
    ensures match progress
            case Failed => AfterGroup(text, g).None?
            case Done => s == "" && AfterGroup(text, g) == Some(g.(ellipsis := ellipsis))
            case More => |s| < |text| && AfterGroup(text, g) == ParseGroups(s, g.(ellipsis := ellipsis))
  {
    s, ellipsis := text, ellipsisBefore;
    if |s| == 0 { return s, ellipsis, Done; }
    if s[0] != ':' || |s| == 1 { return s, ellipsis, Failed; }
    s := s[1..];
    if s[0] == ':' {
      if ellipsis >= 0 { return s, ellipsis, Failed; }
      ellipsis := i;
      s := s[1..];
      if |s| == 0 { return s, ellipsis, Done; }
      assert text[2..] == s;
    }
    progress := More;
  }

  /** What stands behind the ellipsis moves to the end, and zeros fill the gap. */
  method ExpandEllipsis(ip: array<Byte>, i: nat, ellipsis: nat)
    requires ip.Length == IPV6_LEN && ellipsis <= i < IPV6_LEN
    modifies ip
    ensures Some(ip[..]) == Expanded(StateOf(old(ip[..]), i, ellipsis))
  {
    ghost var b := ip[..];
    var n := IPV6_LEN - i;
    var j: int := i - 1;
    while j >= ellipsis
      invariant ellipsis - 1 <= j < i
      invariant forall k :: j < k < i ==> ip[k + n] == b[k]
      invariant forall k :: 0 <= k <= j || 0 <= k < ellipsis ==> ip[k] == b[k]
    {
      ip[j + n] := ip[j];
      j := j - 1;
    }
    ghost var moved := ip[..];
    j := ellipsis + n - 1;
    while j >= ellipsis
      invariant ellipsis - 1 <= j < ellipsis + n
      invariant forall k :: j < k < ellipsis + n ==> ip[k] == 0
      invariant forall k :: 0 <= k < IPV6_LEN && !(ellipsis <= k < ellipsis + n) ==> ip[k] == moved[k]
    {
      ip[j] := 0;
      j := j - 1;
    }
    ExpandedBytes(ip[..], b, i, ellipsis, n);
  }

  lemma ExpandedBytes(t: seq<Byte>, b: seq<Byte>, i: nat, ellipsis: nat, n: nat)
    requires |t| == |b| == 16 && ellipsis <= i < 16 && n == 16 - i
    requires forall k :: 0 <= k < ellipsis ==> t[k] == b[k]
    requires forall k :: ellipsis <= k < ellipsis + n ==> t[k] == 0
    requires forall k :: ellipsis <= k < i ==> t[k + n] == b[k]
    ensures Some(t) == Expanded(Groups(b[..i], ellipsis))
  {
    var e := b[..i][..ellipsis] + ZeroBytes(n) + b[..i][ellipsis..];
    forall k | 0 <= k < 16 ensures t[k] == e[k] {
      if k >= ellipsis + n { assert t[(k - n) + n] == b[k - n]; }
    }
    assert t == e;
  }

  /** The first dot or colon decides between the two forms. */
  function ParsedIP(s: string, i: nat): Option<seq<Byte>>
    requires i <= |s|
    decreases |s| - i
  {
    if i == |s| then None
    else if s[i] == '.' then Joined(V4_IN_V6_PREFIX, Octets(s, 0))
    else if s[i] == ':' then ParsedIpv6(s)
    else ParsedIP(s, i + 1)
  }

  method ParseIP(s: string) returns (ip: array?<Byte>)
    ensures ParsedIP(s, 0).None? ==> ip == null
    ensures ParsedIP(s, 0).Some? ==> ip != null && fresh(ip) && ip[..] == ParsedIP(s, 0).value
  {
    for i := 0 to |s|
      invariant ParsedIP(s, 0) == ParsedIP(s, i)
    {
      if s[i] == '.' {
        ip := ParseIPv4(s);
        return;
      }
      if s[i] == ':' {
        ip := ParseIPv6(s);
        return;
      }
    }
    ip := null;
  }

  lemma {:induction false} FirstSeparator(s: string, i: nat, j: nat)
    requires i <= j < |s| && (s[j] == '.' || s[j] == ':') && forall k :: i <= k < j ==> s[k] != '.' && s[k] != ':'
    ensures ParsedIP(s, i) == if s[j] == '.' then Joined(V4_IN_V6_PREFIX, Octets(s, 0)) else ParsedIpv6(s)
    decreases j - i
  {
    if i < j {
      assert ParsedIP(s, i) == ParsedIP(s, i + 1);
      FirstSeparator(s, i + 1, j);
    }
  }

  /** A number in front of a dot or a colon. */
  lemma NumberInFront(h: string, base: nat, c: char, rest: string)
    requires AllDigits(h, base) && (c == '.' || c == ':')
    ensures var s := h + [c] + rest;
            ParsedIP(s, 0) == if c == '.' then Joined(V4_IN_V6_PREFIX, Octets(s, 0)) else ParsedIpv6(s)
  {
    var s := h + [c] + rest;
    forall k | 0 <= k < |h| ensures s[k] != '.' && s[k] != ':' { assert DigitValue(h[k], base).Some?; }
    FirstSeparator(s, 0, |h|);
  }

  /** A printed address of four octets is read back in its 16-byte form. */
  lemma Ipv4RoundTrip(vs: seq<nat>)
    requires |vs| == 4 && forall k :: 0 <= k < 4 ==> vs[k] <= 0xFF
    ensures ParsedIP(Dotted(Numerals(vs, 10, false), 0), 0)
            == Some([0, 0, 0, 0, 0, 0, 0, 0, 0, 0, 0xff, 0xff, vs[0], vs[1], vs[2], vs[3]])
  {
    var os := Numerals(vs, 10, false);
    DottedRoundTrip(vs);
    NumeralDenotes(vs[0], 10, false);
    var rest := DottedInFront(os);
    NumberInFront(os[0], 10, '.', rest);
    Mapped(vs);
  }

  lemma DottedInFront(os: seq<string>) returns (rest: string)
    requires |os| > 1
    ensures Dotted(os, 0) == os[0] + ['.'] + rest
  {
    rest := os[1] + Dotted(os[1..][1..], 2);
    assert Dotted(os, 0) == os[0] + Dotted(os[1..], 1);
    assert Dotted(os[1..], 1) == "." + rest;
  }

  lemma Mapped(vs: seq<Byte>)
    requires |vs| == 4
    ensures Joined(V4_IN_V6_PREFIX, Some(vs))
            == Some([0, 0, 0, 0, 0, 0, 0, 0, 0, 0, 0xff, 0xff, vs[0], vs[1], vs[2], vs[3]])
  {
    assert V4_IN_V6_PREFIX + vs == [0, 0, 0, 0, 0, 0, 0, 0, 0, 0, 0xff, 0xff, vs[0], vs[1], vs[2], vs[3]];
  }

  /** A printed address of eight groups is read back, whatever the case of its digits. */
  lemma Ipv6RoundTrip(vs: seq<nat>, upper: bool)
    requires |vs| == 8 && forall k :: 0 <= k < 8 ==> vs[k] <= 0xFFFF
    ensures var r := ParsedIP(Row(Numerals(vs, 16, upper), None), 0);
            r.Some? && |r.value| == 16 && forall k :: 0 <= k < 8 ==> GroupAt(r.value, k) == vs[k]
  {
    var gs := Numerals(vs, 16, upper);
    GroupsRoundTrip(vs, upper);
    NumeralDenotes(vs[0], 16, upper);
    assert Row(gs, None) == gs[0] + [':'] + Row(gs[1..], None);
    NumberInFront(gs[0], 16, ':', Row(gs[1..], None));
  }
}
