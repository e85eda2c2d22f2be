/** Backslash escapes: what strconv.UnquoteChar reads (Go 1.16) and what string_encoding.go writes. */
module Escapes {
  import opened Bytes
  import opened Slices
  import opened Octets

  // Hexadecimal numbers.

  predicate AllHex(s: Text, i: nat, n: nat) {
    i + n <= |s| && forall k :: i <= k < i + n ==> IsHexDigit(s[k])
  }

  function HexNumber(s: Text, i: nat, n: nat): nat
    requires AllHex(s, i, n)
  {
    if n == 0 then 0 else HexNumber(s, i, n - 1) * 16 + HexValue(s[i + n - 1])
  }

  function HexChar(v: nat, upper: bool): (c: Octet)
    requires v < 16
    ensures IsHexDigit(c) && HexValue(c) == v
  {
    if v < 10 then ('0' as int + v) as char
    else if upper then ('A' as int + v - 10) as char
    else ('a' as int + v - 10) as char
  }

  /** The number has no more than n digits. */
  predicate HasDigits(v: nat, n: nat) {
    if n == 0 then v == 0 else HasDigits(v / 16, n - 1)
  }

  function PrintHex(v: nat, n: nat, upper: bool): (t: Text)
    ensures |t| == n
  {
    if n == 0 then [] else PrintHex(v / 16, n - 1, upper) + [HexChar(v % 16, upper)]
  }

  lemma {:induction false} ReadHex(s: Text, i: nat, v: nat, n: nat, upper: bool)
    requires Holds(s, i, PrintHex(v, n, upper)) && HasDigits(v, n)
    ensures AllHex(s, i, n) && HexNumber(s, i, n) == v
    decreases n
  {
    if n > 0 {
      HoldsParts(s, i, PrintHex(v / 16, n - 1, upper), [HexChar(v % 16, upper)]);
      assert s[i + (n - 1) + 0] == [HexChar(v % 16, upper)][0];
      ReadHex(s, i, v / 16, n - 1, upper);
    }
  }

  /** Digits behind a head of two characters. */
  lemma ReadHexBehind(s: Text, i: nat, head: Text, v: nat, n: nat, upper: bool)
    requires |head| == 2 && Holds(s, i, head + PrintHex(v, n, upper)) && HasDigits(v, n)
    ensures s[i] == head[0] && s[i + 1] == head[1]
    ensures var t := s[i..]; AllHex(t, 2, n) && HexNumber(t, 2, n) == v
  {
    var t, digits := s[i..], PrintHex(v, n, upper);
    HoldsParts(s, i, head, digits);
    assert s[i + 0] == head[0] && s[i + 1] == head[1];
    forall k {:trigger digits[k]} | 0 <= k < n ensures t[2 + k] == digits[k] { assert s[i + 2 + k] == digits[k]; }
    ReadHex(t, 2, v, n, upper);
  }

  lemma ByteHasDigits(v: nat)
    requires v < 0x100
    ensures HasDigits(v, 2)
  {
    assert HasDigits(v / 16 / 16, 0);
  }

  lemma ShortHasDigits(v: nat)
    requires v < 0x1_0000
    ensures HasDigits(v, 4)
  {
    ByteHasDigits(v / 16 / 16);
    assert HasDigits(v / 16, 3);
  }

  lemma RuneHasDigits(v: nat)
    requires v <= 0x10FFFF
    ensures HasDigits(v, 8)
  {
    ShortHasDigits(v / 16 / 16 / 16 / 16);
    assert HasDigits(v / 16 / 16, 6);
    assert HasDigits(v / 16, 7);
  }

  // Reading.

  predicate IsOctal(c: Octet) {
    '0' <= c <= '7'
  }

  /** The escapes of one letter. */
  function Simple(c: Octet): Option<Octet> {
    if c == 'a' then Some(7 as char)
    else if c == 'b' then Some(8 as char)
    else if c == 'f' then Some(12 as char)
    else if c == 'n' then Some(10 as char)
    else if c == 'r' then Some(13 as char)
    else if c == 't' then Some(9 as char)
    else if c == 'v' then Some(11 as char)
    else if c == '\\' then Some('\\')
    else None
  }

  /** A byte, or the number of a character that may take several. */
  predicate IsValue(r: Unquoted)
    requires r.Unquoted?
  {
    0 <= r.value <= if r.multibyte then MAX_RUNE else 255
  }

  datatype Unquoted = BadSyntax | Unquoted(value: int, multibyte: bool, length: nat)

  /** A hexadecimal escape of n digits. */
  function HexEscape(s: Text, n: nat): (r: Unquoted)
    ensures r.Unquoted? ==> r.length == n + 2 <= |s| && IsValue(r)
  {
    if !AllHex(s, 2, n) then BadSyntax
    else
      var v := HexNumber(s, 2, n);
      if n == 2 then HexBound(s, 2); Unquoted(v, false, 4)
      else if v <= MAX_RUNE then Unquoted(v, true, n + 2) else BadSyntax
  }

  /** strconv.UnquoteChar of a text that starts with a backslash. */
  function UnquoteChar(s: Text, quote: Octet): (r: Unquoted)
    requires |s| >= 2 && s[0] == '\\'
    ensures r.Unquoted? ==> 2 <= r.length <= |s| && IsValue(r)
  {
    var c := s[1];
    if Simple(c).Some? then Unquoted(Simple(c).value as int, false, 2)
    else if c == 'x' then HexEscape(s, 2)
    else if c == 'u' then HexEscape(s, 4)
    else if c == 'U' then HexEscape(s, 8)
    else if IsOctal(c) then
      if |s| < 4 || !IsOctal(s[2]) || !IsOctal(s[3]) then BadSyntax
      else
        var v := (c as int - 48) * 64 + (s[2] as int - 48) * 8 + (s[3] as int - 48);
        if v > 255 then BadSyntax else Unquoted(v, false, 4)
    else if c == quote && (c == '\'' || c == '"') then Unquoted(c as int, false, 2)
    else BadSyntax
  }

  lemma HexBound(s: Text, i: nat)
    requires AllHex(s, i, 2)
    ensures HexNumber(s, i, 2) < 256
  {
    assert HexNumber(s, i, 1) == HexValue(s[i]);
  }

  /** The bytes of what has been unquoted: one byte, or the bytes of a character; a surrogate is an error. */
  function UnquotedBytes(u: Unquoted): (t: Text)
    requires u.Unquoted? && IsValue(u)
  {
    if u.value < 0x80 || !u.multibyte then [u.value as char]
    else EncodeRune(if ValidRune(u.value) then u.value else RUNE_ERROR)
  }

  /** The characters that the scanner hands to UnquoteChar when they follow a backslash. */
  predicate IsEscapeLetter(c: Octet) {
    Simple(c).Some? || c == 'x' || c == 'X' || c == 'u' || c == 'U' || IsOctal(c)
  }

  datatype Escaped = BadEscape | Escaped(bytes: Text, next: nat)

  /** The escape at position i; an upper-case X is read as the other one. */
  function EscapeAt(s: Text, i: nat, quote: Octet): (e: Escaped)
    requires i + 1 < |s| && s[i] == '\\'
    ensures e.Escaped? ==> i + 2 <= e.next <= |s|
  {
    var tmp := EscapeText(s, i);
    var u := UnquoteChar(tmp, quote);
    if u == BadSyntax then BadEscape else Escaped(UnquotedBytes(u), i + u.length)
  }

  function EscapeText(s: Text, i: nat): (tmp: Text)
    requires i + 1 < |s| && s[i] == '\\'
    ensures 2 <= |tmp| <= |s| - i && tmp[0] == '\\'
  {
    if s[i + 1] == 'X' && |s| - (i + 1) >= 3 then ['\\', 'x'] + s[i + 2..i + 4] else s[i..]
  }

  // Writing.

  /** EncodeMap: the bytes that have a letter. */
  function Letter(c: Octet): (l: Option<Octet>)
    ensures l.Some? ==> Simple(l.value) == Some(c)
  {
    if c as int == 8 then Some('b')
    else if c as int == 12 then Some('f')
    else if c as int == 10 then Some('n')
    else if c as int == 13 then Some('r')
    else if c as int == 9 then Some('t')
    else if c == '\\' then Some('\\')
    else None
  }

  /** HexMap */
  function HexMap(c: Octet): Text {
    ['\\', 'x'] + PrintHex(c as int, 2, false)
  }

  predicate Printable(c: Octet) {
    0x20 <= c as int < 0x7F
  }

  /** A byte as it stands between single quotes behind e or b. */
  function EscapedByte(c: Octet): (t: Text)
    ensures t != []
  {
    if Letter(c).Some? then ['\\', Letter(c).value]
    else if c == '\'' then ['\\', c]
    else if !Printable(c) then HexMap(c)
    else [c]
  }

  lemma HexMapRead(s: Text, i: nat, c: Octet)
    requires Holds(s, i, HexMap(c))
    ensures s[i] == '\\' && IsEscapeLetter(s[i + 1]) && EscapeAt(s, i, '\'') == Escaped([c], i + 4)
  {
    ByteHasDigits(c as int);
    ReadHexBehind(s, i, ['\\', 'x'], c as int, 2, false);
  }

  /** The long escapes of a character. */
  function RuneEscape(r: int): Text
    requires ValidRune(r)
  {
    if RuneLen(r) == 2 then ['\\', 'u'] + PrintHex(r, 4, true) else ['\\', 'U'] + PrintHex(r, 8, true)
  }

  lemma RuneEscapeRead(s: Text, i: nat, r: int)
    requires ValidRune(r) && r >= 0x80 && Holds(s, i, RuneEscape(r))
    ensures s[i] == '\\' && IsEscapeLetter(s[i + 1])
    ensures EscapeAt(s, i, '\'') == Escaped(EncodeRune(r), i + |RuneEscape(r)|)
  {
    if RuneLen(r) == 2 {
      ShortHasDigits(r);
      LongEscapeRead(s, i, 'u', r, 4);
    } else {
      RuneHasDigits(r);
      LongEscapeRead(s, i, 'U', r, 8);
    }
  }

  lemma LongEscapeRead(s: Text, i: nat, letter: Octet, r: int, n: nat)
    requires ValidRune(r) && r >= 0x80 && HasDigits(r, n) && (if letter == 'u' then n == 4 else letter == 'U' && n == 8)
    requires Holds(s, i, ['\\', letter] + PrintHex(r, n, true))
    ensures s[i] == '\\' && IsEscapeLetter(s[i + 1])
    ensures EscapeAt(s, i, '\'') == Escaped(EncodeRune(r), i + n + 2)
  {
    ReadHexBehind(s, i, ['\\', letter], r, n, true);
  }
}
