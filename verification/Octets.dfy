/** The bytes of Go strings, and characters in UTF-8. */
module Octets {
  /** A byte of a Go string. */
  type Octet = c: char | c as int < 256 witness ' '

  type Text = seq<Octet>

  const NUL: Octet := 0 as char
  const FORM_FEED: Octet := 12 as char

  predicate IsDigit(c: Octet) {
    '0' <= c <= '9'
  }

  predicate IsUpper(c: Octet) {
    'A' <= c <= 'Z'
  }

  predicate IsHexDigit(c: Octet) {
    IsDigit(c) || 'a' <= c <= 'f' || 'A' <= c <= 'F'
  }

  /** The value of a hexadecimal digit. */
  function HexValue(c: Octet): (v: nat)
    requires IsHexDigit(c)
    ensures v < 16
  {
    if IsDigit(c) then c as int - '0' as int
    else if c >= 'a' then c as int - 'a' as int + 10
    else c as int - 'A' as int + 10
  }

  predicate IsIdentStart(c: Octet) {
    IsUpper(c) || 'a' <= c <= 'z' || c == '_' || c as int >= 128
  }

  predicate IsIdentMiddle(c: Octet) {
    IsIdentStart(c) || IsDigit(c) || c == '$'
  }

  // The same by tables.

  const DIGITS: Text := "0123456789"
  const LOWER_CASE: Text := "abcdefghijklmnopqrstuvwxyz"
  const UPPER_CASE: Text := "ABCDEFGHIJKLMNOPQRSTUVWXYZ"
  const HEX_LOWER: Text := "0123456789abcdef"
  const HEX_UPPER: Text := "0123456789ABCDEF"

  lemma LetterTable(k: nat)
    requires k < 26
    ensures UPPER_CASE[k] as int == 'A' as int + k && LOWER_CASE[k] as int == 'a' as int + k
  {}

  lemma HexTable(k: nat)
    requires k < 16
    ensures HEX_LOWER[k] as int == (if k < 10 then '0' as int else 'a' as int - 10) + k
    ensures HEX_UPPER[k] as int == (if k < 10 then '0' as int else 'A' as int - 10) + k
  {}

  /** The value of a digit is its place in one of the tables. */
  lemma HexValueTable(c: Octet, v: nat)
    ensures IsHexDigit(c) && HexValue(c) == v <==> v < 16 && (c == HEX_LOWER[v] || c == HEX_UPPER[v])
  {
    if v < 16 { HexTable(v); }
  }

  lemma DigitTable(c: Octet)
    ensures IsDigit(c) <==> c in DIGITS
  {
    if IsDigit(c) { assert c == DIGITS[c as int - '0' as int]; }
  }

  lemma UpperTable(c: Octet)
    ensures IsUpper(c) <==> c in UPPER_CASE
  {
    if IsUpper(c) { LetterTable(c as int - 'A' as int); }
    if c in UPPER_CASE {
      var k :| 0 <= k < 26 && c == UPPER_CASE[k];
      LetterTable(k);
    }
  }

  lemma LowerTable(c: Octet)
    ensures 'a' <= c <= 'z' <==> c in LOWER_CASE
  {
    if 'a' <= c <= 'z' { LetterTable(c as int - 'a' as int); }
    if c in LOWER_CASE {
      var k :| 0 <= k < 26 && c == LOWER_CASE[k];
      LetterTable(k);
    }
  }

  /** The characters of names. */
  lemma NameTable(c: Octet)
    ensures IsIdentStart(c) <==> c in UPPER_CASE || c in LOWER_CASE || c == '_' || c as int >= 128
    ensures IsIdentMiddle(c) <==> IsIdentStart(c) || c in DIGITS || c == '$'
  {
    DigitTable(c);
    UpperTable(c);
    LowerTable(c);
  }

  predicate IsAscii(s: string) {
    forall i :: 0 <= i < |s| ==> s[i] as int < 128
  }

  predicate HasAt(s: Text, i: int, c: Octet) {
    0 <= i < |s| && s[i] == c
  }

  // UTF-8: section 4 of RFC 3629.

  predicate Between(s: Text, i: nat, lo: int, hi: int) {
    i < |s| && lo <= s[i] as int <= hi
  }

  /** The length of the character that s starts with, or 0 when it is not well formed. */
  function RuneLength(s: Text): (n: nat)
    requires s != []
    ensures n <= 4 && n <= |s|
  {
    var c := s[0] as int;
    if c < 0x80 then 1
    else if 0xC2 <= c <= 0xDF then if Between(s, 1, 0x80, 0xBF) then 2 else 0
    else if 0xE0 <= c <= 0xEF then
      if Between(s, 1, if c == 0xE0 then 0xA0 else 0x80, if c == 0xED then 0x9F else 0xBF) && Between(s, 2, 0x80, 0xBF)
      then 3 else 0
    else if 0xF0 <= c <= 0xF4 then
      if Between(s, 1, if c == 0xF0 then 0x90 else 0x80, if c == 0xF4 then 0x8F else 0xBF)
         && Between(s, 2, 0x80, 0xBF) && Between(s, 3, 0x80, 0xBF)
      then 4 else 0
    else 0
  }

  /** utf8.Valid */
  predicate IsUtf8(s: Text) {
    s == [] || (RuneLength(s) > 0 && IsUtf8(s[RuneLength(s)..]))
  }

  lemma {:induction false} AsciiIsUtf8(s: Text)
    requires IsAscii(s)
    ensures IsUtf8(s)
  {
    if s != [] {
      assert s[0] as int < 128;
      AsciiIsUtf8(s[1..]);
    }
  }

  const MAX_RUNE := 0x10FFFF

  predicate ValidRune(r: int) {
    0 <= r <= MAX_RUNE && !(0xD800 <= r <= 0xDFFF)
  }

  const RUNE_ERROR := 0xFFFD

  /** The character at the front and its length: bytes that are not well formed count as errors one by one. */
  function DecodeRune(s: Text): (r: (int, nat))
    requires s != []
    ensures 1 <= r.1 <= |s|
  {
    var n := RuneLength(s);
    if n == 0 then (RUNE_ERROR, 1)
    else if n == 1 then (s[0] as int, 1)
    else if n == 2 then ((s[0] as int - 0xC0) * 0x40 + Low(s[1]), 2)
    else if n == 3 then ((s[0] as int - 0xE0) * 0x1000 + Low(s[1]) * 0x40 + Low(s[2]), 3)
    else ((s[0] as int - 0xF0) * 0x4_0000 + Low(s[1]) * 0x1000 + Low(s[2]) * 0x40 + Low(s[3]), 4)
  }

  /** What a byte behind the first contributes. */
  function Low(c: Octet): int {
    c as int - 0x80
  }

  function Behind(v: int): Octet
    requires 0 <= v < 0x40
  {
    (0x80 + v) as char
  }

  /** utf8.RuneLen */
  function RuneLen(r: int): nat
    requires ValidRune(r)
  {
    if r < 0x80 then 1 else if r < 0x800 then 2 else if r < 0x1_0000 then 3 else 4
  }

  /** utf8.EncodeRune of a valid rune */
  function EncodeRune(r: int): Text
    requires ValidRune(r)
  {
    if r < 0x80 then [r as char]
    else if r < 0x800 then [(0xC0 + r / 0x40) as char, Behind(r % 0x40)]
    else if r < 0x1_0000 then [(0xE0 + r / 0x1000) as char, Behind(r / 0x40 % 0x40), Behind(r % 0x40)]
    else [(0xF0 + r / 0x4_0000) as char, Behind(r / 0x1000 % 0x40), Behind(r / 0x40 % 0x40), Behind(r % 0x40)]
  }

  lemma LastSextet(a: nat, c: nat)
    requires c < 0x40
    ensures (a * 0x40 + c) / 0x40 == a && (a * 0x40 + c) % 0x40 == c
  {}

  lemma TwoSextets(a: nat, b: nat, c: nat)
    requires b < 0x40 && c < 0x40
    ensures var r := a * 0x1000 + b * 0x40 + c;
            r / 0x1000 == a && r / 0x40 == a * 0x40 + b && r / 0x40 % 0x40 == b && r % 0x40 == c
  {
    LastSextet(a * 0x40 + b, c);
    LastSextet(a, b);
  }

  lemma ThreeSextets(a: nat, b: nat, c: nat, d: nat)
    requires b < 0x40 && c < 0x40 && d < 0x40
    ensures var r := a * 0x4_0000 + b * 0x1000 + c * 0x40 + d;
            r / 0x4_0000 == a && r / 0x1000 % 0x40 == b && r / 0x40 % 0x40 == c && r % 0x40 == d
  {
    TwoSextets(a * 0x40 + b, c, d);
    LastSextet(a, b);
  }

  /** A well-formed character is a valid rune, and encoding it gives its bytes back. */
  lemma EncodeDecode(s: Text)
    requires s != [] && RuneLength(s) > 0
    ensures var (r, n) := DecodeRune(s);
            ValidRune(r) && n == RuneLength(s) == RuneLen(r) && EncodeRune(r) == s[..n]
  {
    var n := RuneLength(s);
    if n == 2 { EncodeTwo(s); } else if n == 3 { EncodeThree(s); } else if n == 4 { EncodeFour(s); }
  }

  lemma EncodeTwo(s: Text)
    requires s != [] && RuneLength(s) == 2
    ensures var (r, n) := DecodeRune(s); ValidRune(r) && RuneLen(r) == 2 && EncodeRune(r) == s[..2]
  {
    LastSextet(s[0] as int - 0xC0, Low(s[1]));
  }

  lemma EncodeThree(s: Text)
    requires s != [] && RuneLength(s) == 3
    ensures var (r, n) := DecodeRune(s); ValidRune(r) && RuneLen(r) == 3 && EncodeRune(r) == s[..3]
  {
    TwoSextets(s[0] as int - 0xE0, Low(s[1]), Low(s[2]));
  }

  lemma EncodeFour(s: Text)
    requires s != [] && RuneLength(s) == 4
    ensures var (r, n) := DecodeRune(s); ValidRune(r) && RuneLen(r) == 4 && EncodeRune(r) == s[..4]
  {
    ThreeSextets(s[0] as int - 0xF0, Low(s[1]), Low(s[2]), Low(s[3]));
  }

  /** Every valid rune is encoded as a well-formed character, whatever follows it. */
  lemma DecodeEncode(r: int, rest: Text)
    requires ValidRune(r)
    ensures var s := EncodeRune(r) + rest; RuneLength(s) == RuneLen(r) && DecodeRune(s) == (r, RuneLen(r))
  {
    var s := EncodeRune(r) + rest;
    if RuneLen(r) == 2 {
      LeadTwo(r, s);
    } else if RuneLen(r) == 3 {
      LeadThree(r, s);
    } else if RuneLen(r) == 4 {
      LeadFour(r, s);
    }
  }

  lemma LeadTwo(r: int, s: Text)
    requires ValidRune(r) && RuneLen(r) == 2 && |s| >= 2
    requires s[0] as int == 0xC0 + r / 0x40 && s[1] == Behind(r % 0x40)
    ensures RuneLength(s) == 2 && DecodeRune(s) == (r, 2)
  {
    assert r == r / 0x40 * 0x40 + r % 0x40;
  }

  lemma LeadThree(r: int, s: Text)
    requires ValidRune(r) && RuneLen(r) == 3 && |s| >= 3
    requires s[0] as int == 0xE0 + r / 0x1000 && s[1] == Behind(r / 0x40 % 0x40) && s[2] == Behind(r % 0x40)
    ensures RuneLength(s) == 3 && DecodeRune(s) == (r, 3)
  {
    SplitSextets(r);
    ThreeOctets(r / 0x1000, r / 0x40 % 0x40, r % 0x40, s);
  }

  lemma SplitSextets(r: nat)
    ensures r == r / 0x1000 * 0x1000 + r / 0x40 % 0x40 * 0x40 + r % 0x40
  {}

  lemma ThreeOctets(a: nat, b: nat, c: nat, s: Text)
    requires ValidRune(a * 0x1000 + b * 0x40 + c) && b < 0x40 && c < 0x40 && 0x800 <= a * 0x1000 + b * 0x40 && a < 16
    requires |s| >= 3 && s[0] as int == 0xE0 + a && s[1] == Behind(b) && s[2] == Behind(c)
    ensures RuneLength(s) == 3 && DecodeRune(s) == (a * 0x1000 + b * 0x40 + c, 3)
  {}

  lemma LeadFour(r: int, s: Text)
    requires ValidRune(r) && RuneLen(r) == 4 && |s| >= 4
    requires s[0] as int == 0xF0 + r / 0x4_0000 && s[1] == Behind(r / 0x1000 % 0x40)
    requires s[2] == Behind(r / 0x40 % 0x40) && s[3] == Behind(r % 0x40)
    ensures RuneLength(s) == 4 && DecodeRune(s) == (r, 4)
  {
    SplitSextets(r);
    SplitHigh(r);
    FourOctets(r / 0x4_0000, r / 0x1000 % 0x40, r / 0x40 % 0x40, r % 0x40, s);
  }

  lemma SplitHigh(r: nat)
    ensures r / 0x1000 == r / 0x4_0000 * 0x40 + r / 0x1000 % 0x40
  {}

  lemma FourOctets(a: nat, b: nat, c: nat, d: nat, s: Text)
    requires b < 0x40 && c < 0x40 && d < 0x40 && 0x1_0000 <= a * 0x4_0000 + b * 0x1000 && a * 0x40 + b <= 0x10F
    requires |s| >= 4 && s[0] as int == 0xF0 + a && s[1] == Behind(b) && s[2] == Behind(c) && s[3] == Behind(d)
    ensures RuneLength(s) == 4 && DecodeRune(s) == (a * 0x4_0000 + b * 0x1000 + c * 0x40 + d, 4)
  {}

  /** All bytes of a character but the first are continuation bytes. */
  lemma Continuation(s: Text, i: nat)
    requires s != [] && 0 < i < DecodeRune(s).1
    ensures 0x80 <= s[i] as int <= 0xBF
  {}
}
