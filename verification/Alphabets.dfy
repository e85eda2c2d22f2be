/** Which characters the scanner and the printers treat alike, by tables of their own. */
module Alphabets {
  import opened Bytes
  import opened Escapes
  import opened Numerals
  import opened Octets
  import opened Scanning
  import opened SqlText
  import opened Tokens

  /** Tabulator, newline, form feed, carriage return and space. */
  const BLANK_CODES: set<int> := {9, 10, 12, 13, 32}

  lemma BlankTable(c: Octet)
    ensures IsBlank(c) || c == '\n' <==> c as int in BLANK_CODES
  {}

  /** Tags are names without dollar signs, but may start with a digit. */
  lemma TagTable(c: Octet)
    ensures IsTagChar(c) <==> c in UPPER_CASE || c in LOWER_CASE || c in DIGITS || c == '_' || c as int >= 128
  {
    NameTable(c);
    DigitTable(c);
  }

  const SIGNS: Text := "+-"
  const HEX_MARKS: Text := "xX"
  const EXPONENT_MARKS: Text := "eE"

  /** The marks inside numbers. */
  lemma MarkTable(s: Text, i: nat)
    ensures IsHex(s, i) <==> i + 1 < |s| && s[i] == '0' && s[i + 1] in HEX_MARKS
    ensures EAt(s, i) <==> i < |s| && s[i] in EXPONENT_MARKS
    ensures SignEnd(s, i) == if i < |s| && s[i] in SIGNS then i + 1 else i
  {}

  const LITERAL_LETTERS: Text := "bBeExX"

  lemma LiteralTable(s: Text, j: nat)
    ensures StartsLiteral(s, j) <==> j + 1 < |s| && s[j + 1] == '\'' && s[j] in LITERAL_LETTERS
  {}

  /** The letters of escapes, and the digits of octal ones. */
  const ESCAPE_LETTERS: Text := "abfnrtv\\xXuU01234567"

  lemma EscapeTable(c: Octet)
    ensures IsEscapeLetter(c) <==> c in ESCAPE_LETTERS
  {}

  /** The printers have a letter for what the scanner has one for, apart from BEL and VT. */
  lemma LetterPrinted(c: Octet, l: Octet)
    ensures Letter(c) == Some(l) <==> Simple(l) == Some(c) && c as int != 7 && c as int != 11
  {}

  const PUNCTUATION: Text := " !\"#$%&'()*+,-./:;<=>?@[\\]^_`{|}~"

  lemma PunctuationTable(c: Octet)
    ensures c in PUNCTUATION <==>
      ' ' <= c <= '/' || ':' <= c <= '@' || '[' <= c <= '`' || '{' <= c <= '~'
  {}

  /** Printable ASCII. */
  lemma PrintableTable(c: Octet)
    ensures Printable(c) <==> c in UPPER_CASE || c in LOWER_CASE || c in DIGITS || c in PUNCTUATION
  {
    UpperTable(c);
    LowerTable(c);
    DigitTable(c);
    PunctuationTable(c);
  }

  const NOT_BARE: Text := " ,{}'\\"

  /** What is printed without quotes when none are asked for. */
  lemma BareTable(s: Text)
    ensures MayBeBare(s) <==> forall i :: 0 <= i < |s| ==> Printable(s[i]) && s[i] !in NOT_BARE
  {}

  const BLOCK_OPENS: Text := "/*"
  const LINE_OPENS: Text := "--"

  lemma CommentTable(s: Text, i: nat)
    requires i <= |s|
    ensures CommentAt(s, i) != Absent <==> i + 2 <= |s| && (s[i..i + 2] == BLOCK_OPENS || s[i..i + 2] == LINE_OPENS)
    ensures CommentAt(s, i) == Unterminated ==> i + 2 <= |s| && s[i..i + 2] == BLOCK_OPENS
  {}
}
