/** The token at a position: its id, text, value and end, for every input. */
module Tokens {
  import opened Bytes
  import opened Literals
  import opened Names
  import opened Numerals
  import opened Octets
  import opened Scanning
  import opened Slices

  const SCONST := 57347
  const BCONST := 57348
  const BITCONST := 57349
  const ICONST := 57350
  const FCONST := 57351
  const PLACEHOLDER := 57352

  const ERR_UNTERMINATED: Text := "unterminated string"
  const ERR_UTF8: Text := "invalid UTF-8 byte sequence"
  const ERR_COMMENT: Text := "unterminated comment"
  const ERR_ESCAPE: Text := "invalid syntax"
  const ERR_HEX_NUMBER: Text := "invalid hexadecimal numeric literal"
  const ERR_FLOAT: Text := "invalid floating point literal"
  const ERR_HEX_BYTES: Text := "invalid hexadecimal bytes literal"

  /** The value of a token: the index of a placeholder, or the text that a number is made of. */
  datatype Value = NoValue | Index(n: nat) | Number(text: Text, float: bool)

  datatype Token = Token(id: int, str: Text, value: Value, end: nat)

  function Failed(message: Text, end: nat): Token {
    Token(ERROR, message, NoValue, end)
  }

  // Operators.

  const TYPECAST := 57353
  const TYPEANNOTATE := 57354
  const DOT_DOT := 57355
  const LESS_EQUALS := 57356
  const GREATER_EQUALS := 57357
  const NOT_EQUALS := 57358
  const NOT_REGMATCH := 57359
  const REGIMATCH := 57360
  const NOT_REGIMATCH := 57361
  const AND_AND := 57377
  const CBRT := 57412
  const CONCAT := 57432
  const CONTAINS := 57441
  const FETCHVAL := 57519
  const FETCHTEXT := 57520
  const FETCHVAL_PATH := 57521
  const FETCHTEXT_PATH := 57522
  const FLOORDIV := 57529
  const INET_CONTAINED_BY_OR_EQUALS := 57580
  const INET_CONTAINS_OR_EQUALS := 57581
  const JSON_SOME_EXISTS := 57606
  const JSON_ALL_EXISTS := 57607
  const LSHIFT := 57639
  const REMOVE_PATH := 57778
  const RSHIFT := 57801
  const SQRT := 57863
  const CONTAINED_BY := 57950
  const HELPTOKEN := 57954

  /** The operators of two characters. */
  function TwoChars(a: Octet, b: Octet): Option<int> {
    if a == '.' && b == '.' then Some(DOT_DOT)
    else if a == '!' && b == '=' then Some(NOT_EQUALS)
    else if a == '!' && b == '~' then Some(NOT_REGMATCH)
    else if a == '?' && b == '?' then Some(HELPTOKEN)
    else if a == '?' && b == '|' then Some(JSON_SOME_EXISTS)
    else if a == '?' && b == '&' then Some(JSON_ALL_EXISTS)
    else if a == '<' && b == '<' then Some(LSHIFT)
    else if a == '<' && b == '>' then Some(NOT_EQUALS)
    else if a == '<' && b == '=' then Some(LESS_EQUALS)
    else if a == '<' && b == '@' then Some(CONTAINED_BY)
    else if a == '>' && b == '>' then Some(RSHIFT)
    else if a == '>' && b == '=' then Some(GREATER_EQUALS)
    else if a == ':' && b == ':' then Some(TYPECAST)
    else if a == '|' && b == '|' then Some(CONCAT)
    else if a == '|' && b == '/' then Some(SQRT)
    else if a == '/' && b == '/' then Some(FLOORDIV)
    else if a == '~' && b == '*' then Some(REGIMATCH)
    else if a == '@' && b == '>' then Some(CONTAINS)
    else if a == '&' && b == '&' then Some(AND_AND)
    else if a == '-' && b == '>' then Some(FETCHVAL)
    else if a == '#' && b == '>' then Some(FETCHVAL_PATH)
    else if a == '#' && b == '-' then Some(REMOVE_PATH)
    else None
  }

  /** The operators of three characters. */
  function ThreeChars(a: Octet, b: Octet, c: Octet): Option<int> {
    if a == '!' && b == '~' && c == '*' then Some(NOT_REGIMATCH)
    else if a == '<' && b == '<' && c == '=' then Some(INET_CONTAINED_BY_OR_EQUALS)
    else if a == '>' && b == '>' && c == '=' then Some(INET_CONTAINS_OR_EQUALS)
    else if a == ':' && b == ':' && c == ':' then Some(TYPEANNOTATE)
    else if a == '|' && b == '|' && c == '/' then Some(CBRT)
    else if a == '-' && b == '>' && c == '>' then Some(FETCHTEXT)
    else if a == '#' && b == '>' && c == '>' then Some(FETCHTEXT_PATH)
    else None
  }

  /** The longest operator that the input goes on with: its id and length. A single character is its own. */
  function LongestOperator(s: Text, j: nat): (r: (int, nat))
    requires j < |s|
    ensures 1 <= r.1 <= 3 && j + r.1 <= |s|
  {
    if j + 2 < |s| && ThreeChars(s[j], s[j + 1], s[j + 2]).Some? then
      (ThreeChars(s[j], s[j + 1], s[j + 2]).value, 3)
    else if j + 1 < |s| && TwoChars(s[j], s[j + 1]).Some? then (TwoChars(s[j], s[j + 1]).value, 2)
    else (s[j] as int, 1)
  }

  lemma OperatorIds(a: Octet, b: Octet, c: Octet)
    ensures TwoChars(a, b).Some? ==> TwoChars(a, b).value > 255
    ensures ThreeChars(a, b, c).Some? ==> ThreeChars(a, b, c).value > 255 && TwoChars(a, b).Some?
  {}

  // Strings.

  /** NormalizeString */
  function Normalized(lib: Library, s: Text): Text {
    if IsAscii(s) then s else lib.nfc(s)
  }

  /** The ways in which scanString is called: the quote, the id, escapes, and the check for UTF-8. */
  datatype Style = Style(quote: Octet, id: int, escapes: bool, utf8: bool)

  const NAME_STYLE := Style('"', IDENT, false, true)
  const PLAIN_STYLE := Style('\'', SCONST, false, true)
  const ESCAPED_STYLE := Style('\'', SCONST, true, true)
  const BYTES_STYLE := Style('\'', BCONST, true, false)

  /** A quoted token whose text starts at i. */
  function StringAt(lib: Library, s: Text, i: nat, style: Style): (t: Token)
    requires i <= |s|
    ensures i <= t.end <= |s|
  {
    match Unquote(s, i, style.quote, style.escapes)
    case Open => Failed(ERR_UNTERMINATED, |s|)
    case Invalid(end) => Failed(ERR_ESCAPE, end)
    case Closed(text, end) =>
      if style.utf8 && !IsUtf8(text) then Failed(ERR_UTF8, end)
      else Token(style.id, if style.quote == '"' then Normalized(lib, text) else text, NoValue, end)
  }

  /** A dollar sign that starts no string stands for itself. */
  ghost function DollarTokenAt(s: Text, i: nat): (t: Token)
    requires i <= |s|
    ensures i <= t.end <= |s|
  {
    match DollarAt(s, i)
    case NotDollar(end) => Token('$' as int, "$", NoValue, end)
    case Unended => Failed(ERR_UNTERMINATED, |s|)
    case Body(text, end) => if IsUtf8(text) then Token(SCONST, text, NoValue, end) else Failed(ERR_UTF8, end)
  }

  function HexTokenAt(s: Text, i: nat): (t: Token)
    requires i <= |s|
    ensures i <= t.end <= |s|
  {
    match LiteralAt(s, i, true)
    case Wrong(_, end) => Failed(ERR_HEX_BYTES, end)
    case Digits(t, end) =>
      if |t| % 2 != 0 then Failed(ERR_HEX_BYTES, end) else Token(BCONST, HexBytes(t), NoValue, end)
  }

  /** fmt's %c of a byte, or of the end of the input, which is no character. */
  function Printed(c: Option<Octet>): Text {
    if c.Some? then EncodeRune(c.value as int) else EncodeRune(RUNE_ERROR)
  }

  const NOT_BINARY: Text := "\" is not a valid binary digit"

  function NotBinary(c: Option<Octet>): Text {
    ['"'] + Printed(c) + NOT_BINARY
  }

  function BitTokenAt(s: Text, i: nat): (t: Token)
    requires i <= |s|
    ensures i <= t.end <= |s|
  {
    match LiteralAt(s, i, false)
    case Wrong(c, end) => Failed(NotBinary(c), end)
    case Digits(t, end) => Token(BITCONST, t, NoValue, end)
  }

  // Numbers, placeholders and names.

  /** Leading zeros go, but for the last digit. */
  function StripZeros(t: Text): Text {
    if |t| > 1 && t[0] == '0' then StripZeros(t[1..]) else t
  }

  const NOT_MADE: Text := "could not make constant "
  const FLOAT_LITERAL: Text := "float from literal \""
  const INT_LITERAL: Text := "int from literal \""

  function NotANumber(t: Text, float: bool): Text {
    NOT_MADE + (if float then FLOAT_LITERAL else INT_LITERAL) + t + ['"']
  }

  function NumberToken(lib: Library, t: Text, float: bool, end: nat): Token {
    if lib.known(t, float) then Token(if float then FCONST else ICONST, t, Number(t, float), end)
    else Failed(NotANumber(t, float), end)
  }

  function NumberAt(lib: Library, s: Text, j: nat): (t: Token)
    requires StartsNumeral(s, j)
    ensures j < t.end <= |s|
  {
    match NumeralAt(s, j)
    case BadHex(end) => Failed(ERR_HEX_NUMBER, end)
    case BadExponent(end) => Failed(ERR_FLOAT, end)
    case Float(end) => NumberToken(lib, s[j..end], true, end)
    case Int(end) => NumberToken(lib, if IsHex(s, j) then s[j..end] else StripZeros(s[j..end]), false, end)
  }

  function DecimalValue(t: Text): nat
    requires AllDigits(t, 0, |t|)
  {
    if t == [] then 0 else DecimalValue(t[..|t| - 1]) * 10 + (t[|t| - 1] as int - '0' as int)
  }

  lemma {:induction false} ZeroInFront(t: Text)
    requires AllDigits(t, 0, |t|)
    ensures AllDigits(['0'] + t, 0, |t| + 1) && DecimalValue(['0'] + t) == DecimalValue(t)
    decreases |t|
  {
    var s := ['0'] + t;
    if t == [] {
      assert s[..0] == [];
    } else {
      assert s[..|s| - 1] == ['0'] + t[..|t| - 1];
      ZeroInFront(t[..|t| - 1]);
    }
  }

  /** What is left of a decimal number has its value and no leading zero. */
  lemma {:induction false} StrippedValue(t: Text)
    requires t != [] && AllDigits(t, 0, |t|)
    ensures var r := StripZeros(t);
            AllDigits(r, 0, |r|) && DecimalValue(r) == DecimalValue(t) && (r == ['0'] || (r != [] && r[0] != '0'))
    decreases |t|
  {
    if |t| > 1 && t[0] == '0' {
      assert t == ['0'] + t[1..];
      ZeroInFront(t[1..]);
      StrippedValue(t[1..]);
    }
  }

  const MAX_UINT64: nat := 0xFFFF_FFFF_FFFF_FFFF
  const MAX_PLACEHOLDERS: nat := 0x1_0000

  const BAD_INDEX: Text := "placeholder index must be between "
  const INDEX_RANGE: Text := "1 and 65536"

  const PARSING: Text := "strconv.ParseUint: parsing \""
  const OUT_OF_RANGE: Text := "\": value out of range"

  function TooLarge(t: Text): Text {
    PARSING + t + OUT_OF_RANGE
  }

  /** NewPlaceholder */
  function PlaceholderToken(t: Text, end: nat): Token
    requires AllDigits(t, 0, |t|)
  {
    var v := DecimalValue(t);
    if v > MAX_UINT64 then Failed(TooLarge(t), end)
    else if v == 0 || v > MAX_PLACEHOLDERS then Failed(BAD_INDEX + INDEX_RANGE, end)
    else Token(PLACEHOLDER, t, Index(v - 1), end)
  }

  /** The digits behind a dollar sign. */
  function PlaceholderAt(s: Text, i: nat): (t: Token)
    requires i <= |s|
    ensures i <= t.end <= |s|
  {
    PlaceholderToken(s[i..DigitsEnd(s, i)], DigitsEnd(s, i))
  }

  function NameAt(lib: Library, s: Text, j: nat): Token
    requires j <= |s|
  {
    var (id, str) := NameToken(lib, Folded(lib, s[j..NameEnd(s, j)]));
    Token(id, str, NoValue, NameEnd(s, j))
  }

  // All tokens.

  /** A letter in front of a single quote makes it a literal of some kind. */
  predicate StartsLiteral(s: Text, j: nat) {
    j < |s| && HasAt(s, j + 1, '\'') && (s[j] == 'b' || s[j] == 'B' || EAt(s, j) || XAt(s, j))
  }

  function LetterTokenAt(lib: Library, s: Text, j: nat): (t: Token)
    requires StartsLiteral(s, j)
    ensures j < t.end <= |s|
  {
    if s[j] == 'b' then StringAt(lib, s, j + 2, BYTES_STYLE)
    else if s[j] == 'B' then BitTokenAt(s, j + 2)
    else if EAt(s, j) then StringAt(lib, s, j + 2, ESCAPED_STYLE)
    else HexTokenAt(s, j + 2)
  }

  function OperatorAt(s: Text, j: nat): (t: Token)
    requires j < |s|
    ensures j < t.end <= |s|
  {
    var (id, n) := LongestOperator(s, j);
    Token(id, [s[j]], NoValue, j + n)
  }

  /** The token at position j, where no blank or comment starts. */
  ghost function TokenAt(lib: Library, s: Text, j: nat): Token
    requires j <= |s|
  {
    if j == |s| then Token(0, "EOF", NoValue, j)
    else if s[j] == '$' then if DigitAt(s, j + 1) then PlaceholderAt(s, j + 1) else DollarTokenAt(s, j + 1)
    else if s[j] == '"' then StringAt(lib, s, j + 1, NAME_STYLE)
    else if s[j] == '\'' then StringAt(lib, s, j + 1, PLAIN_STYLE)
    else if StartsLiteral(s, j) then LetterTokenAt(lib, s, j)
    else if StartsNumeral(s, j) then NumberAt(lib, s, j)
    else if IsIdentStart(s[j]) then NameAt(lib, s, j)
    else OperatorAt(s, j)
  }

  /** The operators of several characters by their names; not equal has another spelling too. */
  function Spelling(id: int): Text {
    if id == TYPECAST then "::"
    else if id == TYPEANNOTATE then ":::"
    else if id == DOT_DOT then ".."
    else if id == LESS_EQUALS then "<="
    else if id == GREATER_EQUALS then ">="
    else if id == NOT_EQUALS then "!="
    else if id == NOT_REGMATCH then "!~"
    else if id == REGIMATCH then "~*"
    else if id == NOT_REGIMATCH then "!~*"
    else if id == AND_AND then "&&"
    else if id == CBRT then "||/"
    else if id == CONCAT then "||"
    else if id == CONTAINS then "@>"
    else if id == FETCHVAL then "->"
    else if id == FETCHTEXT then "->>"
    else if id == FETCHVAL_PATH then "#>"
    else if id == FETCHTEXT_PATH then "#>>"
    else if id == FLOORDIV then "//"
    else if id == INET_CONTAINED_BY_OR_EQUALS then "<<="
    else if id == INET_CONTAINS_OR_EQUALS then ">>="
    else if id == JSON_SOME_EXISTS then "?|"
    else if id == JSON_ALL_EXISTS then "?&"
    else if id == LSHIFT then "<<"
    else if id == REMOVE_PATH then "#-"
    else if id == RSHIFT then ">>"
    else if id == SQRT then "|/"
    else if id == CONTAINED_BY then "<@"
    else if id == HELPTOKEN then "??"
    else ""
  }

  /** Every operator is read back from its spelling, all of it. */
  lemma SpellingRead(id: int)
    requires Spelling(id) != ""
    ensures LongestOperator(Spelling(id), 0) == (id, |Spelling(id)|)
  {}

  /** No operator that the input goes on with is longer, and what is found is spelled so. */
  lemma MaximalMunch(s: Text, j: nat)
    requires j < |s|
    ensures var (id, n) := LongestOperator(s, j);
            && (n > 1 ==> s[j..j + n] == Spelling(id) || s[j..j + n] == "<>")
            && forall other {:trigger Spelling(other)} :: Holds(s, j, Spelling(other)) ==> |Spelling(other)| <= n
  {
    var (id, n) := LongestOperator(s, j);
    forall other {:trigger Spelling(other)} | Holds(s, j, Spelling(other)) ensures |Spelling(other)| <= n {
      SpellingAt(s, j, other);
    }
  }

  lemma SpellingAt(s: Text, j: nat, id: int)
    requires j < |s| && Holds(s, j, Spelling(id))
    ensures |Spelling(id)| <= LongestOperator(s, j).1
  {
    var t := Spelling(id);
    if t != "" {
      SpellingRead(id);
      assert s[j + 0] == t[0] && s[j + 1] == t[1];
      if |t| > 2 { assert s[j + 2] == t[2]; }
    }
  }

  lemma OtherSpelling(s: Text)
    requires s == "<>"
    ensures LongestOperator(s, 0) == (NOT_EQUALS, 2)
  {}

  /** An operator has an id that no character has. */
  lemma OperatorId(s: Text, j: nat)
    requires j < |s|
    ensures LongestOperator(s, j).1 == 1 <==> LongestOperator(s, j).0 < 256
    ensures LongestOperator(s, j).1 == 1 ==> LongestOperator(s, j).0 == s[j] as int
  {
    if j + 1 < |s| { OperatorIds(s[j], s[j + 1], if j + 2 < |s| then s[j + 2] else NUL); }
  }

  /** Only the end of the input and a NUL byte have the id 0. Text and position tell the two apart. */
  lemma ZeroId(lib: Library, s: Text, j: nat)
    requires j <= |s| && lib.Valid()
    ensures var t := TokenAt(lib, s, j);
            && (t.id == 0 <==> j == |s| || s[j] == NUL)
            && (t.id == 0 ==> (t.str == "EOF" <==> j == |s|) && (t.end == j <==> j == |s|))
  {
    if j < |s| { OperatorId(s, j); }
  }

  /** Every token but the end of the input takes something of it, and none more than there is. */
  lemma Progress(lib: Library, s: Text, j: nat)
    requires j < |s|
    ensures j < TokenAt(lib, s, j).end <= |s|
  {
    if IsIdentStart(s[j]) { NameTaken(lib, s, j); }
  }

  lemma NameTaken(lib: Library, s: Text, j: nat)
    requires j < |s| && IsIdentStart(s[j])
    ensures j < NameAt(lib, s, j).end <= |s|
  {
    assert IsIdentMiddle(s[j]);
  }

  /** The decimal digits of a number, as they are printed behind the dollar sign. */
  function DecimalText(n: nat): (t: Text)
    ensures t != [] && AllDigits(t, 0, |t|)
  {
    var last: Octet := ('0' as int + n % 10) as char;
    if n < 10 then [last] else DecimalText(n / 10) + [last]
  }

  lemma {:induction false} DecimalRoundTrip(n: nat)
    ensures DecimalValue(DecimalText(n)) == n
  {
    var t := DecimalText(n);
    if n < 10 {
      assert t[..0] == [] && DecimalValue([]) == 0;
    } else {
      DecimalRoundTrip(n / 10);
      assert t[..|t| - 1] == DecimalText(n / 10);
    }
  }

  /** Digits up to the end of the input behind a dollar sign. */
  lemma PlaceholderRead(lib: Library, t: Text)
    requires t != [] && AllDigits(t, 0, |t|)
    ensures TokenAt(lib, ['$'] + t, 0) == PlaceholderToken(t, |t| + 1)
  {
    var s := ['$'] + t;
    forall k | 1 <= k < |s| ensures IsDigit(s[k]) { assert s[k] == t[k - 1]; }
    DigitsEndIs(s, 1, |s|);
    assert s[1..|s|] == t;
  }

  /** A printed placeholder is read back, exactly for the indexes there are. */
  lemma PlaceholderRoundTrip(lib: Library, n: nat)
    ensures var t := TokenAt(lib, ['$'] + DecimalText(n), 0);
            if 1 <= n <= 65536 then
              t == Token(PLACEHOLDER, DecimalText(n), Index(n - 1), |DecimalText(n)| + 1)
            else t.id == ERROR && t.value == NoValue
  {
    PlaceholderRead(lib, DecimalText(n));
    DecimalRoundTrip(n);
  }

  /** Bytes printed in hexadecimal, anywhere in the input, where it does not go on with the literal. */
  lemma HexRoundTrip(lib: Library, s: Text, j: nat, b: Text, upper: bool)
    requires Holds(s, j, ['x', '\''] + (PrintHexBytes(b, upper) + ['\''])) && !Continues(s, j + 2 * |b| + 3, '\'')
    ensures TokenAt(lib, s, j) == Token(BCONST, b, NoValue, SkipBlanks(s, j + 2 * |b| + 3).0)
  {
    HexLiteral(s, j, b, upper);
    assert TokenAt(lib, s, j) == LetterTokenAt(lib, s, j);
  }

  lemma HexLiteral(s: Text, j: nat, b: Text, upper: bool)
    requires Holds(s, j, ['x', '\''] + (PrintHexBytes(b, upper) + ['\''])) && !Continues(s, j + 2 * |b| + 3, '\'')
    ensures s[j] == 'x' && s[j + 1] == '\''
    ensures HexTokenAt(s, j + 2) == Token(BCONST, b, NoValue, SkipBlanks(s, j + 2 * |b| + 3).0)
  {
    var head: Text := ['x', '\''];
    HoldsParts(s, j, head, PrintHexBytes(b, upper) + ['\'']);
    assert s[j + 0] == head[0] && s[j + 1] == head[1];
    HexRead(s, j + 2, b, upper);
  }
}
