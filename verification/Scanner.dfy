/** scan.go: the scanner of SQL. */
module Scanner {
  import opened Bytes
  import opened EndTags
  import opened Escapes
  import opened Literals
  import opened Names
  import opened Numerals
  import opened Octets
  import opened Readers
  import opened Scanning
  import opened Tokens

  /** The token under construction. Its value stays when a token has none. */
  class Sym {
    var id: int
    var pos: int
    var str: Text
    var value: Value

    constructor ()
      ensures id == 0 && value == NoValue
    {
      id, pos, str, value := 0, 0, [], NoValue;
    }

    ghost predicate Shows(t: Token, before: Value)
      reads this
    {
      id == t.id && str == t.str && value == if t.value == NoValue then before else t.value
    }

    method Fail(message: Text)
      modifies this
      ensures id == ERROR && str == message && unchanged(`pos, `value)
    {
      id, str := ERROR, message;
    }
  }

  /** Where reading a numeral fails, and with what message. */
  predicate FailsAt(s: Text, start: nat, pos: nat, message: Text)
    requires StartsNumeral(s, start)
  {
    var n := NumeralAt(s, start);
    pos == n.end && ((n.BadHex? && message == ERR_HEX_NUMBER) || (n.BadExponent? && message == ERR_FLOAT))
  }

  class Scanner {
    const input: Text
    const lib: Library
    var pos: nat

    ghost predicate Valid()
      reads this
    {
      pos <= |input|
    }

    constructor Init(str: Text, library: Library)
      ensures Valid() && input == str && lib == library && pos == 0
    {
      input, lib, pos := str, library, 0;
    }

    function Peek(): (c: Option<Octet>)
      reads this
      ensures c == if pos < |input| then Some(input[pos]) else None
    {
      if pos >= |input| then None else Some(input[pos])
    }

    method Next() returns (c: Option<Octet>)
      requires Valid()
      modifies this`pos
      ensures Valid()
      ensures old(pos) < |input| ==> c == Some(input[old(pos)]) && pos == old(pos) + 1
      ensures old(pos) == |input| ==> c == None && pos == old(pos)
    {
      c := Peek();
      if c != None { pos := pos + 1; }
    }

    /** Blanks only: the form used between adjacent strings. */
    method SkipBlanksOnly() returns (newline: bool)
      requires Valid()
      modifies this`pos
      ensures Valid() && (pos, newline) == SkipBlanks(input, old(pos))
    {
      newline := false;
      while true
        invariant Valid()
        invariant SkipBlanks(input, old(pos)) == (SkipBlanks(input, pos).0, newline || SkipBlanks(input, pos).1)
        decreases |input| - pos
      {
        var ch := Peek();
        if ch == Some('\n') {
          pos := pos + 1;
          newline := true;
          continue;
        }
        if ch.Some? && IsBlank(ch.value) {
          pos := pos + 1;
          continue;
        }
        break;
      }
    }

    /** Blanks and comments before a token; the result says whether every comment ended. */
    method SkipWhitespace(lval: Sym) returns (ok: bool)
      requires Valid()
      modifies this`pos, lval
      ensures Valid()
      ensures match SkipAll(input, old(pos))
              case At(j) => ok && pos == j && unchanged(lval)
              case Bad(start) =>
                !ok && pos == |input| && lval.pos == start && lval.Shows(Failed(ERR_COMMENT, pos), old(lval.value))
    {
      while true
        invariant Valid() && unchanged(lval)
        invariant SkipAll(input, old(pos)) == SkipAll(input, pos)
        decreases |input| - pos
      {
        var ch := Peek();
        if ch == Some('\n') {
          pos := pos + 1;
          continue;
        }
        if ch.Some? && IsBlank(ch.value) {
          pos := pos + 1;
          continue;
        }
        var present, cok := ScanComment(lval);
        if !cok { return false; }
        if present { continue; }
        break;
      }
      ok := true;
    }

    method ScanComment(lval: Sym) returns (present: bool, ok: bool)
      requires Valid()
      modifies this`pos, lval
      ensures Valid()
      ensures match CommentAt(input, old(pos))
              case Absent => !present && ok && pos == old(pos) && unchanged(lval)
              case Ends(j) => present && ok && pos == j && unchanged(lval)
              case Unterminated =>
                !ok && pos == |input| && lval.pos == old(pos) && lval.Shows(Failed(ERR_COMMENT, pos), old(lval.value))
    {
      var start := pos;
      var ch := Peek();
      if ch == Some('/') {
        pos := pos + 1;
        if Peek() != Some('*') {
          pos := pos - 1;
          return false, true;
        }
        pos := pos + 1;
        ok := ScanBlock();
        if !ok {
          lval.pos := start;
          lval.Fail(ERR_COMMENT);
          return false, false;
        }
        return true, true;
      }
      if ch == Some('-') {
        pos := pos + 1;
        if Peek() != Some('-') {
          pos := pos - 1;
          return false, true;
        }
        while true
          invariant Valid() && start + 1 <= pos && unchanged(lval)
          invariant pos == start + 1 || LineEnd(input, start + 2) == LineEnd(input, pos)
          decreases |input| - pos
        {
          var c := Next();
          if c == None || c == Some('\n') { return true, true; }
        }
      }
      return false, true;
    }

    /** The inside of a block comment, nested comments included. */
    method ScanBlock() returns (ok: bool)
      requires Valid()
      modifies this`pos
      ensures Valid()
      ensures match BlockEnd(input, old(pos), 1)
              case Ends(j) => ok && pos == j
              case Unterminated => !ok && pos == |input|
    {
      var depth := 1;
      while true
        invariant Valid() && depth > 0
        invariant BlockEnd(input, old(pos), 1) == BlockEnd(input, pos, depth)
        decreases |input| - pos
      {
        var c := Next();
        if c == Some('*') {
          if Peek() == Some('/') {
            pos := pos + 1;
            if depth == 1 { return true; }
            depth := depth - 1;
          }
        } else if c == Some('/') {
          if Peek() == Some('*') {
            pos := pos + 1;
            depth := depth + 1;
          }
        } else if c == None {
          return false;
        }
      }
    }

    // Strings.

    /** scanString, and the id that its callers set. */
    method ScanString(lval: Sym, style: Style)
      requires Valid() && style.quote != '\\'
      modifies this`pos, lval
      ensures Valid() && lval.pos == old(lval.pos)
      ensures var t := StringAt(lib, input, old(pos), style); pos == t.end && lval.Shows(t, old(lval.value))
    {
      var buf, ok := CollectString(lval, style.quote, style.escapes, Unquote(input, pos, style.quote, style.escapes));
      if !ok { return; }
      if style.utf8 && !IsUtf8(buf) {
        lval.Fail(ERR_UTF8);
        return;
      }
      lval.str := if style.quote == '"' then Normalized(lib, buf) else buf;
      lval.id := style.id;
    }

    /** The loop of scanString: the text is collected in pieces between doubled quotes and escapes. */
    method CollectString(lval: Sym, q: Octet, escapes: bool, ghost whole: Quoted) returns (buf: Text, ok: bool)
      requires Valid() && q != '\\' && whole == Unquote(input, pos, q, escapes)
      modifies this`pos, lval
      ensures Valid() && lval.pos == old(lval.pos) && lval.value == old(lval.value)
      ensures match whole
              case Closed(t, end) => ok && buf == t && pos == end && unchanged(lval)
              case Open => !ok && pos == |input| && lval.id == ERROR && lval.str == ERR_UNTERMINATED
              case Invalid(end) => !ok && pos == end && lval.id == ERROR && lval.str == ERR_ESCAPE
    {
      buf := [];
      var start: nat := pos;
      NothingRead(input, whole, pos, q, escapes);
      while true
        invariant Valid() && start <= pos && unchanged(lval)
        invariant Reading(input, whole, buf, start, pos, q, escapes)
        decreases |input| - pos
      {
        var c := Next();
        if c == Some(q) {
          buf, start, ok := BehindQuote(q, escapes, whole, buf, start);
          if ok { return; }
        } else if c == Some('\\') && escapes {
          buf, start, ok := BehindBackslash(lval, q, whole, buf, start);
          if !ok { return; }
        } else if c == None {
          NeverClosed(input, whole, buf, start, q, escapes);
          lval.Fail(ERR_UNTERMINATED);
          return [], false;
        } else {
          AtOther(input, whole, buf, start, pos - 1, q, escapes);
        }
      }
    }

    /** A quote is doubled, or followed by another string on a new line, or the end. */
    method BehindQuote(q: Octet, escapes: bool, ghost whole: Quoted, before: Text, from: nat)
      returns (buf: Text, start: nat, closed: bool)
      requires Valid() && from < pos && input[pos - 1] == q && q != '\\'
      requires Reading(input, whole, before, from, pos - 1, q, escapes)
      modifies this`pos
      ensures Valid() && old(pos) <= pos
      ensures if closed then whole == Closed(buf, pos)
              else start <= pos && Reading(input, whole, buf, start, pos, q, escapes)
    {
      buf := before + input[from..pos - 1];
      if Peek() == Some(q) {
        start := pos;
        pos := pos + 1;
        AtKeptQuote(input, whole, before, from, start - 1, q, escapes);
        return buf, start, false;
      }
      AtQuote(input, whole, before, from, pos - 1, q, escapes);
      var more := SkipToNext(q);
      start, closed := pos, !more;
    }

    /** Behind a closing quote: whether the string goes on, on a later line. */
    method SkipToNext(q: Octet) returns (more: bool)
      requires Valid()
      modifies this`pos
      ensures Valid()
      ensures var (j, newline) := SkipBlanks(input, old(pos));
              more == (newline && HasAt(input, j, q)) && pos == if more then j + 1 else j
    {
      var newline := SkipBlanksOnly();
      more := Peek() == Some(q) && newline;
      if more { pos := pos + 1; }
    }

    /** A backslash: a quote is kept, an escape is replaced, and otherwise the backslash is dropped. */
    method BehindBackslash(lval: Sym, q: Octet, ghost whole: Quoted, before: Text, from: nat)
      returns (buf: Text, start: nat, ok: bool)
      requires Valid() && from < pos && input[pos - 1] == '\\' && q != '\\'
      requires Reading(input, whole, before, from, pos - 1, q, true)
      modifies this`pos, lval
      ensures Valid() && old(pos) <= pos && lval.pos == old(lval.pos) && lval.value == old(lval.value)
      ensures if ok then start <= pos && Reading(input, whole, buf, start, pos, q, true) && unchanged(lval)
              else whole == Invalid(pos) && lval.id == ERROR && lval.str == ERR_ESCAPE
    {
      buf := before + input[from..pos - 1];
      var t := Peek();
      if t == Some(q) {
        AtKeptQuote(input, whole, before, from, pos - 1, q, true);
        start := pos;
        pos := pos + 1;
      } else if t.Some? && IsEscapeLetter(t.value) {
        buf, start, ok := ReplaceEscape(lval, q, whole, before, from);
        return;
      } else {
        AtBackslash(input, whole, before, from, pos - 1, q);
        start := pos;
      }
      ok := true;
    }

    /** An escape is replaced by what it stands for. */
    method ReplaceEscape(lval: Sym, q: Octet, ghost whole: Quoted, before: Text, from: nat)
      returns (buf: Text, start: nat, ok: bool)
      requires from < pos < |input| && input[pos - 1] == '\\' && q != '\\'
      requires input[pos] != q && IsEscapeLetter(input[pos]) && Reading(input, whole, before, from, pos - 1, q, true)
      modifies this`pos, lval
      ensures Valid() && old(pos) <= pos && lval.pos == old(lval.pos) && lval.value == old(lval.value)
      ensures if ok then start == pos && Reading(input, whole, buf, start, pos, q, true) && unchanged(lval)
              else whole == Invalid(pos) && lval.id == ERROR && lval.str == ERR_ESCAPE
    {
      buf := before + input[from..pos - 1];
      AtEscape(input, whole, before, from, pos - 1, q);
      var v := UnquoteChar(EscapeText(input, pos - 1), q);
      if v == BadSyntax {
        lval.Fail(ERR_ESCAPE);
        return buf, pos, false;
      }
      buf := buf + UnquotedBytes(v);
      pos := pos + v.length - 1;
      start, ok := pos, true;
    }

    // Literals of digits.

    /** A quote ends the literal, unless another one follows on a later line. */
    method BehindLiteral(ghost whole: Literal, ghost digits: Text, ghost hex: bool) returns (more: bool)
      requires 0 < pos <= |input| && input[pos - 1] == '\'' && ReadingDigits(input, whole, digits, pos - 1, hex)
      modifies this`pos
      ensures old(pos) <= pos <= |input|
      ensures if more then ReadingDigits(input, whole, digits, pos, hex) else whole == Digits(digits, pos)
    {
      AtLiteralQuote(input, whole, digits, pos - 1, hex);
      more := SkipToNext('\'');
    }

    method ScanHexString(lval: Sym)
      requires Valid()
      modifies this`pos, lval
      ensures Valid() && lval.pos == old(lval.pos)
      ensures var t := HexTokenAt(input, old(pos)); pos == t.end && lval.Shows(t, old(lval.value))
    {
      var buf, curbyte, bytep, ok, digits := CollectHex(LiteralAt(input, pos, true));
      if !ok || bytep != 0 {
        lval.Fail(ERR_HEX_BYTES);
        return;
      }
      assert digits[..|digits|] == digits;
      lval.id, lval.str := BCONST, buf;
    }

    /** The loop of scanHexString: two digits make a byte. */
    method CollectHex(ghost whole: Literal)
      returns (buf: Text, curbyte: nat, bytep: nat, ok: bool, ghost digits: Text)
      requires Valid() && whole == LiteralAt(input, pos, true)
      modifies this`pos
      ensures pos == whole.end && ok == whole.Digits?
      ensures ok ==> whole.text == digits && Paired(digits, buf, curbyte, bytep)
    {
      buf, curbyte, bytep, digits := [], 0, 0, [];
      NoDigitRead(input, pos, true);
      while true
        invariant Valid() && ReadingDigits(input, whole, digits, pos, true) && Paired(digits, buf, curbyte, bytep)
        decreases |input| - pos
      {
        var b := Next();
        if b == Some('\'') {
          var more := BehindLiteral(whole, digits, true);
          if !more { return buf, curbyte, bytep, true, digits; }
        } else if b.Some? && IsHexDigit(b.value) {
          buf, curbyte, bytep := AddHexDigit(whole, digits, buf, curbyte, bytep);
          digits := digits + [b.value];
        } else {
          return buf, curbyte, bytep, false, digits;
        }
      }
    }

    /** The digit completes a byte, or it is the first one of the next. */
    method AddHexDigit(ghost whole: Literal, ghost digits: Text, before: Text, high: nat, count: nat)
      returns (buf: Text, curbyte: nat, bytep: nat)
      requires 0 < pos <= |input| && IsHexDigit(input[pos - 1])
      requires ReadingDigits(input, whole, digits, pos - 1, true) && Paired(digits, before, high, count)
      ensures var t := digits + [input[pos - 1]];
              ReadingDigits(input, whole, t, pos, true) && Paired(t, buf, curbyte, bytep)
    {
      AtDigit(input, whole, digits, pos - 1, true);
      DigitPaired(digits, before, high, count, input[pos - 1]);
      buf, curbyte, bytep := before, high * 16 + HexValue(input[pos - 1]), count + 1;
      if bytep > 1 { buf, bytep, curbyte := buf + [curbyte as char], 0, 0; }
    }

    method ScanBitString(lval: Sym)
      requires Valid()
      modifies this`pos, lval
      ensures Valid() && lval.pos == old(lval.pos)
      ensures var t := BitTokenAt(input, old(pos)); pos == t.end && lval.Shows(t, old(lval.value))
    {
      ghost var whole := LiteralAt(input, pos, false);
      var buf: Text := [];
      NoDigitRead(input, pos, false);
      while true
        invariant Valid() && unchanged(lval) && ReadingDigits(input, whole, buf, pos, false)
        decreases |input| - pos
      {
        var b := Next();
        if b == Some('\'') {
          var more := BehindLiteral(whole, buf, false);
          if !more { break; }
        } else if b == Some('0') || b == Some('1') {
          AtDigit(input, whole, buf, pos - 1, false);
          buf := buf + [b.value];
        } else {
          lval.Fail(NotBinary(b));
          return;
        }
      }
      lval.id, lval.str := BITCONST, buf;
    }

    // Numbers, placeholders and names.

    method ScanNumber(lval: Sym)
      requires Valid() && 0 < pos && StartsNumeral(input, pos - 1)
      modifies this`pos, lval
      ensures Valid() && lval.pos == old(lval.pos)
      ensures var t := NumberAt(lib, input, old(pos) - 1); pos == t.end && lval.Shows(t, old(lval.value))
    {
      var start: nat := pos - 1;
      var isHex, isFloat, ok := ReadNumeral(lval, start);
      if !ok { return; }
      var str := input[start..pos];
      if !isFloat {
        if isHex && pos == start + 2 {
          lval.Fail(ERR_HEX_NUMBER);
          return;
        }
        if !isHex { str := StripLeading(str); }
      }
      lval.str := str;
      if !lib.known(str, isFloat) {
        lval.Fail(NotANumber(str, isFloat));
        return;
      }
      lval.id, lval.value := if isFloat then FCONST else ICONST, Number(str, isFloat);
    }

    /** Leading zeros would make an octal number. */
    method StripLeading(t: Text) returns (str: Text)
      ensures str == StripZeros(t)
    {
      str := t;
      while |str| > 1 && str[0] == '0'
        invariant StripZeros(str) == StripZeros(t)
      {
        str := str[1..];
      }
    }

    /** The loop of scanNumber: to the end of the numeral, or to what makes it none. */
    method ReadNumeral(lval: Sym, start: nat) returns (isHex: bool, isFloat: bool, ok: bool)
      requires Valid() && start + 1 == pos && StartsNumeral(input, start)
      modifies this`pos, lval
      ensures Valid() && start < pos && lval.pos == old(lval.pos) && lval.value == old(lval.value)
      ensures if ok then NumeralEnds(input, start, pos, isHex, isFloat) && unchanged(lval)
              else lval.id == ERROR && FailsAt(input, start, pos, lval.str)
    {
      var hasDecimal, hasExponent := input[start] == '.', false;
      isHex, isFloat, ok := false, false, true;
      FirstRead(input, start);
      while true
        invariant start < pos <= |input| && unchanged(lval)
        invariant ReadingNumeral(input, start, pos, isHex, hasDecimal, hasExponent)
        decreases |input| - pos
      {
        var more;
        isHex, hasDecimal, hasExponent, more, ok := ReadChar(lval, start, isHex, hasDecimal, hasExponent);
        if !ok { return; }
        if !more { break; }
      }
      NumeralRead(input, start, pos, isHex, hasDecimal, hasExponent);
      isFloat := hasDecimal || hasExponent;
    }

    /** A digit, an x, a dot or an exponent; other characters do not belong to the numeral. */
    method ReadChar(lval: Sym, start: nat, isHex: bool, hasDecimal: bool, hasExponent: bool)
      returns (isHex': bool, hasDecimal': bool, hasExponent': bool, more: bool, ok: bool)
      requires StartsNumeral(input, start) && ReadingNumeral(input, start, pos, isHex, hasDecimal, hasExponent)
      modifies this`pos, lval
      ensures old(pos) <= pos <= |input| && lval.pos == old(lval.pos) && lval.value == old(lval.value)
      ensures if ok then ReadingNumeral(input, start, pos, isHex', hasDecimal', hasExponent') && unchanged(lval)
              else lval.id == ERROR && FailsAt(input, start, pos, lval.str)
      ensures ok ==> if more then old(pos) < pos else NumeralStops(input, pos, isHex', hasDecimal', hasExponent')
    {
      isHex', hasDecimal', hasExponent', more, ok := isHex, hasDecimal, hasExponent, true, true;
      var ch := Peek();
      if ch.Some? && ((isHex && IsHexDigit(ch.value)) || IsDigit(ch.value)) {
        DigitRead(input, start, pos, isHex, hasDecimal, hasExponent);
        pos := pos + 1;
      } else if XAt(input, pos) {
        ok := ReadX(lval, start, isHex, hasDecimal, hasExponent);
        isHex' := true;
      } else if isHex || hasExponent {
        more := false;
      } else {
        hasDecimal', hasExponent', more, ok := ReadPart(lval, start, hasDecimal);
      }
    }

    /** What follows the digits of a mantissa: a dot, an exponent, or nothing that belongs to it. */
    method ReadPart(lval: Sym, ghost start: nat, before: bool)
      returns (hasDecimal: bool, hasExponent: bool, more: bool, ok: bool)
      requires StartsNumeral(input, start) && ReadingNumeral(input, start, pos, false, before, false)
      requires !DigitAt(input, pos) && !XAt(input, pos)
      modifies this`pos, lval
      ensures old(pos) <= pos <= |input| && lval.pos == old(lval.pos) && lval.value == old(lval.value)
      ensures if ok then ReadingNumeral(input, start, pos, false, hasDecimal, hasExponent) && unchanged(lval)
              else lval.id == ERROR && FailsAt(input, start, pos, lval.str)
      ensures ok ==> if more then old(pos) < pos else NumeralStops(input, pos, false, hasDecimal, hasExponent)
    {
      hasDecimal, hasExponent, more, ok := before, false, true, true;
      var ch := Peek();
      if ch == Some('.') && !hasDecimal {
        hasDecimal := ReadDot(start);
        more := hasDecimal;
      } else if ch == Some('e') || ch == Some('E') {
        ok := ReadExponent(lval, start, hasDecimal);
        hasExponent := true;
      } else {
        more := false;
      }
    }

    /** An x, which must stand behind a single zero. */
    method ReadX(lval: Sym, start: nat, isHex: bool, ghost hasDecimal: bool, ghost hasExponent: bool)
      returns (ok: bool)
      requires StartsNumeral(input, start) && ReadingNumeral(input, start, pos, isHex, hasDecimal, hasExponent)
      requires XAt(input, pos)
      modifies this`pos, lval
      ensures lval.pos == old(lval.pos) && lval.value == old(lval.value)
      ensures if ok then
                unchanged(lval) && pos == old(pos) + 1 &&
                ReadingNumeral(input, start, pos, true, hasDecimal, hasExponent)
              else pos == old(pos) && lval.id == ERROR && FailsAt(input, start, pos, lval.str)
    {
      XRead(input, start, pos, isHex, hasDecimal, hasExponent);
      if isHex || input[start] != '0' || pos != start + 1 {
        lval.Fail(ERR_HEX_NUMBER);
        return false;
      }
      pos := pos + 1;
      ok := true;
    }

    /** A dot, which belongs to the number unless another one follows. */
    method ReadDot(ghost start: nat) returns (hasDecimal: bool)
      requires StartsNumeral(input, start) && ReadingNumeral(input, start, pos, false, false, false)
      requires HasAt(input, pos, '.')
      modifies this`pos
      ensures hasDecimal == !HasAt(input, old(pos) + 1, '.') && pos == if hasDecimal then old(pos) + 1 else old(pos)
      ensures ReadingNumeral(input, start, pos, false, hasDecimal, false)
    {
      pos := pos + 1;
      if Peek() == Some('.') {
        // Two dots are an operator behind the integer.
        pos := pos - 1;
        return false;
      }
      DotRead(input, start, pos - 1);
      hasDecimal := true;
    }

    /** The letter and the sign of an exponent, behind which there must be a digit. */
    method ReadExponent(lval: Sym, ghost start: nat, ghost hasDecimal: bool) returns (ok: bool)
      requires StartsNumeral(input, start) && ReadingNumeral(input, start, pos, false, hasDecimal, false)
      requires EAt(input, pos)
      modifies this`pos, lval
      ensures old(pos) < pos <= |input| && lval.pos == old(lval.pos) && lval.value == old(lval.value)
      ensures if ok then unchanged(lval) && ReadingNumeral(input, start, pos, false, hasDecimal, true)
              else lval.id == ERROR && FailsAt(input, start, pos, lval.str)
    {
      ERead(input, start, pos, hasDecimal);
      pos := pos + 1;
      var ch := Peek();
      if ch == Some('-') || ch == Some('+') { pos := pos + 1; }
      ch := Peek();
      ok := ch.Some? && IsDigit(ch.value);
      if !ok { lval.Fail(ERR_FLOAT); }
    }

    method ScanPlaceholder(lval: Sym)
      requires Valid()
      modifies this`pos, lval
      ensures Valid() && lval.pos == old(lval.pos)
      ensures var t := PlaceholderAt(input, old(pos)); pos == t.end && lval.Shows(t, old(lval.value))
    {
      ghost var end := DigitsEnd(input, pos);
      var start := pos;
      while DigitAt(input, pos)
        invariant start <= pos <= end && DigitsEnd(input, pos) == end && unchanged(lval)
        decreases end - pos
      {
        pos := pos + 1;
      }
      lval.str := input[start..pos];
      NewPlaceholder(lval);
    }

    method NewPlaceholder(lval: Sym)
      requires AllDigits(lval.str, 0, |lval.str|)
      modifies lval
      ensures lval.pos == old(lval.pos) && lval.Shows(PlaceholderToken(old(lval.str), pos), old(lval.value))
    {
      var uval := DecimalValue(lval.str);
      if uval > MAX_UINT64 {
        lval.Fail(TooLarge(lval.str));
      } else if uval == 0 || uval > MAX_PLACEHOLDERS {
        lval.Fail(BAD_INDEX + INDEX_RANGE);
      } else {
        lval.id, lval.value := PLACEHOLDER, Index(uval - 1);
      }
    }

    method ScanIdent(lval: Sym)
      requires Valid() && 0 < pos
      modifies this`pos, lval
      ensures Valid() && lval.pos == old(lval.pos)
      ensures var t := NameAt(lib, input, old(pos) - 1); pos == t.end && lval.Shows(t, old(lval.value))
    {
      pos := pos - 1;
      var start := pos;
      var isASCII, isLower := ReadName();
      var name := Fold(lib, input[start..pos], isASCII, isLower);
      lval.id, lval.str := ClassifyName(lib, name);
    }

    /** To the end of a name, and whether it has characters outside ASCII or upper-case letters. */
    method ReadName() returns (isASCII: bool, isLower: bool)
      requires Valid()
      modifies this`pos
      ensures pos == NameEnd(input, old(pos))
      ensures isASCII == IsAscii(input[old(pos)..pos]) && isLower == HasNoUpper(input[old(pos)..pos])
    {
      var start := pos;
      isASCII, isLower := true, true;
      while true
        invariant start <= pos <= |input| && NameEnd(input, start) == NameEnd(input, pos)
        invariant isASCII == IsAscii(input[start..pos]) && isLower == HasNoUpper(input[start..pos])
        decreases |input| - pos
      {
        var ch := Peek();
        if ch == None || !IsIdentMiddle(ch.value) { break; }
        OneMore(input, start, pos);
        if ch.value as int >= 0x80 { isASCII := false; } else if IsUpper(ch.value) { isLower := false; }
        pos := pos + 1;
      }
    }

    // Dollar-quoted strings.

    /** A dollar-quoted string, which must be UTF-8. */
    method ScanDollarQuotedString(lval: Sym) returns (ok: bool)
      requires Valid() && lval.id == '$' as int && lval.str == "$"
      modifies this`pos, lval
      ensures lval.pos == old(lval.pos) && pos == DollarTokenAt(input, old(pos)).end
      ensures lval.value == old(lval.value)
      ensures if ok then DollarTokenAt(input, old(pos)) == Token(SCONST, lval.str, NoValue, pos)
              else lval.Shows(DollarTokenAt(input, old(pos)), old(lval.value))
    {
      var buf;
      buf, ok := CollectDollar(lval);
      if !ok { return; }
      if !IsUtf8(buf) {
        lval.Fail(ERR_UTF8);
        return false;
      }
      lval.str := buf;
    }

    /** The incremental matcher for the end tag finds its first occurrence. */
    method CollectDollar(lval: Sym) returns (buf: Text, ok: bool)
      requires Valid()
      modifies this`pos, lval
      ensures Valid() && lval.pos == old(lval.pos) && lval.value == old(lval.value)
      ensures match DollarAt(input, old(pos))
              case NotDollar(end) => !ok && pos == end && unchanged(lval)
              case Body(text, end) => ok && buf == text && pos == end && unchanged(lval)
              case Unended => !ok && pos == |input| && lval.id == ERROR && lval.str == ERR_UNTERMINATED
    {
      var start: nat := pos;
      var foundStartTag, possibleEndTag := false, false;
      var startTagIndex := -1;
      var startTag: Text := [];
      buf := [];
      while true
        invariant Valid() && start <= pos && unchanged(lval)
        invariant if foundStartTag then Searching(input, start, startTag, pos, possibleEndTag, startTagIndex)
                  else !possibleEndTag && InTag(input, start, pos)
        decreases |input| - pos
      {
        var ch := Peek();
        if ch == None {
          InputEnds(lval, start, foundStartTag, startTag, possibleEndTag, startTagIndex);
          return buf, false;
        }
        if foundStartTag {
          var done;
          possibleEndTag, startTagIndex, done := MatchEndTag(start, startTag, possibleEndTag, startTagIndex);
          if done { return input[start + |startTag| + 1..pos - |startTag| - 2], true; }
        } else if ch == Some('$') {
          pos := pos + 1;
          startTag := input[start..pos - 1];
          foundStartTag := true;
          TagFound(input, start, pos - 1);
        } else {
          if !IsIdentStart(ch.value) && !IsDigit(ch.value) {
            TagEndIs(input, start, pos);
            return buf, false;
          }
          pos := pos + 1;
        }
      }
    }

    /** The input ends: there is no string, or it is not terminated. */
    method InputEnds(lval: Sym, start: nat, foundStartTag: bool, ghost tag: Text, ghost possible: bool,
          ghost index: int)
      requires start <= pos == |input|
      requires if foundStartTag then Searching(input, start, tag, pos, possible, index) else InTag(input, start, pos)
      modifies this`pos, lval
      ensures lval.pos == old(lval.pos) && lval.value == old(lval.value)
      ensures if foundStartTag then
                DollarAt(input, start) == Unended && pos == |input| && lval.id == ERROR && lval.str == ERR_UNTERMINATED
              else DollarAt(input, start) == NotDollar(pos) && pos == start && unchanged(lval)
    {
      if foundStartTag {
        AtEnd(input, start, tag, possible, index);
        lval.Fail(ERR_UNTERMINATED);
      } else {
        TagEndIs(input, start, pos);
        pos := start;
      }
    }

    /** One character behind the start tag: it completes the end tag, or what has matched so far is updated. */
    method MatchEndTag(start: nat, tag: Text, possible: bool, index: int)
      returns (possible': bool, index': int, done: bool)
      requires start <= pos < |input| && Searching(input, start, tag, pos, possible, index)
      modifies this`pos
      ensures pos == old(pos) + 1
      ensures if done then Complete(input, start, tag, pos) else Searching(input, start, tag, pos, possible', index')
    {
      possible', index', done := possible, index, false;
      pos := pos + 1;
      if input[pos - 1] == '$' {
        AtDollar(input, start, tag, pos, possible, index);
        if possible && |tag| == index {
          done := true;
        } else {
          // Not the end tag, but this dollar sign may be the start of it.
          possible', index' := true, 0;
        }
      } else {
        AtOtherChar(input, start, tag, pos, possible, index);
        if possible {
          if index >= |tag| || input[pos - 1] != tag[index] {
            possible', index' := false, -1;
          } else {
            index' := index + 1;
          }
        }
      }
    }

    // All tokens.

    /** One token, behind blanks and comments. */
    method Scan(lval: Sym)
      requires Valid()
      modifies this`pos, lval
      ensures Valid()
      ensures match SkipAll(input, old(pos))
              case Bad(start) =>
                lval.pos == start && pos == |input| && lval.Shows(Failed(ERR_COMMENT, pos), old(lval.value))
              case At(j) =>
                var t := TokenAt(lib, input, j); lval.pos == j && pos == t.end && lval.Shows(t, old(lval.value))
    {
      lval.id, lval.pos, lval.str := 0, pos, "EOF";
      var ok := SkipWhitespace(lval);
      if ok { ScanToken(lval); }
    }

    method ScanToken(lval: Sym)
      requires Valid() && lval.id == 0 && lval.str == "EOF"
      modifies this`pos, lval
      ensures Valid() && lval.pos == old(pos)
      ensures var t := TokenAt(lib, input, old(pos)); pos == t.end && lval.Shows(t, old(lval.value))
    {
      var ch := Next();
      if ch == None {
        lval.pos := pos;
        return;
      }
      lval.id, lval.pos, lval.str := ch.value as int, pos - 1, input[pos - 1..pos];
      ScanFrom(lval, ch.value);
    }

    /** The switch over the first character of a token, which has been read. */
    method ScanFrom(lval: Sym, c: Octet)
      requires 0 < pos <= |input| && input[pos - 1] == c && lval.id == c as int && lval.str == [c]
      modifies this`pos, lval
      ensures Valid() && lval.pos == old(lval.pos)
      ensures var t := TokenAt(lib, input, old(pos) - 1); pos == t.end && lval.Shows(t, old(lval.value))
    {
      if c == '$' {
        ScanDollar(lval);
      } else if c == '"' {
        ScanString(lval, NAME_STYLE);
      } else if c == '\'' {
        ScanString(lval, PLAIN_STYLE);
      } else if StartsLiteral(input, pos - 1) {
        pos := pos + 1;
        ScanLiteral(lval, c);
      } else if StartsNumeral(input, pos - 1) {
        ScanNumber(lval);
      } else if IsIdentStart(c) {
        ScanIdent(lval);
      } else {
        ScanOperator(lval, c);
      }
    }

    /** A placeholder, a dollar-quoted string, or the dollar sign itself. */
    method ScanDollar(lval: Sym)
      requires Valid() && lval.id == '$' as int && lval.str == "$"
      modifies this`pos, lval
      ensures Valid() && lval.pos == old(lval.pos)
      ensures var p := old(pos);
              var t := if DigitAt(input, p) then PlaceholderAt(input, p) else DollarTokenAt(input, p);
              pos == t.end && lval.Shows(t, old(lval.value))
    {
      if DigitAt(input, pos) {
        ScanPlaceholder(lval);
      } else {
        var ok := ScanDollarQuotedString(lval);
        if ok { lval.id := SCONST; }
      }
    }

    /** What follows a letter and a single quote. */
    method ScanLiteral(lval: Sym, c: Octet)
      requires 2 <= pos <= |input| && input[pos - 2] == c && StartsLiteral(input, pos - 2)
      modifies this`pos, lval
      ensures Valid() && lval.pos == old(lval.pos)
      ensures var t := LetterTokenAt(lib, input, old(pos) - 2); pos == t.end && lval.Shows(t, old(lval.value))
    {
      if c == 'b' {
        ScanString(lval, BYTES_STYLE);
      } else if c == 'B' {
        ScanBitString(lval);
      } else if c == 'e' || c == 'E' {
        ScanString(lval, ESCAPED_STYLE);
      } else {
        ScanHexString(lval);
      }
    }

    /** The nested switches over the characters of an operator find the longest one. */
    method ScanOperator(lval: Sym, c: Octet)
      requires 0 < pos <= |input| && input[pos - 1] == c && lval.id == c as int
      modifies this`pos, lval`id
      ensures (lval.id, pos - old(pos) + 1) == LongestOperator(input, old(pos) - 1)
    {
      if c == '<' || c == '>' || c == '?' || c == '!' {
        ScanRelation(lval, c);
      } else if c == ':' || c == '-' || c == '#' {
        ScanArrow(lval, c);
      } else if c == '|' {
        ScanBar(lval);
      } else if c == '.' {
        ScanPair(lval, '.', DOT_DOT);
      } else if c == '/' {
        ScanPair(lval, '/', FLOORDIV);
      } else if c == '~' {
        ScanPair(lval, '*', REGIMATCH);
      } else if c == '@' {
        ScanPair(lval, '>', CONTAINS);
      } else if c == '&' {
        ScanPair(lval, '&', AND_AND);
      }
    }

    /** The switches with one case. */
    method ScanPair(lval: Sym, second: Octet, id: int)
      requires Valid()
      modifies this`pos, lval`id
      ensures if HasAt(input, old(pos), second) then pos == old(pos) + 1 && lval.id == id
              else pos == old(pos) && lval.id == old(lval.id)
    {
      if Peek() == Some(second) {
        pos := pos + 1;
        lval.id := id;
      }
    }

    /** Comparisons, the operators on addresses and on regular expressions, and the ones with a question mark. */
    method ScanRelation(lval: Sym, c: Octet)
      requires 0 < pos <= |input| && input[pos - 1] == c && lval.id == c as int
      requires c == '<' || c == '>' || c == '?' || c == '!'
      modifies this`pos, lval`id
      ensures (lval.id, pos - old(pos) + 1) == LongestOperator(input, old(pos) - 1)
    {
      var p := Peek();
      if c == '!' {
        if p == Some('=') { pos, lval.id := pos + 1, NOT_EQUALS; }
        else if p == Some('~') {
          pos := pos + 1;
          if Peek() == Some('*') { pos, lval.id := pos + 1, NOT_REGIMATCH; } else { lval.id := NOT_REGMATCH; }
        }
      } else if c == '?' {
        if p == Some('?') { pos, lval.id := pos + 1, HELPTOKEN; }
        else if p == Some('|') { pos, lval.id := pos + 1, JSON_SOME_EXISTS; }
        else if p == Some('&') { pos, lval.id := pos + 1, JSON_ALL_EXISTS; }
      } else if c == '<' {
        if p == Some('<') {
          pos := pos + 1;
          if Peek() == Some('=') { pos, lval.id := pos + 1, INET_CONTAINED_BY_OR_EQUALS; } else { lval.id := LSHIFT; }
        }
        else if p == Some('>') { pos, lval.id := pos + 1, NOT_EQUALS; }
        else if p == Some('=') { pos, lval.id := pos + 1, LESS_EQUALS; }
        else if p == Some('@') { pos, lval.id := pos + 1, CONTAINED_BY; }
      } else {
        if p == Some('>') {
          pos := pos + 1;
          if Peek() == Some('=') { pos, lval.id := pos + 1, INET_CONTAINS_OR_EQUALS; } else { lval.id := RSHIFT; }
        }
        else if p == Some('=') { pos, lval.id := pos + 1, GREATER_EQUALS; }
      }
    }

    /** Type casts and the arrows into JSON, which look two characters ahead. */
    method ScanArrow(lval: Sym, c: Octet)
      requires 0 < pos <= |input| && input[pos - 1] == c && lval.id == c as int
      requires c == ':' || c == '-' || c == '#'
      modifies this`pos, lval`id
      ensures (lval.id, pos - old(pos) + 1) == LongestOperator(input, old(pos) - 1)
    {
      var next: Octet := if c == ':' then ':' else '>';
      var p := Peek();
      if p == Some(next) {
        if pos + 1 < |input| && input[pos + 1] == next {
          pos := pos + 2;
          lval.id := if c == ':' then TYPEANNOTATE else if c == '-' then FETCHTEXT else FETCHTEXT_PATH;
        } else {
          pos := pos + 1;
          lval.id := if c == ':' then TYPECAST else if c == '-' then FETCHVAL else FETCHVAL_PATH;
        }
      } else if c == '#' && p == Some('-') {
        pos, lval.id := pos + 1, REMOVE_PATH;
      }
    }

    method ScanBar(lval: Sym)
      requires 0 < pos <= |input| && input[pos - 1] == '|' && lval.id == '|' as int
      modifies this`pos, lval`id
      ensures (lval.id, pos - old(pos) + 1) == LongestOperator(input, old(pos) - 1)
    {
      var p := Peek();
      if p == Some('|') {
        pos := pos + 1;
        if Peek() == Some('/') { pos, lval.id := pos + 1, CBRT; } else { lval.id := CONCAT; }
      } else if p == Some('/') {
        pos, lval.id := pos + 1, SQRT;
      }
    }
  }
}
