/** The states of the loops that read strings, literals and numbers. */
module Readers {
  import opened Escapes
  import opened Literals
  import opened Numerals
  import opened Octets
  import opened Scanning
  import opened Slices

  // Strings.

  /** buf and the piece from start on are what precedes pos. */
  ghost predicate Reading(s: Text, whole: Quoted, buf: Text, start: nat, pos: nat, q: Octet, escapes: bool)
    requires start <= pos <= |s|
  {
    whole == Prepend(buf + s[start..pos], Unquote(s, pos, q, escapes))
  }

  lemma NothingRead(s: Text, whole: Quoted, pos: nat, q: Octet, escapes: bool)
    requires pos <= |s| && whole == Unquote(s, pos, q, escapes)
    ensures Reading(s, whole, [], pos, pos, q, escapes)
  {
    assert [] + s[pos..pos] == [];
    PrependNothing(whole);
  }

  lemma NeverClosed(s: Text, whole: Quoted, buf: Text, start: nat, q: Octet, escapes: bool)
    requires start <= |s| && Reading(s, whole, buf, start, |s|, q, escapes)
    ensures whole == Open
  {}

  /** A quote behind the character at pos, be that a quote or a backslash, is part of the text. */
  lemma AtKeptQuote(s: Text, whole: Quoted, buf: Text, start: nat, pos: nat, q: Octet, escapes: bool)
    requires start <= pos && pos + 2 <= |s| && s[pos + 1] == q && Reading(s, whole, buf, start, pos, q, escapes)
    requires s[pos] == q || (escapes && s[pos] == '\\')
    ensures Reading(s, whole, buf + s[start..pos], pos + 1, pos + 2, q, escapes)
  {
    if s[pos] != q { assert Unquote(s, pos, q, true) == UnquoteEscape(s, pos, q); }
    PrependTwice(buf + s[start..pos], [q], Unquote(s, pos + 2, q, escapes));
    assert s[pos + 1..pos + 2] == [q];
  }

  lemma AtQuote(s: Text, whole: Quoted, buf: Text, start: nat, pos: nat, q: Octet, escapes: bool)
    requires start <= pos < |s| && s[pos] == q && !HasAt(s, pos + 1, q)
    requires Reading(s, whole, buf, start, pos, q, escapes)
    ensures var text, (j, newline) := buf + s[start..pos], SkipBlanks(s, pos + 1);
            if newline && HasAt(s, j, q) then Reading(s, whole, text, j + 1, j + 1, q, escapes)
            else whole == Closed(text, j)
  {
    var (j, newline) := SkipBlanks(s, pos + 1);
    NothingAround(buf + s[start..pos]);
    if newline && HasAt(s, j, q) { assert s[j + 1..j + 1] == []; }
  }

  lemma AtOther(s: Text, whole: Quoted, buf: Text, start: nat, pos: nat, q: Octet, escapes: bool)
    requires start <= pos < |s| && s[pos] != q && Reading(s, whole, buf, start, pos, q, escapes)
    requires !(escapes && s[pos] == '\\')
    ensures Reading(s, whole, buf, start, pos + 1, q, escapes)
  {
    PrependTwice(buf + s[start..pos], [s[pos]], Unquote(s, pos + 1, q, escapes));
    assert buf + s[start..pos] + [s[pos]] == buf + s[start..pos + 1];
  }

  lemma AtEscape(s: Text, whole: Quoted, buf: Text, start: nat, pos: nat, q: Octet)
    requires start <= pos && pos + 1 < |s| && s[pos] == '\\' && q != '\\' && s[pos + 1] != q
    requires IsEscapeLetter(s[pos + 1]) && Reading(s, whole, buf, start, pos, q, true)
    ensures match EscapeAt(s, pos, q)
            case BadEscape => whole == Invalid(pos + 1)
            case Escaped(bytes, next) => Reading(s, whole, buf + s[start..pos] + bytes, next, next, q, true)
  {
    assert Unquote(s, pos, q, true) == UnquoteEscape(s, pos, q);
    var e := EscapeAt(s, pos, q);
    if e.Escaped? {
      PrependTwice(buf + s[start..pos], e.bytes, Unquote(s, e.next, q, true));
      NothingAround(buf + s[start..pos] + e.bytes);
      assert s[e.next..e.next] == [];
    }
  }

  /** A backslash in front of anything else is dropped. */
  lemma AtBackslash(s: Text, whole: Quoted, buf: Text, start: nat, pos: nat, q: Octet)
    requires start <= pos < |s| && s[pos] == '\\' && q != '\\' && Reading(s, whole, buf, start, pos, q, true)
    requires pos + 1 < |s| ==> s[pos + 1] != q && !IsEscapeLetter(s[pos + 1])
    ensures Reading(s, whole, buf + s[start..pos], pos + 1, pos + 1, q, true)
  {
    assert Unquote(s, pos, q, true) == UnquoteEscape(s, pos, q) == Unquote(s, pos + 1, q, true);
    NothingAround(buf + s[start..pos]);
    assert s[pos + 1..pos + 1] == [];
  }

  // Literals.

  function PrependDigits(t: Text, r: Literal): Literal {
    if r.Digits? then Digits(t + r.text, r.end) else r
  }

  ghost predicate ReadingDigits(s: Text, whole: Literal, t: Text, pos: nat, hex: bool)
    requires pos <= |s|
  {
    && (forall k :: 0 <= k < |t| ==> IsLiteralDigit(t[k], hex))
    && whole == PrependDigits(t, LiteralAt(s, pos, hex))
  }

  lemma NoDigitRead(s: Text, pos: nat, hex: bool)
    requires pos <= |s|
    ensures ReadingDigits(s, LiteralAt(s, pos, hex), [], pos, hex)
  {
    var r := LiteralAt(s, pos, hex);
    if r.Digits? { NothingAround(r.text); }
  }

  lemma AtDigit(s: Text, whole: Literal, t: Text, pos: nat, hex: bool)
    requires pos < |s| && IsLiteralDigit(s[pos], hex) && ReadingDigits(s, whole, t, pos, hex)
    ensures ReadingDigits(s, whole, t + [s[pos]], pos + 1, hex)
  {
    var r := LiteralAt(s, pos + 1, hex);
    if r.Digits? { Associate(t, [s[pos]], r.text); }
  }

  lemma AtLiteralQuote(s: Text, whole: Literal, t: Text, pos: nat, hex: bool)
    requires pos < |s| && s[pos] == '\'' && ReadingDigits(s, whole, t, pos, hex)
    ensures var (j, newline) := SkipBlanks(s, pos + 1);
            if newline && HasAt(s, j, '\'') then ReadingDigits(s, whole, t, j + 1, hex) else whole == Digits(t, j)
  {
    NothingAround(t);
  }

  /** The bytes of all pairs of digits, and the value of an odd last digit. */
  ghost predicate Paired(t: Text, buf: Text, curbyte: nat, bytep: nat) {
    && AllHexDigits(t) && bytep == |t| % 2 && buf == HexBytes(t[..|t| - bytep])
    && curbyte == if bytep == 1 then HexValue(t[|t| - 1]) else 0
  }

  lemma {:induction false} PairAppended(t: Text, a: Octet, b: Octet)
    requires AllHexDigits(t) && |t| % 2 == 0 && IsHexDigit(a) && IsHexDigit(b)
    ensures HexBytes(t + [a, b]) == HexBytes(t) + [PairByte(a, b)]
    decreases |t|
  {
    if t == [] {
      assert [a, b][2..] == [];
    } else {
      PairAppended(t[2..], a, b);
      assert (t + [a, b])[2..] == t[2..] + [a, b];
    }
  }

  lemma DigitPaired(t: Text, buf: Text, curbyte: nat, bytep: nat, c: Octet)
    requires Paired(t, buf, curbyte, bytep) && IsHexDigit(c)
    ensures curbyte * 16 + HexValue(c) < 256
    ensures var v := curbyte * 16 + HexValue(c);
            if bytep == 1 then Paired(t + [c], buf + [v as char], 0, 0) else Paired(t + [c], buf, v, 1)
  {
    var u := t + [c];
    if bytep == 1 {
      PairAppended(t[..|t| - 1], t[|t| - 1], c);
      assert u[..|u|] == t[..|t| - 1] + [t[|t| - 1], c];
    } else {
      assert u[..|t|] == t[..|t|];
    }
  }

  // Numbers.

  /** What is left to read decides where the numeral ends. */
  predicate ReadingNumeral(s: Text, start: nat, pos: nat, isHex: bool, hasDecimal: bool, hasExponent: bool)
    requires StartsNumeral(s, start)
  {
    && start < pos <= |s|
    && if isHex then ReadingHex(s, start, pos) && !hasDecimal && !hasExponent
       else if hasExponent then ReadingExponent(s, start, pos)
       else if hasDecimal then ReadingFraction(s, start, pos)
       else s[start] != '.' && DigitsEnd(s, start) == DigitsEnd(s, pos)
  }

  predicate ReadingHex(s: Text, start: nat, pos: nat)
    requires pos <= |s|
  {
    IsHex(s, start) && start + 2 <= pos && HexEnd(s, start + 2) == HexEnd(s, pos)
  }

  predicate ReadingFraction(s: Text, start: nat, pos: nat)
    requires StartsNumeral(s, start) && pos <= |s|
  {
    !IsHex(s, start) && MantissaEnd(s, start) == (DigitsEnd(s, pos), true)
  }

  predicate ReadingExponent(s: Text, start: nat, pos: nat)
    requires StartsNumeral(s, start) && pos <= |s|
  {
    var m := MantissaEnd(s, start).0;
    var p := SignEnd(s, m + 1);
    !IsHex(s, start) && EAt(s, m) && DigitAt(s, p) && DigitsEnd(s, p) == DigitsEnd(s, pos)
  }

  lemma FirstRead(s: Text, start: nat)
    requires StartsNumeral(s, start)
    ensures ReadingNumeral(s, start, start + 1, false, s[start] == '.', false)
  {}

  lemma DigitRead(s: Text, start: nat, pos: nat, isHex: bool, hasDecimal: bool, hasExponent: bool)
    requires StartsNumeral(s, start) && ReadingNumeral(s, start, pos, isHex, hasDecimal, hasExponent) && pos < |s|
    requires IsDigit(s[pos]) || (isHex && IsHexDigit(s[pos]))
    ensures ReadingNumeral(s, start, pos + 1, isHex, hasDecimal, hasExponent)
  {}

  lemma XRead(s: Text, start: nat, pos: nat, isHex: bool, hasDecimal: bool, hasExponent: bool)
    requires StartsNumeral(s, start) && ReadingNumeral(s, start, pos, isHex, hasDecimal, hasExponent) && XAt(s, pos)
    ensures if isHex || s[start] != '0' || pos != start + 1 then NumeralAt(s, start) == BadHex(pos)
            else ReadingNumeral(s, start, pos + 1, true, hasDecimal, hasExponent)
  {
    if !isHex && hasExponent { assert DigitsEnd(s, pos) == pos; }
  }

  /** No more digits: a dot or an exponent, or the end of the integer. */
  lemma MantissaRead(s: Text, start: nat, pos: nat, hasDecimal: bool)
    requires StartsNumeral(s, start) && ReadingNumeral(s, start, pos, false, hasDecimal, false)
    requires !DigitAt(s, pos) && !XAt(s, pos) && (hasDecimal || !HasAt(s, pos, '.') || HasAt(s, pos + 1, '.'))
    ensures !IsHex(s, start) && MantissaEnd(s, start) == (pos, hasDecimal)
  {}

  lemma DotRead(s: Text, start: nat, pos: nat)
    requires StartsNumeral(s, start) && ReadingNumeral(s, start, pos, false, false, false)
    requires HasAt(s, pos, '.') && !HasAt(s, pos + 1, '.')
    ensures ReadingNumeral(s, start, pos + 1, false, true, false)
  {}

  lemma ERead(s: Text, start: nat, pos: nat, hasDecimal: bool)
    requires StartsNumeral(s, start) && ReadingNumeral(s, start, pos, false, hasDecimal, false) && EAt(s, pos)
    ensures var p := SignEnd(s, pos + 1);
            p <= |s| && if DigitAt(s, p) then ReadingNumeral(s, start, p, false, hasDecimal, true)
            else NumeralAt(s, start) == BadExponent(p)
  {
    MantissaRead(s, start, pos, hasDecimal);
  }

  /** The numeral ends; one without digits behind the x is found out later. */
  predicate NumeralEnds(s: Text, start: nat, pos: nat, isHex: bool, isFloat: bool)
    requires StartsNumeral(s, start)
  {
    && isHex == IsHex(s, start)
    && NumeralAt(s, start) ==
       if isFloat then Float(pos) else if isHex && pos == start + 2 then BadHex(pos) else Int(pos)
  }

  /** Nothing could go on with the numeral. */
  predicate NumeralStops(s: Text, pos: nat, isHex: bool, hasDecimal: bool, hasExponent: bool) {
    && !DigitAt(s, pos) && !XAt(s, pos) && (isHex ==> !(pos < |s| && IsHexDigit(s[pos])))
    && (!isHex && !hasExponent ==> !EAt(s, pos) && (hasDecimal || !HasAt(s, pos, '.') || HasAt(s, pos + 1, '.')))
  }

  /** The loop has ended without an error. */
  lemma NumeralRead(s: Text, start: nat, pos: nat, isHex: bool, hasDecimal: bool, hasExponent: bool)
    requires StartsNumeral(s, start) && ReadingNumeral(s, start, pos, isHex, hasDecimal, hasExponent)
    requires NumeralStops(s, pos, isHex, hasDecimal, hasExponent)
    ensures NumeralEnds(s, start, pos, isHex, hasDecimal || hasExponent)
  {
    if !isHex && !hasExponent { MantissaRead(s, start, pos, hasDecimal); }
  }
}
