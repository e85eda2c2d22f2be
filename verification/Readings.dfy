/** What texts of a known form are read as: adjacent strings, dropped backslashes, bits and numbers. */
module Readings {
  import opened Alphabets
  import opened Literals
  import opened Names
  import opened Numerals
  import opened Octets
  import opened Scanning
  import opened Slices
  import opened SqlText
  import opened Tokens

  // Strings.

  predicate IsGap(gap: Text) {
    gap != [] && forall k :: 0 <= k < |gap| ==> gap[k] as int in BLANK_CODES
  }

  lemma {:induction false} SkipGap(s: Text, i: nat, gap: Text)
    requires Holds(s, i, gap) && i + |gap| < |s| && s[i + |gap|] as int !in BLANK_CODES
    requires forall k :: 0 <= k < |gap| ==> gap[k] as int in BLANK_CODES
    ensures SkipBlanks(s, i) == (i + |gap|, '\n' in gap)
    decreases |gap|
  {
    BlankTable(s[i]);
    if gap != [] {
      assert s[i + 0] == gap[0];
      assert gap == [gap[0]] + gap[1..];
      HoldsParts(s, i, [gap[0]], gap[1..]);
      SkipGap(s, i + 1, gap[1..]);
    }
  }

  /** Behind a closing quote the blanks decide. */
  lemma GapDecides(s: Text, k: nat, gap: Text, q: Octet)
    requires (q == '\'' || q == '"') && IsGap(gap) && Holds(s, k + 1, gap)
    requires HasAt(s, k, q) && HasAt(s, k + 1 + |gap|, q)
    ensures Unquote(s, k, q, false) ==
      if '\n' in gap then Unquote(s, k + 2 + |gap|, q, false) else Closed([], k + 1 + |gap|)
  {
    assert s[k + 1 + 0] == gap[0] != q;
    SkipGap(s, k + 1, gap);
  }

  lemma JoinedParts(s: Text, i: nat, t: Text, gap: Text, u: Text, q: Octet)
    requires gap != [] && Holds(s, i, Doubled(t, q) + ([q] + (gap + Quote(u, q))))
    ensures var k := i + |Doubled(t, q)|;
            && Holds(s, i, Doubled(t, q)) && HasAt(s, k, q) && Holds(s, k + 1, gap)
            && HasAt(s, k + 1 + |gap|, q) && Holds(s, k + 1 + |gap|, Quote(u, q))
  {
    var k := i + |Doubled(t, q)|;
    HoldsParts(s, i, Doubled(t, q), [q] + (gap + Quote(u, q)));
    HoldsParts(s, k, [q], gap + Quote(u, q));
    HoldsParts(s, k + 1, gap, Quote(u, q));
    assert s[k + 0] == [q][0];
    QuoteHolds(s, k + 1 + |gap|, u, q);
  }

  /** Two strings with blanks in between are one if and only if there is a newline among the blanks. */
  lemma StringsJoin(s: Text, i: nat, t: Text, gap: Text, u: Text, q: Octet)
    requires (q == '\'' || q == '"') && IsGap(gap) && Holds(s, i, Doubled(t, q) + ([q] + (gap + Quote(u, q))))
    requires !Continues(s, i + |Doubled(t, q)| + 1 + |gap| + |Quote(u, q)|, q)
    ensures var second := i + |Doubled(t, q)| + 1 + |gap|;
            Unquote(s, i, q, false) ==
              if '\n' in gap then Closed(t + u, SkipBlanks(s, second + |Quote(u, q)|).0) else Closed(t, second)
  {
    JoinedParts(s, i, t, gap, u, q);
    BehindFirst(s, i + |Doubled(t, q)|, gap, u, q, i + |Doubled(t, q)| + 1 + |gap|);
    UnquoteDoubled(s, i, t, q, false);
    NothingAround(t);
  }

  lemma BehindFirst(s: Text, k: nat, gap: Text, u: Text, q: Octet, second: nat)
    requires (q == '\'' || q == '"') && IsGap(gap) && second == k + 1 + |gap|
    requires HasAt(s, k, q) && Holds(s, k + 1, gap) && Holds(s, second, Quote(u, q))
    requires !Continues(s, second + |Quote(u, q)|, q)
    ensures Unquote(s, k, q, false) ==
      if '\n' in gap then Closed(u, SkipBlanks(s, second + |Quote(u, q)|).0) else Closed([], second)
  {
    QuoteHolds(s, second, u, q);
    QuotedRead(s, second, u, q);
    GapDecides(s, k, gap, q);
  }

  /** A backslash that starts no escape is dropped, and what follows it stays. */
  lemma OtherEscapes(s: Text, i: nat, q: Octet)
    requires i + 1 < |s| && s[i] == '\\' && s[i + 1] !in ESCAPE_LETTERS
    requires q == '\''
    ensures Unquote(s, i, q, true) == Prepend([s[i + 1]], Unquote(s, i + 2, q, true))
  {
    var c := s[i + 1];
    EscapeTable(c);
    assert c != '\\' by { assert ESCAPE_LETTERS[7] == '\\'; }
    if c != q { assert Unquote(s, i + 1, q, true) == Prepend([c], Unquote(s, i + 2, q, true)); }
  }

  /** Bits are read as they are; anything else among them is an error. */
  lemma BitRoundTrip(lib: Library, s: Text, j: nat, t: Text)
    requires Holds(s, j, ['B', '\''] + (t + ['\''])) && !Continues(s, j + |t| + 3, '\'')
    requires forall k :: 0 <= k < |t| ==> t[k] == '0' || t[k] == '1'
    ensures TokenAt(lib, s, j) == Token(BITCONST, t, NoValue, SkipBlanks(s, j + |t| + 3).0)
  {
    BitLiteral(s, j, t);
    BitsToken(lib, s, j);
  }

  lemma BitsToken(lib: Library, s: Text, j: nat)
    requires j + 1 < |s| && s[j] == 'B' && s[j + 1] == '\''
    ensures TokenAt(lib, s, j) == BitTokenAt(s, j + 2)
  {
    assert TokenAt(lib, s, j) == LetterTokenAt(lib, s, j);
  }

  lemma BitLiteral(s: Text, j: nat, t: Text)
    requires Holds(s, j, ['B', '\''] + (t + ['\''])) && !Continues(s, j + |t| + 3, '\'')
    requires forall k :: 0 <= k < |t| ==> t[k] == '0' || t[k] == '1'
    ensures s[j] == 'B' && s[j + 1] == '\''
    ensures BitTokenAt(s, j + 2) == Token(BITCONST, t, NoValue, SkipBlanks(s, j + |t| + 3).0)
  {
    var head: Text := ['B', '\''];
    HoldsParts(s, j, head, t + ['\'']);
    assert s[j + 0] == head[0] && s[j + 1] == head[1];
    HoldsParts(s, j + 2, t, ['\'']);
    assert s[j + 2 + |t| + 0] == ['\''][0];
    LiteralCloses(s, j + 2 + |t|, false);
    DigitsRead(s, j + 2, t, false);
    NothingAround(t);
  }

  // Numbers.

  lemma NumeralToken(lib: Library, s: Text, j: nat)
    requires StartsNumeral(s, j)
    ensures TokenAt(lib, s, j) == NumberAt(lib, s, j)
  {}

  lemma {:induction false} NoLeadingZero(n: nat)
    ensures var t := DecimalText(n); t == ['0'] || t[0] != '0'
  {
    if n >= 10 { NoLeadingZero(n / 10); }
  }

  lemma {:induction false} ZerosStripped(z: nat, t: Text)
    requires t == ['0'] || (t != [] && t[0] != '0')
    ensures StripZeros(Repeat<Octet>('0', z) + t) == t
    decreases z
  {
    var s := Repeat<Octet>('0', z) + t;
    if z == 0 {
      assert s == t;
    } else {
      assert s[1..] == Repeat<Octet>('0', z - 1) + t;
      ZerosStripped(z - 1, t);
    }
  }

  /** Digits alone are a whole number. */
  lemma WholeInt(s: Text)
    requires s != [] && AllDigits(s, 0, |s|)
    ensures StartsNumeral(s, 0) && !IsHex(s, 0) && NumeralAt(s, 0) == Int(|s|)
  {
    DigitsEndIs(s, 0, |s|);
  }

  /** A number is read back from its digits, whatever zeros are in front of them. */
  lemma IntegerRoundTrip(lib: Library, n: nat, z: nat)
    ensures var t := DecimalText(n);
            TokenAt(lib, Repeat<Octet>('0', z) + t, 0) ==
              if lib.known(t, false) then Token(ICONST, t, Number(t, false), z + |t|)
              else Token(ERROR, NotANumber(t, false), NoValue, z + |t|)
  {
    var t := DecimalText(n);
    var s := Repeat<Octet>('0', z) + t;
    WholeInt(s);
    NumeralToken(lib, s, 0);
    assert s[0..|s|] == s;
    NoLeadingZero(n);
    ZerosStripped(z, t);
  }

  lemma WholeMantissa(s: Text, dot: nat)
    requires dot < |s| && IsMantissa(s, 0, dot, |s|)
    ensures StartsNumeral(s, 0) && MantissaEnd(s, 0) == (|s|, true)
  {
    DigitsEndIs(s, 0, dot);
    DigitsEndIs(s, dot + 1, |s|);
  }

  lemma WholeExponent(s: Text, dot: nat, m: nat)
    requires IsMantissa(s, 0, dot, m) && IsExponent(s, m, |s|) && !IsHex(s, 0)
    ensures StartsNumeral(s, 0) && NumeralAt(s, 0) == Float(|s|)
  {
    MantissaBeforeLetter(s, 0, dot, m);
    DigitsEndIs(s, SignEnd(s, m + 1), |s|);
  }

  lemma WholeFloat(s: Text)
    requires IsFloat(s, 0, |s|)
    ensures StartsNumeral(s, 0) && NumeralAt(s, 0) == Float(|s|)
  {
    var dot: nat, m: nat :| IsMantissa(s, 0, dot, m) && if m == |s| then dot < |s| else IsExponent(s, m, |s|);
    if IsHex(s, 0) { NoFloatWithX(s, 0, |s|); }
    if m == |s| { WholeMantissa(s, dot); } else { WholeExponent(s, dot, m); }
  }

  /** What is a float as a whole is read as one. */
  lemma FloatRead(lib: Library, s: Text)
    requires IsFloat(s, 0, |s|)
    ensures TokenAt(lib, s, 0) ==
      if lib.known(s, true) then Token(FCONST, s, Number(s, true), |s|)
      else Token(ERROR, NotANumber(s, true), NoValue, |s|)
  {
    WholeFloat(s);
    NumeralToken(lib, s, 0);
    assert s[0..|s|] == s;
  }

  /** A hexadecimal number keeps its mark and its zeros. */
  lemma HexNumberRead(lib: Library, s: Text)
    requires IsHexInt(s, 0, |s|)
    ensures TokenAt(lib, s, 0) ==
      if lib.known(s, false) then Token(ICONST, s, Number(s, false), |s|)
      else Token(ERROR, NotANumber(s, false), NoValue, |s|)
  {
    NumeralToken(lib, s, 0);
    assert HexEnd(s, 2) == |s| && NumeralAt(s, 0) == Int(|s|);
    assert s[0..|s|] == s;
  }

  /** A number never takes the first of two dots. */
  lemma DotsStay(s: Text, j: nat)
    requires StartsNumeral(s, j) && (NumeralAt(s, j).Int? || NumeralAt(s, j).Float?)
    ensures !TwoDots(s, NumeralAt(s, j).end - 1)
  {
    var d := if s[j] == '.' then j else DigitsEnd(s, j);
    if s[j] == '.' { DigitsEndIs(s, j + 1, j + 2); }
  }
}
