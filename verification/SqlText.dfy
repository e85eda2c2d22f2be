/** encode.go and string_encoding.go: printing identifiers, strings and byte strings that scan.go reads back. */
module SqlText {
  import opened Bytes
  import opened Escapes
  import opened Machine
  import opened Names
  import opened Octets
  import opened Scanning
  import opened Slices
  import opened Tokens

  // Tokens by what they start with.

  lemma QuoteToken(lib: Library, s: Text, j: nat)
    requires j < |s| && (s[j] == '"' || s[j] == '\'')
    ensures TokenAt(lib, s, j) == StringAt(lib, s, j + 1, if s[j] == '"' then NAME_STYLE else PLAIN_STYLE)
  {}

  lemma EscapesToken(lib: Library, s: Text, j: nat)
    requires j + 1 < |s| && (s[j] == 'b' || s[j] == 'e') && s[j + 1] == '\''
    ensures TokenAt(lib, s, j) == StringAt(lib, s, j + 2, if s[j] == 'b' then BYTES_STYLE else ESCAPED_STYLE)
  {
    assert TokenAt(lib, s, j) == LetterTokenAt(lib, s, j);
  }

  lemma QuoteHolds(s: Text, j: nat, t: Text, q: Octet)
    requires Holds(s, j, Quote(t, q))
    ensures s[j] == q && Holds(s, j + 1, Doubled(t, q) + [q])
  {
    var d := Doubled(t, q) + [q];
    assert Quote(t, q) == [q] + d;
    HoldsParts(s, j, [q], d);
    assert s[j + 0] == [q][0];
  }

  lemma QuotedRead(s: Text, j: nat, t: Text, q: Octet)
    requires Holds(s, j, Quote(t, q)) && !Continues(s, j + |Quote(t, q)|, q)
    ensures s[j] == q && Unquote(s, j + 1, q, false) == Closed(t, SkipBlanks(s, j + |Quote(t, q)|).0)
  {
    QuoteHolds(s, j, t, q);
    var close := j + 1 + |Doubled(t, q)| + 1;
    assert close == j + |Quote(t, q)|;
    QuoteRoundTrip(s, j + 1, t, q);
  }

  lemma NothingContinues(s: Text, q: Octet)
    ensures SkipBlanks(s, |s|) == (|s|, false) && !Continues(s, |s|, q)
  {}

  // Identifiers.

  /** The buffer and the piece from start on are the quoted form of what precedes i. */
  ghost predicate Encoded(buf: Text, s: Text, start: nat, i: nat)
    requires start <= i <= |s|
  {
    buf + s[start..i] + Doubled(s[i..], '"') == ['"'] + Doubled(s, '"')
  }

  lemma EncodedQuote(buf: Text, s: Text, start: nat, i: nat)
    requires start <= i < |s| && s[i] == '"' && Encoded(buf, s, start, i)
    ensures Encoded(buf + s[start..i] + ['"'] + ['"'], s, i + 1, i + 1)
  {
    assert s[i..] == ['"'] + s[i + 1..];
    var head := buf + s[start..i];
    Associate(head, ['"', '"'], Doubled(s[i + 1..], '"'));
    assert head + ['"'] + ['"'] + s[i + 1..i + 1] == head + ['"', '"'];
  }

  lemma EncodedOther(buf: Text, s: Text, start: nat, i: nat)
    requires start <= i < |s| && s[i] != '"' && Encoded(buf, s, start, i)
    ensures Encoded(buf, s, start, i + 1)
  {
    assert s[i..] == [s[i]] + s[i + 1..];
    Associate(buf + s[start..i], [s[i]], Doubled(s[i + 1..], '"'));
    assert buf + s[start..i] + [s[i]] == buf + s[start..i + 1];
  }

  /** Copies the pieces between quotes and doubles the quotes. */
  method EncodeEscapedSQLIdent(s: Text) returns (buf: Text)
    ensures buf == Quote(s, '"')
  {
    buf := ['"'];
    var start := 0;
    assert s[0..] == s && buf + s[0..0] == buf;
    for i := 0 to |s|
      invariant 0 <= start <= i && Encoded(buf, s, start, i)
    {
      var ch := s[i];
      if ch == '"' {
        EncodedQuote(buf, s, start, i);
        if start != i { buf := buf + s[start..i]; } else { assert buf + s[start..i] == buf; }
        start := i + 1;
        buf := buf + [ch] + [ch];
      } else {
        EncodedOther(buf, s, start, i);
      }
    }
    assert buf + s[start..] == buf + s[start..|s|] + Doubled(s[|s|..], '"');
    if start < |s| { buf := buf + s[start..]; } else { assert buf + s[start..] == buf; }
    buf := buf + ['"'];
  }

  /**
   Scanning a quoted identifier of any bytes gives one token that ends at the end of the input: an IDENT
   with the normalized text when the bytes are UTF-8, and an error otherwise.
   */
  lemma IdentToken(lib: Library, t: Text)
    ensures var s := Quote(t, '"');
            SkipAll(s, 0) == At(0) &&
            TokenAt(lib, s, 0) ==
              if IsUtf8(t) then Token(IDENT, Normalized(lib, t), NoValue, |s|) else Failed(ERR_UTF8, |s|)
  {
    QuotedName(Quote(t, '"'), t);
    QuoteToken(lib, Quote(t, '"'), 0);
  }

  lemma QuotedName(s: Text, t: Text)
    requires s == Quote(t, '"')
    ensures s[0] == '"' && Unquote(s, 1, '"', false) == Closed(t, |s|)
  {
    NothingContinues(s, '"');
    QuotedRead(s, 0, t, '"');
  }

  /** The text comes back exactly when it is normalized UTF-8, as all ASCII text is. */
  lemma IdentRoundTrip(lib: Library, t: Text)
    ensures var tok := TokenAt(lib, Quote(t, '"'), 0);
            && (tok.id == IDENT && tok.str == t <==> IsUtf8(t) && Normalized(lib, t) == t)
            && (IsAscii(t) ==> tok == Token(IDENT, t, NoValue, |Quote(t, '"')|))
  {
    IdentToken(lib, t);
    if IsAscii(t) { AsciiIsUtf8(t); }
  }

  /** The first token of a bare identifier is a name. */
  lemma BareIsName(lib: Library, s: Text)
    requires IsBare(lib, s)
    ensures SkipAll(s, 0) == At(0) && TokenAt(lib, s, 0) == NameAt(lib, s, 0)
  {
    assert |s| > 1 ==> IsIdentMiddle(s[1]);
  }

  /** It takes all of it; prefix and keywords make the difference. */
  lemma BareName(lib: Library, s: Text)
    requires IsBare(lib, s)
    ensures var t := NameAt(lib, s, 0);
            t.end == |s| && (t.id == IDENT && t.str == s <==> !LosesPrefix(lib, s) && lib.keyword(s) == IDENT)
  {
    NameKept(lib, s);
    BareIsWhole(lib, s);
    assert s[0..|s|] == s;
  }

  /**
   An identifier that is reserved, or that the scanner would not leave as it is, is printed in quotes and comes
   back when it is normalized UTF-8; any other one comes back when it has no prefix to lose and is no keyword.
   */
  ghost predicate ComesBack(lib: Library, reserved: Text -> bool, s: Text) {
    if reserved(s) || !ReadsAsItIs(lib, s) then IsUtf8(s) && Normalized(lib, s) == s
    else !LosesPrefix(lib, s) && lib.keyword(s) == IDENT
  }

  lemma RestrictedRoundTrip(lib: Library, reserved: Text -> bool, s: Text, buf: Text)
    requires lib.Valid()
    requires buf == if reserved(s) || !ReadsAsItIs(lib, s) then Quote(s, '"') else s
    ensures var t := TokenAt(lib, buf, 0);
            && (t.id == IDENT && t.str == s <==> ComesBack(lib, reserved, s))
            && (reserved(s) && IsUtf8(s) ==> t.id == IDENT)
  {
    if reserved(s) || !ReadsAsItIs(lib, s) {
      IdentToken(lib, s);
    } else {
      BareIffRead(lib, s);
      BareIsName(lib, s);
      BareName(lib, s);
    }
  }

  /** Quotes what is reserved or needs quotes, unless the flag asks for none. */
  method EncodeRestrictedSQLIdent(lib: Library, reserved: Text -> bool, s: Text, bare: bool) returns (buf: Text)
    requires lib.Valid()
    ensures bare ==> buf == s
    ensures !bare ==> (buf == s <==> !reserved(s) && ReadsAsItIs(lib, s)) && (buf != s ==> buf == Quote(s, '"'))
    ensures !bare && reserved(s) && IsUtf8(s) ==> TokenAt(lib, buf, 0).id == IDENT
    ensures !bare ==>
      (TokenAt(lib, buf, 0).id == IDENT && TokenAt(lib, buf, 0).str == s <==> ComesBack(lib, reserved, s))
  {
    BareIffRead(lib, s);
    if bare || (!reserved(s) && IsBare(lib, s)) {
      buf := s;
    } else {
      buf := EncodeEscapedSQLIdent(s);
      assert |buf| > |s| by { DoubledLonger(s); }
    }
    if !bare { RestrictedRoundTrip(lib, reserved, s, buf); }
  }

  lemma {:induction false} DoubledLonger(t: Text)
    ensures |Doubled(t, '"')| >= |t|
    decreases |t|
  {
    if t != [] { DoubledLonger(t[1..]); }
  }

  /** A name that is printed bare and loses its prefix. */
  lemma ExperimentalRangesIsLost(lib: Library, reserved: Text -> bool)
    requires lib.Valid() && !reserved(EXPERIMENTAL + RANGES) && lib.keyword(RANGES) != IDENT
    ensures ReadsAsItIs(lib, EXPERIMENTAL + RANGES) && !ComesBack(lib, reserved, EXPERIMENTAL + RANGES)
  {
    assert (EXPERIMENTAL + RANGES)[|EXPERIMENTAL|..] == RANGES;
    BareIffRead(lib, EXPERIMENTAL + RANGES);
  }

  // What the scanner reads where escapes are allowed.

  /** Wherever the body stands in a string, the scanner reads the text and goes on behind it. */
  ghost predicate Writes(body: Text, text: Text) {
    forall s: Text, i: nat :: Holds(s, i, body) ==> WritesAt(s, i, body, text)
  }

  ghost predicate WritesAt(s: Text, i: nat, body: Text, text: Text)
    requires Holds(s, i, body)
  {
    Unquote(s, i, '\'', true) == Prepend(text, Unquote(s, i + |body|, '\'', true))
  }

  lemma WritesNothing()
    ensures Writes([], [])
  {
    forall s: Text, i: nat | Holds<Octet>(s, i, []) ensures WritesAt(s, i, [], []) {
      PrependNothing(Unquote(s, i, '\'', true));
    }
  }

  lemma WritesBoth(b: Text, t: Text, c: Text, u: Text)
    requires Writes(b, t) && Writes(c, u)
    ensures Writes(b + c, t + u)
  {
    forall s: Text, i: nat | Holds(s, i, b + c) ensures WritesAt(s, i, b + c, t + u) {
      HoldsParts(s, i, b, c);
      assert WritesAt(s, i, b, t) && WritesAt(s, i + |b|, c, u);
      PrependTwice(t, u, Unquote(s, i + |b + c|, '\'', true));
    }
  }

  /** What the scanner reads as it stands. */
  predicate Plain(c: Octet) {
    c != '\'' && c != '\\'
  }

  predicate AllPlain(t: Text) {
    forall k :: 0 <= k < |t| ==> Plain(t[k])
  }

  lemma {:induction false} WritesPlain(t: Text)
    requires AllPlain(t)
    ensures Writes(t, t)
    decreases |t|
  {
    if t == [] {
      WritesNothing();
    } else {
      forall s: Text, i: nat | Holds(s, i, [t[0]]) ensures WritesAt(s, i, [t[0]], [t[0]]) {
        UnquoteOne(s, i, t[0], '\'', [t[0]], true);
      }
      WritesPlain(t[1..]);
      WritesBoth([t[0]], [t[0]], t[1..], t[1..]);
      assert [t[0]] + t[1..] == t;
    }
  }

  lemma WritesHex(c: Octet)
    ensures Writes(HexMap(c), [c])
  {
    forall s: Text, i: nat | Holds(s, i, HexMap(c)) ensures WritesAt(s, i, HexMap(c), [c]) {
      HexMapRead(s, i, c);
      assert Unquote(s, i, '\'', true) == UnquoteEscape(s, i, '\'');
    }
  }

  lemma WritesByte(c: Octet)
    ensures Writes(EscapedByte(c), [c])
  {
    var b := EscapedByte(c);
    if b == [c] {
      WritesPlain([c]);
    } else if b == HexMap(c) {
      WritesHex(c);
    } else {
      WritesLetter(b, c);
    }
  }

  lemma WritesLetter(b: Text, c: Octet)
    requires |b| == 2 && b[0] == '\\' && (b[1] == '\'' == c || (b[1] != '\'' && Simple(b[1]) == Some(c)))
    ensures Writes(b, [c])
  {
    forall s: Text, i: nat | Holds(s, i, b) ensures WritesAt(s, i, b, [c]) {
      assert s[i + 0] == b[0] && s[i + 1] == b[1];
      assert Unquote(s, i, '\'', true) == UnquoteEscape(s, i, '\'');
    }
  }

  lemma WritesRune(r: int)
    requires ValidRune(r) && r >= 0x80
    ensures Writes(RuneEscape(r), EncodeRune(r))
  {
    forall s: Text, i: nat | Holds(s, i, RuneEscape(r)) ensures WritesAt(s, i, RuneEscape(r), EncodeRune(r)) {
      RuneEscapeRead(s, i, r);
      assert Unquote(s, i, '\'', true) == UnquoteEscape(s, i, '\'');
    }
  }

  /** A literal of one letter, a quote, the body and a quote. */
  function Literal(letter: Octet, body: Text): Text {
    [letter, '\''] + body + ['\'']
  }

  /** The literal anywhere in the input, where the input does not go on with the string. */
  lemma LiteralRead(s: Text, j: nat, letter: Octet, body: Text, text: Text)
    requires Writes(body, text) && Holds(s, j, Literal(letter, body))
    requires !Continues(s, j + |body| + 3, '\'')
    ensures s[j] == letter && s[j + 1] == '\''
    ensures Unquote(s, j + 2, '\'', true) == Closed(text, SkipBlanks(s, j + |body| + 3).0)
  {
    var close := j + |body| + 2;
    HoldsParts(s, j, [letter, '\''] + body, ['\'']);
    HoldsParts(s, j, [letter, '\''], body);
    assert s[j + 0] == [letter, '\''][0] && s[j + 1] == [letter, '\''][1] && s[close + 0] == ['\''][0];
    assert WritesAt(s, j + 2, body, text);
    assert Unquote(s, close, '\'', true) == Closed([], SkipBlanks(s, close + 1).0);
    NothingAround(text);
  }

  // Byte strings.

  function EscapedBytes(t: Text): Text {
    if t == [] then [] else EscapedBytes(t[..|t| - 1]) + EscapedByte(t[|t| - 1])
  }

  lemma {:induction false} WritesBytes(t: Text)
    ensures Writes(EscapedBytes(t), t)
    decreases |t|
  {
    if t == [] {
      WritesNothing();
    } else {
      var c := t[|t| - 1];
      WritesBytes(t[..|t| - 1]);
      WritesByte(c);
      WritesBoth(EscapedBytes(t[..|t| - 1]), t[..|t| - 1], EscapedByte(c), [c]);
      assert t[..|t| - 1] + [c] == t;
    }
  }

  predicate AllPrintable(t: Text) {
    forall k :: 0 <= k < |t| ==> Printable(t[k])
  }

  lemma {:induction false} BytesPrintable(t: Text)
    ensures AllPrintable(EscapedBytes(t))
    decreases |t|
  {
    if t != [] {
      BytesPrintable(t[..|t| - 1]);
      BytePrintable(t[|t| - 1]);
    }
  }

  lemma BytePrintable(c: Octet)
    ensures AllPrintable(EscapedByte(c)) && AllPrintable(HexMap(c))
  {
    HexPrintable(c as int, 2, false);
  }

  lemma {:induction false} HexPrintable(v: nat, n: nat, upper: bool)
    ensures AllPrintable(PrintHex(v, n, upper))
    decreases n
  {
    if n > 0 { HexPrintable(v / 16, n - 1, upper); }
  }

  /** EncodeSQLBytes: copies the pieces between bytes that need an escape. */
  method EncodeSQLBytes(s: Text) returns (buf: Text)
    ensures buf == Literal('b', EscapedBytes(s)) && AllPrintable(buf)
  {
    var body := EncodeSQLBytesInner(s);
    buf := ['b', '\''] + body + ['\''];
    BytesPrintable(s);
  }

  method EncodeSQLBytesInner(s: Text) returns (buf: Text)
    ensures buf == EscapedBytes(s)
  {
    buf := [];
    var start := 0;
    for i := 0 to |s|
      invariant 0 <= start <= i && Copied(buf, s, start, i)
    {
      var ch := s[i];
      var escape: Text :=
        if Letter(ch).Some? then ['\\', Letter(ch).value]
        else if ch == '\'' then ['\\', ch]
        else if !Printable(ch) then HexMap(ch)
        else [];
      if escape != [] {
        EscapeCopied(buf, s, start, i, escape);
        buf := buf + s[start..i] + escape;
        start := i + 1;
      } else {
        ByteCopied(buf, s, start, i);
      }
    }
    assert s[start..] == s[start..|s|] && s[..|s|] == s;
    buf := buf + s[start..];
  }

  /** The buffer and the piece from start on are the escaped form of what precedes i. */
  ghost predicate Copied(buf: Text, s: Text, start: nat, i: nat)
    requires start <= i <= |s|
  {
    buf + s[start..i] == EscapedBytes(s[..i])
  }

  lemma EscapeCopied(buf: Text, s: Text, start: nat, i: nat, escaped: Text)
    requires start <= i < |s| && Copied(buf, s, start, i) && escaped == EscapedByte(s[i])
    ensures Copied(buf + s[start..i] + escaped, s, i + 1, i + 1)
  {
    assert s[..i + 1][..i] == s[..i];
    NothingAround(buf + s[start..i] + escaped);
  }

  lemma ByteCopied(buf: Text, s: Text, start: nat, i: nat)
    requires start <= i < |s| && Copied(buf, s, start, i) && EscapedByte(s[i]) == [s[i]]
    ensures Copied(buf, s, start, i + 1)
  {
    assert s[..i + 1][..i] == s[..i];
    assert s[start..i + 1] == s[start..i] + [s[i]];
    Associate(buf, s[start..i], [s[i]]);
  }

  /** Any bytes come back, wherever the literal stands, unless the input goes on with the string. */
  lemma BytesRoundTrip(lib: Library, s: Text, j: nat, t: Text)
    requires Holds(s, j, Literal('b', EscapedBytes(t))) && !Continues(s, j + |EscapedBytes(t)| + 3, '\'')
    ensures TokenAt(lib, s, j) == Token(BCONST, t, NoValue, SkipBlanks(s, j + |EscapedBytes(t)| + 3).0)
  {
    BytesString(lib, s, j, t);
    EscapesToken(lib, s, j);
  }

  lemma BytesString(lib: Library, s: Text, j: nat, t: Text)
    requires Holds(s, j, Literal('b', EscapedBytes(t))) && !Continues(s, j + |EscapedBytes(t)| + 3, '\'')
    ensures s[j] == 'b' && s[j + 1] == '\''
    ensures StringAt(lib, s, j + 2, BYTES_STYLE) ==
            Token(BCONST, t, NoValue, SkipBlanks(s, j + |EscapedBytes(t)| + 3).0)
  {
    WritesBytes(t);
    LiteralRead(s, j, 'b', EscapedBytes(t), t);
  }

  // Strings.

  /** EncodeEscapedChar for the single quote: what is written for the character at i. */
  function EscapedChar(s: Text, i: nat): Text
    requires i < |s|
  {
    var (r, _) := DecodeRune(s[i..]);
    if r == RUNE_ERROR then HexBytesAt(s, i, 3)
    else if RuneLen(r) > 1 then RuneEscape(r)
    else if Letter(s[i]).Some? then ['\\', Letter(s[i]).value]
    else if s[i] == '\'' then ['\\', s[i]]
    else HexMap(s[i])
  }

  /** n bytes from i on, as far as there are any. */
  function HexBytesAt(s: Text, i: nat, n: nat): Text
    decreases n
  {
    if n == 0 || i >= |s| then [] else HexMap(s[i]) + HexBytesAt(s, i + 1, n - 1)
  }

  lemma {:induction false} WritesHexBytes(s: Text, i: nat, n: nat)
    requires i <= |s|
    ensures Writes(HexBytesAt(s, i, n), s[i..Min(i + n, |s|)]) && AllPrintable(HexBytesAt(s, i, n))
    decreases n
  {
    if n == 0 || i == |s| {
      assert s[i..i] == [];
      WritesNothing();
    } else {
      WritesHex(s[i]);
      BytePrintable(s[i]);
      WritesHexBytes(s, i + 1, n - 1);
      WritesBoth(HexMap(s[i]), [s[i]], HexBytesAt(s, i + 1, n - 1), s[i + 1..Min(i + n, |s|)]);
      assert s[i..Min(i + n, |s|)] == [s[i]] + s[i + 1..Min(i + n, |s|)];
    }
  }

  /** The escape of a character stands for as many bytes as its rune has. */
  lemma WritesChar(s: Text, i: nat)
    requires i < |s|
    ensures var (r, n) := DecodeRune(s[i..]);
            && ValidRune(r) && n <= RuneLen(r) && (RuneLength(s[i..]) > 0 ==> n == RuneLen(r))
            && Writes(EscapedChar(s, i), s[i..Min(i + RuneLen(r), |s|)]) && AllPrintable(EscapedChar(s, i))
  {
    var (r, n) := DecodeRune(s[i..]);
    if RuneLength(s[i..]) > 0 { EncodeDecode(s[i..]); }
    if r == RUNE_ERROR {
      WritesHexBytes(s, i, 3);
    } else if RuneLen(r) > 1 {
      assert s[i..i + n] == s[i..][..n];
      WritesLong(s, i, r);
    } else {
      assert s[i..i + 1] == [s[i]];
      WritesAscii(s, i);
    }
  }

  lemma WritesLong(s: Text, i: nat, r: int)
    requires i < |s| && r == DecodeRune(s[i..]).0 && r != RUNE_ERROR && r >= 0x80 && ValidRune(r)
    ensures Writes(EscapedChar(s, i), EncodeRune(r)) && AllPrintable(EscapedChar(s, i))
  {
    WritesRune(r);
    HexPrintable(r, 4, true);
    HexPrintable(r, 8, true);
  }

  lemma WritesAscii(s: Text, i: nat)
    requires i < |s| && s[i] as int < 0x80
    ensures Writes(EscapedChar(s, i), [s[i]]) && AllPrintable(EscapedChar(s, i))
  {
    WritesByte(s[i]);
    WritesHex(s[i]);
    BytePrintable(s[i]);
  }

  /** The body written so far stands for what precedes start, and from there to i nothing needs an escape. */
  ghost predicate Written(s: Text, body: Text, start: nat, i: nat)
    requires i <= |s|
  {
    Writes(body, s[..Min(start, |s|)]) && forall k :: start <= k < i ==> Plain(s[k])
  }

  /** What stays in the text as it is. */
  predicate IsKept(c: Octet) {
    Printable(c) && Plain(c)
  }

  /** mustQuoteMap */
  predicate MustQuote(c: Octet) {
    c == ' ' || c == ',' || c == '{' || c == '}'
  }

  predicate MayBeBare(s: Text) {
    forall k :: 0 <= k < |s| ==> IsKept(s[k]) && !MustQuote(s[k])
  }

  /** The rest of a character that starts inside an escape is no quote and no backslash. */
  lemma CharSkipped(s: Text, body: Text, start: nat, i: nat)
    requires i < |s| && i < start && Written(s, body, start, i)
    ensures Written(s, body, start, i + DecodeRune(s[i..]).1)
  {
    var n := DecodeRune(s[i..]).1;
    forall k | start <= k < i + n ensures Plain(s[k]) {
      Continuation(s[i..], k - i);
      assert s[k] == s[i..][k - i];
    }
  }

  lemma StretchWritten(s: Text, body: Text, start: nat, i: nat)
    requires start <= i <= |s| && Written(s, body, start, i)
    ensures Writes(body + s[start..i], s[..i])
  {
    WritesPlain(s[start..i]);
    WritesBoth(body, s[..start], s[start..i], s[start..i]);
    assert s[..start] + s[start..i] == s[..i];
  }

  lemma CharEscaped(s: Text, body: Text, start: nat, i: nat)
    requires start <= i < |s| && Written(s, body, start, i)
    ensures var (r, n) := DecodeRune(s[i..]);
            ValidRune(r) && Written(s, body + s[start..i] + EscapedChar(s, i), i + RuneLen(r), i + n)
  {
    var (r, n) := DecodeRune(s[i..]);
    WritesChar(s, i);
    var end := Min(i + RuneLen(r), |s|);
    StretchWritten(s, body, start, i);
    WritesBoth(body + s[start..i], s[..i], EscapedChar(s, i), s[i..end]);
    assert s[..i] + s[i..end] == s[..end];
  }

  lemma AllWritten(s: Text, body: Text, start: nat)
    requires Written(s, body, start, |s|)
    ensures Writes(body + s[Min(start, |s|)..], s)
  {
    var m := Min(start, |s|);
    WritesPlain(s[m..]);
    WritesBoth(body, s[..m], s[m..], s[m..]);
    assert s[..m] + s[m..] == s;
  }

  /** The text between quotes that are doubled inside, or a literal with escapes that stand for it. */
  ghost predicate PrintsString(buf: Text, s: Text) {
    buf == Quote(s, '\'') || exists body :: buf == Literal('e', body) && Writes(body, s)
  }

  /** Text that is UTF-8 comes out as printable ASCII: so far, and from start to i. */
  ghost predicate OnlyPrintable(s: Text, body: Text, start: nat, i: nat)
    requires i <= |s|
  {
    start <= i && IsUtf8(s[i..]) && AllPrintable(body) && forall k :: start <= k < i ==> Printable(s[k])
  }

  lemma CharKept(s: Text, body: Text, start: nat, i: nat)
    requires start <= i < |s| && Written(s, body, start, i) && IsKept(s[i])
    ensures DecodeRune(s[i..]) == (s[i] as int, 1) && Written(s, body, start, i + 1)
    ensures OnlyPrintable(s, body, start, i) ==> OnlyPrintable(s, body, start, i + 1)
  {
    assert s[i..][1..] == s[i + 1..];
  }

  lemma CharPrinted(s: Text, body: Text, start: nat, i: nat)
    requires i < |s| && OnlyPrintable(s, body, start, i)
    ensures var (r, n) := DecodeRune(s[i..]);
            ValidRune(r) && OnlyPrintable(s, body + s[start..i] + EscapedChar(s, i), i + RuneLen(r), i + n)
  {
    WritesChar(s, i);
    assert s[i..][DecodeRune(s[i..]).1..] == s[i + DecodeRune(s[i..]).1..];
  }

  /**
   The state of the loop: the buffer holds the body behind an opening quote, or nothing as long as nothing
   has needed an escape.
   */
  ghost predicate Printing(s: Text, buf: Text, body: Text, start: nat, i: nat, escaped: bool)
    requires i <= |s|
  {
    && Written(s, body, start, i) && (IsUtf8(s) ==> OnlyPrintable(s, body, start, i))
    && if escaped then buf == ['e', '\''] + body && !MayBeBare(s)
       else buf == body == [] && start == 0 && forall k :: 0 <= k < i ==> IsKept(s[k])
  }

  /** EncodeSQLStringWithFlags */
  method EncodeSQLString(s: Text, bareStrings: bool) returns (buf: Text)
    ensures if bareStrings && MayBeBare(s) then buf == s else PrintsString(buf, s)
    ensures IsUtf8(s) ==> AllPrintable(buf)
  {
    var start: nat, i: nat, escaped, bare := 0, 0, false, bareStrings;
    buf := [];
    ghost var body: Text := [];
    NothingPrinted(s);
    while i < |s|
      invariant i <= |s| && Printing(s, buf, body, start, i, escaped)
      invariant !escaped ==> bare == (bareStrings && NoneQuoted(s[..i]))
    {
      var (r, n) := DecodeRune(s[i..]);
      if i < start {
        CharPassed(s, buf, body, start, i, escaped);
      } else {
        if 0x20 <= r < 0x7F && MustQuote(r as char) { bare := false; }
        buf, start, escaped, body := EncodeChar(s, i, r, n, buf, start, escaped, body);
        NextQuoted(s, i);
      }
      i := i + n;
    }
    buf := CloseString(s, buf, start, escaped, bare, body);
  }

  lemma CharPassed(s: Text, buf: Text, body: Text, start: nat, i: nat, escaped: bool)
    requires i < |s| && i < start && Printing(s, buf, body, start, i, escaped)
    ensures escaped && Printing(s, buf, body, start, i + DecodeRune(s[i..]).1, true)
  {
    CharSkipped(s, body, start, i);
  }

  predicate NoneQuoted(s: Text) {
    forall k :: 0 <= k < |s| ==> !MustQuote(s[k])
  }

  lemma NextQuoted(s: Text, i: nat)
    requires i < |s|
    ensures NoneQuoted(s[..i + 1]) <==> NoneQuoted(s[..i]) && !MustQuote(s[i])
  {
    assert s[..i + 1] == s[..i] + [s[i]];
  }

  lemma NothingPrinted(s: Text)
    ensures Printing(s, [], [], 0, 0, false) && NoneQuoted(s[..0])
  {
    WritesNothing();
    assert s[0..] == s && s[..0] == [];
  }

  /** A character stays for now, or it is written as an escape behind what has stayed before it. */
  method EncodeChar(s: Text, i: nat, r: int, n: nat, before: Text, from: nat, begun: bool, ghost text: Text)
      returns (buf: Text, start: nat, escaped: bool, ghost body: Text)
    requires from <= i < |s| && (r, n) == DecodeRune(s[i..]) && Printing(s, before, text, from, i, begun)
    ensures Printing(s, buf, body, start, i + n, escaped)
    ensures !escaped ==> n == 1 && r == s[i] as int && Printable(s[i]) && !begun
  {
    buf, start, escaped, body := before, from, begun, text;
    if 0x20 <= r < 0x7F && Letter(r as char) == None && r != '\'' as int {
      CharKept(s, text, from, i);
    } else {
      buf, body := EscapeChar(s, i, r, n, before, from, begun, text);
      start := i + RuneLen(r);
      escaped := true;
    }
  }

  method EscapeChar(s: Text, i: nat, r: int, n: nat, before: Text, from: nat, begun: bool, ghost text: Text)
      returns (buf: Text, ghost body: Text)
    requires from <= i < |s| && (r, n) == DecodeRune(s[i..]) && !IsKept(s[i])
    requires if begun then before == ['e', '\''] + text else before == text == []
    requires Written(s, text, from, i) && (IsUtf8(s) ==> OnlyPrintable(s, text, from, i))
    ensures ValidRune(r) && Printing(s, buf, body, i + RuneLen(r), i + n, true)
  {
    buf := before;
    if !begun {
      buf := ['e', '\''];
      assert buf == ['e', '\''] + text;
    }
    EscapePrinted(s, buf, text, from, i);
    body := text + s[from..i] + EscapedChar(s, i);
    buf := buf + s[from..i] + EscapedChar(s, i);
  }

  lemma EscapePrinted(s: Text, buf: Text, body: Text, start: nat, i: nat)
    requires start <= i < |s| && buf == ['e', '\''] + body && !IsKept(s[i])
    requires Written(s, body, start, i) && (IsUtf8(s) ==> OnlyPrintable(s, body, start, i))
    ensures var (r, n) := DecodeRune(s[i..]);
            ValidRune(r) && Printing(s, buf + s[start..i] + EscapedChar(s, i), body + s[start..i] + EscapedChar(s, i),
                                     i + RuneLen(r), i + n, true)
  {
    CharEscaped(s, body, start, i);
    if IsUtf8(s) { CharPrinted(s, body, start, i); }
    LiteralGrows(buf, body, s[start..i], EscapedChar(s, i));
  }

  lemma LiteralGrows(buf: Text, body: Text, kept: Text, escape: Text)
    requires buf == ['e', '\''] + body
    ensures buf + kept + escape == ['e', '\''] + (body + kept + escape)
  {
    Associate(['e', '\''], body, kept);
    Associate(['e', '\''], body + kept, escape);
  }

  /** What is left is written, and the quotes. */
  method CloseString(s: Text, before: Text, start: nat, escaped: bool, bare: bool, ghost body: Text)
    returns (buf: Text)
    requires Printing(s, before, body, start, |s|, escaped)
    ensures if !escaped && bare then buf == s else PrintsString(buf, s)
    ensures IsUtf8(s) ==> AllPrintable(buf)
  {
    buf := before;
    var quote := !escaped && !bare;
    if quote { buf := buf + ['\'']; }
    if start < |s| { buf := buf + s[start..]; }
    if escaped || quote { buf := buf + ['\'']; }
    if escaped {
      LiteralClosed(s, before, start, body);
      NothingAround(before);
    } else {
      NothingEscaped(s);
    }
  }

  lemma LiteralClosed(s: Text, before: Text, start: nat, body: Text)
    requires Printing(s, before, body, start, |s|, true)
    ensures var buf := before + s[Min(start, |s|)..] + ['\''];
            PrintsString(buf, s) && (IsUtf8(s) ==> AllPrintable(buf))
  {
    AllWritten(s, body, start);
    var rest := s[Min(start, |s|)..];
    BodyClosed(before, body, rest);
    if IsUtf8(s) { LiteralPrintable(body, rest); }
  }

  lemma LiteralPrintable(body: Text, rest: Text)
    requires AllPrintable(body) && AllPrintable(rest)
    ensures AllPrintable(Literal('e', body + rest))
  {}

  lemma BodyClosed(before: Text, body: Text, rest: Text)
    requires before == ['e', '\''] + body
    ensures before + rest + ['\''] == Literal('e', body + rest)
  {
    Associate(['e', '\''], body, rest);
  }

  lemma NothingEscaped(s: Text)
    requires AllPlain(s)
    ensures ['\''] + s[0..] + ['\''] == Quote(s, '\'') && s[0..] == s
  {
    DoubledPlain(s);
  }

  lemma {:induction false} DoubledPlain(t: Text)
    requires AllPlain(t)
    ensures Doubled(t, '\'') == t
    decreases |t|
  {
    if t != [] { DoubledPlain(t[1..]); }
  }

  function StringToken(t: Text, end: nat): Token {
    if IsUtf8(t) then Token(SCONST, t, NoValue, end) else Failed(ERR_UTF8, end)
  }

  /** The text comes back if it is UTF-8, and an error otherwise, wherever the literal stands. */
  lemma StringRoundTrip(lib: Library, s: Text, j: nat, buf: Text, t: Text)
    requires PrintsString(buf, t) && Holds(s, j, buf) && !Continues(s, j + |buf|, '\'')
    ensures TokenAt(lib, s, j) == StringToken(t, SkipBlanks(s, j + |buf|).0)
  {
    if buf == Quote(t, '\'') {
      QuotedRead(s, j, t, '\'');
      QuoteToken(lib, s, j);
    } else {
      var body :| buf == Literal('e', body) && Writes(body, t);
      EscapedString(lib, s, j, body, t);
      EscapesToken(lib, s, j);
    }
  }

  lemma EscapedString(lib: Library, s: Text, j: nat, body: Text, t: Text)
    requires Writes(body, t) && Holds(s, j, Literal('e', body)) && !Continues(s, j + |body| + 3, '\'')
    ensures s[j] == 'e' && s[j + 1] == '\''
    ensures StringAt(lib, s, j + 2, ESCAPED_STYLE) == StringToken(t, SkipBlanks(s, j + |body| + 3).0)
  {
    LiteralRead(s, j, 'e', body, t);
  }
}
