/** Identifiers and keywords without quotes, and the libraries that the scanner asks about them. */
module Names {
  import opened Bytes
  import opened Octets

  const IDENT := 57346
  const ERROR := 57362

  /**
   What is not part of the scanner: Unicode's normalization form C, NormalizeName, GetKeywordID, and
   whether go/constant makes a number of a literal (the flag says of a float).
   */
  datatype Library = Library(nfc: Text -> Text, normalizeName: Text -> Text, keyword: Text -> int,
                             known: (Text, bool) -> bool)
  {
    /**
     Keywords have the ids of tokens, none of them the error's; what is no keyword has that of an identifier.
     A normalized name has no upper-case letter.
     */
    ghost predicate Valid() {
      (forall t :: keyword(t) >= IDENT && keyword(t) != ERROR) && forall t :: HasNoUpper(normalizeName(t))
    }
  }

  /** The first position from i on that is not part of a name. */
  function NameEnd(s: Text, i: nat): (r: nat)
    requires i <= |s|
    ensures i <= r <= |s| && (r < |s| ==> !IsIdentMiddle(s[r])) && forall k :: i <= k < r ==> IsIdentMiddle(s[k])
    decreases |s| - i
  {
    if i < |s| && IsIdentMiddle(s[i]) then NameEnd(s, i + 1) else i
  }

  function LowerChar(c: Octet): Octet {
    if IsUpper(c) then (c as int + 32) as char else c
  }

  function Lower(t: Text): (l: Text)
    ensures |l| == |t| && forall i :: 0 <= i < |t| ==> l[i] == LowerChar(t[i])
  {
    seq(|t|, i requires 0 <= i < |t| => LowerChar(t[i]))
  }

  /** A name in lower case; with characters outside ASCII it is normalized too. */
  function Folded(lib: Library, t: Text): Text {
    if IsAscii(t) then Lower(t) else lib.normalizeName(t)
  }

  predicate HasNoUpper(t: Text) {
    forall i :: 0 <= i < |t| ==> !IsUpper(t[i])
  }

  lemma LowerAlready(t: Text)
    requires HasNoUpper(t)
    ensures Lower(t) == t
  {}

  lemma OneMore(s: Text, i: nat, j: nat)
    requires i <= j < |s|
    ensures IsAscii(s[i..j + 1]) <==> IsAscii(s[i..j]) && s[j] as int < 0x80
    ensures HasNoUpper(s[i..j + 1]) <==> HasNoUpper(s[i..j]) && !IsUpper(s[j])
  {
    var t := s[i..j + 1];
    assert t == s[i..j] + [s[j]] && t[j - i] == s[j];
    assert forall k :: 0 <= k < j - i ==> t[k] == s[i..j][k];
  }

  /** The copy of a name with its upper-case letters replaced. */
  method LowerCase(t: Text) returns (l: Text)
    ensures l == Lower(t)
  {
    var b := new Octet[|t|];
    for i := 0 to |t|
      invariant forall k :: 0 <= k < i ==> b[k] == LowerChar(t[k])
    {
      var c := t[i];
      if IsUpper(c) { c := (c as int + ('a' as int - 'A' as int)) as char; }
      b[i] := c;
    }
    l := b[..];
  }

  /** What has been found out about the name saves work. */
  method Fold(lib: Library, t: Text, isASCII: bool, isLower: bool) returns (name: Text)
    requires isASCII == IsAscii(t) && isLower == HasNoUpper(t)
    ensures name == Folded(lib, t)
  {
    if isLower && isASCII {
      LowerAlready(t);
      name := t;
    } else if isASCII {
      name := LowerCase(t);
    } else {
      name := lib.normalizeName(t);
    }
  }

  const EXPERIMENTAL: Text := "experimental_"
  const TESTING: Text := "testing_"
  const RANGES: Text := "ranges"

  function WithoutPrefix(t: Text): Option<Text> {
    if EXPERIMENTAL <= t then Some(t[|EXPERIMENTAL|..])
    else if TESTING <= t then Some(t[|TESTING|..])
    else None
  }

  /** A name that loses its prefix: what is behind it is the one keyword of AllowedExperimental. */
  predicate LosesPrefix(lib: Library, t: Text) {
    WithoutPrefix(t) == Some(RANGES) && lib.keyword(RANGES) != IDENT
  }

  /** The id of a name in lower case, and its text. */
  function NameToken(lib: Library, t: Text): (int, Text) {
    if LosesPrefix(lib, t) then (lib.keyword(RANGES), RANGES) else (lib.keyword(t), t)
  }

  lemma NameKept(lib: Library, t: Text)
    ensures NameToken(lib, t).1 == t <==> !LosesPrefix(lib, t)
  {
    assert |RANGES| < |EXPERIMENTAL| && |RANGES| < |TESTING|;
  }

  /** scanIdent, from the folded name on: first as what stands behind the prefix, then as the whole. */
  method ClassifyName(lib: Library, name: Text) returns (id: int, str: Text)
    ensures (id, str) == NameToken(lib, name)
  {
    var isExperimental := false;
    var kw := name;
    str := name;
    if EXPERIMENTAL <= name {
      kw := name[|EXPERIMENTAL|..];
      isExperimental := true;
    } else if TESTING <= name {
      kw := name[|TESTING|..];
      isExperimental := true;
    }
    id := lib.keyword(kw);
    if id != IDENT {
      if isExperimental {
        if kw != RANGES { id := lib.keyword(name); } else { str := kw; }
      }
    } else {
      id := lib.keyword(name);
    }
  }

  /** A letter in upper case, and the same in lower case. */
  ghost predicate TwoCases(c: Octet, d: Octet) {
    exists k :: 0 <= k < 26 && UPPER_CASE[k] == c && LOWER_CASE[k] == d
  }

  lemma TwoCasesApart(c: Octet, d: Octet)
    ensures TwoCases(c, d) <==> IsUpper(c) && d as int == c as int + 32
  {
    if IsUpper(c) && d as int == c as int + 32 { LetterTable(c as int - 'A' as int); }
    if TwoCases(c, d) {
      var k :| 0 <= k < 26 && UPPER_CASE[k] == c && LOWER_CASE[k] == d;
      LetterTable(k);
    }
  }

  /** A letter in upper case becomes the same in lower case; every other character stays. */
  lemma LowerLetters(c: Octet)
    ensures if c in UPPER_CASE then TwoCases(c, LowerChar(c)) else LowerChar(c) == c
  {
    UpperTable(c);
    TwoCasesApart(c, LowerChar(c));
  }

  /** The same character, or the two cases of one letter. */
  ghost predicate SameLetter(c: Octet, d: Octet) {
    c == d || TwoCases(c, d) || TwoCases(d, c)
  }

  lemma SameLetterLower(c: Octet, d: Octet)
    ensures SameLetter(c, d) <==> LowerChar(c) == LowerChar(d)
  {
    TwoCasesApart(c, d);
    TwoCasesApart(d, c);
  }

  ghost predicate SameLetters(t: Text, u: Text) {
    |t| == |u| && forall i :: 0 <= i < |t| ==> SameLetter(t[i], u[i])
  }

  /** ASCII names are read as one text if and only if they differ in the case of letters alone. */
  lemma CaseDoesNotMatter(lib: Library, t: Text, u: Text)
    requires IsAscii(t) && IsAscii(u)
    ensures Folded(lib, t) == Folded(lib, u) <==> SameLetters(t, u)
    ensures SameLetters(t, u) ==> NameToken(lib, Folded(lib, t)) == NameToken(lib, Folded(lib, u))
  {
    if |t| == |u| {
      forall i | 0 <= i < |t| ensures SameLetter(t[i], u[i]) <==> Lower(t)[i] == Lower(u)[i] {
        SameLetterLower(t[i], u[i]);
      }
    }
  }

  /** What an ASCII name is read as: the text with its letters in lower case. */
  lemma FoldedLetters(lib: Library, t: Text)
    requires IsAscii(t)
    ensures SameLetters(t, Folded(lib, t)) && forall i :: 0 <= i < |t| ==> Folded(lib, t)[i] !in UPPER_CASE
  {
    forall i | 0 <= i < |t| ensures SameLetter(t[i], Lower(t)[i]) && Lower(t)[i] !in UPPER_CASE {
      LowerLetters(t[i]);
      UpperTable(Lower(t)[i]);
      UpperTable(t[i]);
      TwoCasesApart(t[i], Lower(t)[i]);
    }
  }

  /** IsBareIdentifier: what needs no quotes. */
  predicate IsBare(lib: Library, s: Text) {
    && s != [] && IsIdentStart(s[0])
    && HasNoUpper(s) && (forall i :: 0 <= i < |s| ==> IsIdentMiddle(s[i]))
    && (IsAscii(s) || lib.normalizeName(s) == s)
  }

  /** The scanner reads all of the text as a name, and leaves it as it is. */
  predicate ReadsAsItIs(lib: Library, s: Text) {
    s != [] && IsIdentStart(s[0]) && NameEnd(s, 0) == |s| && Folded(lib, s) == s
  }

  lemma {:induction false} NameEndIs(s: Text, i: nat, r: nat)
    requires i <= r <= |s| && (forall k :: i <= k < r ==> IsIdentMiddle(s[k]))
    ensures NameEnd(s, i) >= r
    decreases r - i
  {
    if i < r { NameEndIs(s, i + 1, r); }
  }

  lemma LowerHasNoUpper(s: Text)
    ensures HasNoUpper(Lower(s))
  {}

  /** What needs no quotes is exactly what the scanner leaves alone. */
  lemma BareIffRead(lib: Library, s: Text)
    requires lib.Valid()
    ensures IsBare(lib, s) <==> ReadsAsItIs(lib, s)
  {
    if IsBare(lib, s) { BareIsWhole(lib, s); }
    if ReadsAsItIs(lib, s) && IsAscii(s) { LowerHasNoUpper(s); }
  }

  /** A bare identifier is read to its end and stays as it is. */
  lemma BareIsWhole(lib: Library, s: Text)
    requires IsBare(lib, s)
    ensures NameEnd(s, 0) == |s| && Folded(lib, s) == s
  {
    LowerAlready(s);
    NameEndIs(s, 0, |s|);
  }
}
