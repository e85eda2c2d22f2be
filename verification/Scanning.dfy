/** What the scanner's quoted tokens mean: quoting by doubling, dollar quoting, blanks and comments. */
module Scanning {
  import opened Bytes
  import opened Escapes
  import opened Octets
  import opened Slices

  predicate IsBlank(c: Octet) {
    c == ' ' || c == '\t' || c == '\r' || c == FORM_FEED
  }

  // Blanks and comments.

  /** Where blanks and newlines from i on end, and whether there was a newline. */
  function SkipBlanks(s: Text, i: nat): (r: (nat, bool))
    requires i <= |s|
    ensures i <= r.0 <= |s|
    decreases |s| - i
  {
    if i < |s| && s[i] == '\n' then (SkipBlanks(s, i + 1).0, true)
    else if i < |s| && IsBlank(s[i]) then SkipBlanks(s, i + 1)
    else (i, false)
  }

  datatype Comment = Absent | Ends(pos: nat) | Unterminated

  /** The end of the comment that is open depth times at i. */
  function BlockEnd(s: Text, i: nat, depth: nat): (r: Comment)
    requires i <= |s| && depth > 0
    ensures !r.Absent? && (r.Ends? ==> i < r.pos <= |s|)
    decreases |s| - i
  {
    if i == |s| then Unterminated
    else if s[i] == '*' && HasAt(s, i + 1, '/') then
      if depth == 1 then Ends(i + 2) else BlockEnd(s, i + 2, depth - 1)
    else if s[i] == '/' && HasAt(s, i + 1, '*') then BlockEnd(s, i + 2, depth + 1)
    else BlockEnd(s, i + 1, depth)
  }

  /** One more comment is open behind a mark, one less, or as many as before. */
  function MarkAt(s: Text, i: nat): int {
    if HasAt(s, i, '/') && HasAt(s, i + 1, '*') then 1 else if HasAt(s, i, '*') && HasAt(s, i + 1, '/') then -1 else 0
  }

  /** Marks are read from left to right and do not overlap. */
  function BehindMark(s: Text, i: nat): nat {
    if MarkAt(s, i) == 0 then i + 1 else i + 2
  }

  predicate Reaches(s: Text, i: nat, e: nat)
    decreases e - i
  {
    i == e || (i < e <= |s| && Reaches(s, BehindMark(s, i), e))
  }

  /** How many more comments are open at e than at i. */
  function Balance(s: Text, i: nat, e: nat): int
    requires Reaches(s, i, e)
    decreases e - i
  {
    if i == e then 0 else MarkAt(s, i) + Balance(s, BehindMark(s, i), e)
  }

  /** All depth comments have ended at e, and not before. */
  ghost predicate EndsAll(s: Text, i: nat, depth: nat, e: nat) {
    && i < e && Reaches(s, i, e) && Balance(s, i, e) + depth == 0
    && forall k: nat :: i <= k < e && Reaches(s, i, k) ==> Balance(s, i, k) + depth > 0
  }

  lemma {:induction false} BlockEndIff(s: Text, i: nat, depth: nat, e: nat)
    requires i <= |s| && depth > 0
    ensures BlockEnd(s, i, depth) == Ends(e) <==> EndsAll(s, i, depth, e)
    decreases |s| - i
  {
    if i < |s| {
      var m, j := MarkAt(s, i), BehindMark(s, i);
      if depth + m > 0 {
        BlockEndIff(s, j, depth + m, e);
        EndsAllStep(s, i, depth, e);
      } else {
        LastMark(s, i, depth, e);
      }
    }
  }

  /** Behind the first mark. */
  lemma FirstMark(s: Text, i: nat, k: nat)
    requires i < k <= |s|
    ensures Reaches(s, i, k) <==> Reaches(s, BehindMark(s, i), k)
    ensures Reaches(s, i, k) ==>
      BehindMark(s, i) <= k && Balance(s, i, k) == MarkAt(s, i) + Balance(s, BehindMark(s, i), k)
  {}

  lemma LastMark(s: Text, i: nat, depth: nat, e: nat)
    requires i < |s| && depth > 0 && depth + MarkAt(s, i) == 0
    ensures EndsAll(s, i, depth, e) <==> e == BehindMark(s, i)
  {
    var j := BehindMark(s, i);
    FirstMark(s, i, j);
    if e == j {
      forall k: nat | i <= k < e && Reaches(s, i, k) ensures Balance(s, i, k) + depth > 0 {
        if k > i { FirstMark(s, i, k); }
      }
    } else if EndsAll(s, i, depth, e) {
      FirstMark(s, i, e);
      assert false;
    }
  }

  lemma EndsAllStep(s: Text, i: nat, depth: nat, e: nat)
    requires i < |s| && depth > 0 && depth + MarkAt(s, i) > 0
    ensures EndsAll(s, i, depth, e) <==> EndsAll(s, BehindMark(s, i), depth + MarkAt(s, i), e)
  {
    var m, j := MarkAt(s, i), BehindMark(s, i);
    if i < e <= |s| { FirstMark(s, i, e); }
    if EndsAll(s, i, depth, e) {
      assert j < e;
      forall k: nat | j <= k < e && Reaches(s, j, k) ensures Balance(s, j, k) + depth + m > 0 { FirstMark(s, i, k); }
    }
    if EndsAll(s, j, depth + m, e) {
      FirstMark(s, i, e);
      forall k: nat | i <= k < e && Reaches(s, i, k) ensures Balance(s, i, k) + depth > 0 {
        if k > i { FirstMark(s, i, k); }
      }
    }
  }

  /** A comment can be commented out. */
  lemma CommentedOut(c: Text)
    requires CommentAt(c, 0) == Ends(|c|) && HasAt(c, 0, '/')
    ensures var s := ['/', '*'] + c + ['*', '/']; CommentAt(s, 0) == Ends(|s|)
  {
    var s := ['/', '*'] + c + ['*', '/'];
    InsideComment(c, s, 2, 1);
    assert s[2] == c[0] && s[3] == c[1];
    assert BlockEnd(s, 2, 1) == BlockEnd(s, 4, 2);
    assert BlockEnd(s, |c| + 2, 1) == Ends(|s|);
  }

  lemma {:induction false} InsideComment(c: Text, s: Text, i: nat, depth: nat)
    requires s == ['/', '*'] + c + ['*', '/'] && i <= |c| && depth > 0 && BlockEnd(c, i, depth) == Ends(|c|)
    ensures BlockEnd(s, i + 2, depth + 1) == BlockEnd(s, |c| + 2, 1)
    decreases |c| - i
  {
    if i + 1 < |c| {
      assert s[i + 2] == c[i] && s[i + 3] == c[i + 1];
      if depth + MarkAt(c, i) > 0 { InsideComment(c, s, BehindMark(c, i), depth + MarkAt(c, i)); }
    }
  }

  function LineEnd(s: Text, i: nat): (r: nat)
    requires i <= |s|
    ensures i <= r <= |s|
    decreases |s| - i
  {
    if i == |s| then i else if s[i] == '\n' then i + 1 else LineEnd(s, i + 1)
  }

  /** A comment of one line ends behind its newline, or where the input ends. */
  lemma {:induction false} LineEndIff(s: Text, i: nat, e: nat)
    requires i <= |s|
    ensures LineEnd(s, i) == e <==>
      && i <= e <= |s| && (forall k :: i <= k < e - 1 ==> s[k] != '\n')
      && if i < e && s[e - 1] == '\n' then true else e == |s|
    decreases |s| - i
  {
    if i < |s| && s[i] != '\n' { LineEndIff(s, i + 1, e); }
  }

  function CommentAt(s: Text, i: nat): (r: Comment)
    requires i <= |s|
    ensures r.Ends? ==> i < r.pos <= |s|
  {
    if HasAt(s, i, '/') && HasAt(s, i + 1, '*') then BlockEnd(s, i + 2, 1)
    else if HasAt(s, i, '-') && HasAt(s, i + 1, '-') then Ends(LineEnd(s, i + 2))
    else Absent
  }

  datatype Skipped = At(pos: nat) | Bad(start: nat)

  /** Where the next token starts, or the comment that never ends. */
  function SkipAll(s: Text, i: nat): (r: Skipped)
    requires i <= |s|
    ensures r.At? ==> i <= r.pos <= |s|
    decreases |s| - i
  {
    if i < |s| && (s[i] == '\n' || IsBlank(s[i])) then SkipAll(s, i + 1)
    else match CommentAt(s, i)
      case Absent => At(i)
      case Ends(j) => SkipAll(s, j)
      case Unterminated => Bad(i)
  }

  // Strings quoted by a character that is doubled inside.

  /** The text between quotes and where the scanner goes on; Invalid is an escape that is none. */
  datatype Quoted = Closed(text: Text, end: nat) | Open | Invalid(end: nat)

  function Prepend(t: Text, r: Quoted): Quoted {
    match r
    case Closed(text, end) => Closed(t + text, end)
    case _ => r
  }

  /**
   Reading the rest of a string quoted by q. Strings separated by a newline are joined. Where escapes are
   allowed, a backslash that starts none of them is dropped.
   */
  function Unquote(s: Text, i: nat, q: Octet, escapes: bool): (r: Quoted)
    requires i <= |s|
    ensures r.Closed? || r.Invalid? ==> i < r.end <= |s|
    decreases |s| - i
  {
    if i == |s| then Open
    else if s[i] == q then
      if HasAt(s, i + 1, q) then Prepend([q], Unquote(s, i + 2, q, escapes))
      else
        var (j, newline) := SkipBlanks(s, i + 1);
        if newline && HasAt(s, j, q) then Unquote(s, j + 1, q, escapes) else Closed([], j)
    else if escapes && s[i] == '\\' then UnquoteEscape(s, i, q)
    else Prepend([s[i]], Unquote(s, i + 1, q, escapes))
  }

  function UnquoteEscape(s: Text, i: nat, q: Octet): (r: Quoted)
    requires i < |s| && s[i] == '\\'
    ensures r.Closed? || r.Invalid? ==> i < r.end <= |s|
    decreases |s| - i, 0
  {
    if HasAt(s, i + 1, q) then Prepend([q], Unquote(s, i + 2, q, true))
    else if i + 1 < |s| && IsEscapeLetter(s[i + 1]) then
      match EscapeAt(s, i, q)
      case BadEscape => Invalid(i + 1)
      case Escaped(bytes, next) => Prepend(bytes, Unquote(s, next, q, true))
    else Unquote(s, i + 1, q, true)
  }

  /** The text with every q doubled. */
  function Doubled(t: Text, q: Octet): Text {
    if t == [] then [] else (if t[0] == q then [q, q] else [t[0]]) + Doubled(t[1..], q)
  }

  function Quote(t: Text, q: Octet): Text {
    [q] + Doubled(t, q) + [q]
  }

  lemma PrependTwice(a: Text, b: Text, r: Quoted)
    ensures Prepend(a, Prepend(b, r)) == Prepend(a + b, r)
  {
    if r.Closed? { assert a + (b + r.text) == (a + b) + r.text; }
  }

  lemma UnquoteOne(s: Text, i: nat, c: Octet, q: Octet, head: Text, escapes: bool)
    requires head == (if c == q then [q, q] else [c]) && Holds(s, i, head) && (escapes ==> c != '\\')
    ensures Unquote(s, i, q, escapes) == Prepend([c], Unquote(s, i + |head|, q, escapes))
  {
    assert s[i + 0] == head[0];
    if c == q { assert s[i + 1] == head[1]; }
  }

  predicate NoBackslash(t: Text) {
    forall i :: 0 <= i < |t| ==> t[i] != '\\'
  }

  lemma PrependNothing(r: Quoted)
    ensures Prepend([], r) == r
  {
    if r.Closed? { assert [] + r.text == r.text; }
  }

  /** Reading over doubled text yields the text and goes on behind it. */
  lemma {:induction false} UnquoteDoubled(s: Text, i: nat, t: Text, q: Octet, escapes: bool)
    requires Holds(s, i, Doubled(t, q)) && (escapes ==> NoBackslash(t))
    ensures Unquote(s, i, q, escapes) == Prepend(t, Unquote(s, i + |Doubled(t, q)|, q, escapes))
    decreases |t|
  {
    if t == [] {
      PrependNothing(Unquote(s, i, q, escapes));
    } else {
      var head := if t[0] == q then [q, q] else [t[0]];
      HoldsParts(s, i, head, Doubled(t[1..], q));
      UnquoteOne(s, i, t[0], q, head, escapes);
      UnquoteDoubled(s, i + |head|, t[1..], q, escapes);
      assert i + |head| + |Doubled(t[1..], q)| == i + |Doubled(t, q)|;
      PrependTwice([t[0]], t[1..], Unquote(s, i + |Doubled(t, q)|, q, escapes));
      assert [t[0]] + t[1..] == t;
    }
  }

  /** What the text behind a closing quote must not be for the string to end there. */
  predicate Continues(s: Text, i: nat, q: Octet)
    requires i <= |s|
  {
    HasAt(s, i, q) || (SkipBlanks(s, i).1 && HasAt(s, SkipBlanks(s, i).0, q))
  }

  /**
   Scanning what the printer wrote gives back the text and stops behind the blanks that follow it,
   exactly when the rest of the input does not go on with the string.
   */
  lemma QuoteRoundTrip(s: Text, i: nat, t: Text, q: Octet)
    requires Holds(s, i, Doubled(t, q) + [q])
    ensures var close := i + |Doubled(t, q)| + 1;
            Unquote(s, i, q, false) == Closed(t, SkipBlanks(s, close).0) <==> !Continues(s, close, q)
  {
    var d := Doubled(t, q);
    var close := i + |d| + 1;
    HoldsParts(s, i, d, [q]);
    assert s[i + |d| + 0] == [q][0];
    UnquoteDoubled(s, i, t, q, false);
    var rest := Unquote(s, i + |d|, q, false);
    if !Continues(s, close, q) {
      assert rest == Closed([], SkipBlanks(s, close).0);
      assert t + [] == t;
    } else if rest.Closed? {
      if HasAt(s, close, q) {
        assert rest.text != [];
      } else {
        assert rest.end > SkipBlanks(s, close).0;
      }
    }
  }

  // Dollar-quoted strings.

  predicate IsTagChar(c: Octet) {
    IsIdentStart(c) || IsDigit(c)
  }

  /** The first position from i on that is not part of a tag. */
  function TagEnd(s: Text, i: nat): (r: nat)
    requires i <= |s|
    ensures i <= r <= |s| && (r < |s| ==> !IsTagChar(s[r]))
    ensures forall k :: i <= k < r ==> IsTagChar(s[k])
    decreases |s| - i
  {
    if i < |s| && IsTagChar(s[i]) then TagEnd(s, i + 1) else i
  }

  /** $tag$ */
  function Delimiter(tag: Text): Text {
    ['$'] + tag + ['$']
  }

  /** The first occurrence of the delimiter from position i on is at e. */
  ghost predicate FirstAt(s: Text, i: nat, delimiter: Text, e: nat) {
    i <= e && Holds(s, e, delimiter) && forall k :: i <= k < e ==> !Holds(s, k, delimiter)
  }

  ghost predicate Nowhere(s: Text, i: nat, delimiter: Text) {
    forall k :: i <= k ==> !Holds(s, k, delimiter)
  }

  /** Searching for the delimiter position by position. */
  ghost function FirstFrom(s: Text, i: nat, delimiter: Text): (r: Option<nat>)
    requires i <= |s| && delimiter != []
    ensures match r
            case Some(e) => FirstAt(s, i, delimiter, e)
            case None => Nowhere(s, i, delimiter)
    decreases |s| - i
  {
    if Holds(s, i, delimiter) then Some(i)
    else if i == |s| then None
    else FirstFrom(s, i + 1, delimiter)
  }

  lemma FirstIsUnique(s: Text, i: nat, delimiter: Text, e: nat)
    requires i <= |s| && delimiter != [] && FirstAt(s, i, delimiter, e)
    ensures FirstFrom(s, i, delimiter) == Some(e)
  {}

  /**
   A body between two delimiters is what the scanner finds exactly when the delimiter does not occur
   earlier, be it by overlapping the closing one.
   */
  lemma DollarRoundTrip(s: Text, i: nat, body: Text, delimiter: Text, e: nat)
    requires i <= |s| && delimiter != [] && Holds(s, i, body + delimiter)
    requires FirstFrom(s, i, delimiter) == Some(e)
    ensures e <= i + |body| && s[i..e] <= body
    ensures s[i..e] == body <==> forall k :: i <= k < i + |body| ==> !Holds(s, k, delimiter)
  {
    HoldsParts(s, i, body, delimiter);
    assert forall k :: 0 <= k < e - i ==> s[i..e][k] == s[i + k] == body[k];
    if s[i..e] == body {
      assert e == i + |body|;
    } else {
      assert e < i + |body|;
    }
  }

  datatype DollarToken = NotDollar(end: nat) | Body(text: Text, end: nat) | Unended

  /**
   What follows a dollar sign at p - 1. A tag that runs into the end of the input leaves the position
   alone; a tag that runs into another character leaves it there. After a complete tag comes everything
   up to its first later occurrence.
   */
  ghost function DollarAt(s: Text, p: nat): (tok: DollarToken)
    requires p <= |s|
  {
    var t := TagEnd(s, p);
    if t == |s| then NotDollar(p)
    else if s[t] != '$' then NotDollar(t)
    else BodyAt(s, t + 1, Delimiter(s[p..t]))
  }

  /** Everything up to the first occurrence of the delimiter. */
  ghost function BodyAt(s: Text, i: nat, delimiter: Text): DollarToken
    requires i <= |s| && delimiter != []
  {
    match FirstFrom(s, i, delimiter)
    case Some(e) => Body(s[i..e], e + |delimiter|)
    case None => Unended
  }
}
