/** What a document prints at any width: words in their order, and the places where blanks must stand. */
module PrettyPieces {
  import opened Slices

  /** A gap is a blank or more. */
  datatype Piece = Gap | Word(s: string)

  predicate IsSpace(c: char) {
    c == ' ' || c == '\t' || c == '\n'
  }

  predicate AllSpace(t: string) {
    forall i :: 0 <= i < |t| ==> IsSpace(t[i])
  }

  /**
   The text is the words in their order and unchanged, with at least one blank for every gap. All other
   blanks stand between words too, so no word is broken and no gap is closed.
   */
  predicate Spread(t: string, ps: seq<Piece>)
    decreases |t| + |ps|
  {
    || (t == "" && ps == [])
    || (t != "" && IsSpace(t[0]) && Spread(t[1..], ps))
    || (t != "" && IsSpace(t[0]) && ps != [] && ps[0].Gap? && Spread(t[1..], ps[1..]))
    || (ps != [] && ps[0].Word? && ps[0].s <= t && Spread(t[|ps[0].s|..], ps[1..]))
  }

  lemma InsertBlank(t: string, ps: seq<Piece>, rest: string)
    requires t != "" && IsSpace(t[0]) && t[1..] == rest && Spread(rest, ps)
    ensures Spread(t, ps)
  {}

  lemma FillGap(t: string, ps: seq<Piece>, rest: string, more: seq<Piece>)
    requires t != "" && IsSpace(t[0]) && t[1..] == rest
    requires ps != [] && ps[0].Gap? && ps[1..] == more && Spread(rest, more)
    ensures Spread(t, ps)
  {}

  lemma TakeWord(t: string, ps: seq<Piece>, rest: string, more: seq<Piece>)
    requires ps != [] && ps[0].Word? && ps[0].s <= t && t[|ps[0].s|..] == rest && ps[1..] == more && Spread(rest, more)
    ensures Spread(t, ps)
  {}

  lemma {:induction false} SpreadBehind(t: string, ps: seq<Piece>, u: string, qs: seq<Piece>)
    requires Spread(t, ps) && Spread(u, qs)
    ensures Spread(t + u, ps + qs)
    decreases |t| + |ps|
  {
    if t == "" && ps == [] {
      assert t + u == u && ps + qs == qs;
    } else if t != "" && IsSpace(t[0]) && Spread(t[1..], ps) {
      SpreadBehind(t[1..], ps, u, qs);
      InsertBlank(t + u, ps + qs, t[1..] + u);
    } else if t != "" && IsSpace(t[0]) && ps != [] && ps[0].Gap? && Spread(t[1..], ps[1..]) {
      SpreadBehind(t[1..], ps[1..], u, qs);
      FillGap(t + u, ps + qs, t[1..] + u, ps[1..] + qs);
    } else {
      WordBehind(t, ps, u, qs);
    }
  }

  lemma {:induction false} WordBehind(t: string, ps: seq<Piece>, u: string, qs: seq<Piece>)
    requires ps != [] && ps[0].Word? && ps[0].s <= t && Spread(t[|ps[0].s|..], ps[1..]) && Spread(u, qs)
    ensures Spread(t + u, ps + qs)
    decreases |t| + |ps|, 0
  {
    var rest := t[|ps[0].s|..];
    SpreadBehind(rest, ps[1..], u, qs);
    assert t == ps[0].s + rest;
    TakeWord(t + u, ps + qs, rest + u, ps[1..] + qs);
  }

  lemma {:induction false} SpreadBlanks(t: string)
    requires AllSpace(t)
    ensures Spread(t, [])
  {
    if t != "" { SpreadBlanks(t[1..]); }
  }

  lemma SpreadGap(t: string)
    requires t != "" && AllSpace(t)
    ensures Spread(t, [Gap])
  {
    SpreadBlanks(t[1..]);
    assert [Gap][1..] == [];
  }

  lemma SpreadWord(w: string)
    ensures Spread(w, [Word(w)])
  {
    assert w[|w|..] == "" && [Word(w)][1..] == [];
    assert Spread(w[|w|..], [Word(w)][1..]);
  }

  // Rows of pieces.

  function Joined(sep: seq<Piece>, xs: seq<seq<Piece>>): seq<Piece> {
    if xs == [] then [] else if |xs| == 1 then xs[0] else xs[0] + (sep + Joined(sep, xs[1..]))
  }

  function Prefixed(pre: seq<Piece>, xs: seq<seq<Piece>>): seq<Piece> {
    if xs == [] then [] else (pre + xs[0]) + Prefixed(pre, xs[1..])
  }

  lemma {:induction false} PrefixedIsJoined(sep: seq<Piece>, xs: seq<seq<Piece>>)
    requires xs != []
    ensures xs[0] + Prefixed(sep, xs[1..]) == Joined(sep, xs)
    decreases |xs|
  {
    if |xs| == 1 {
      NothingAround(xs[0]);
    } else {
      var t := xs[1..];
      PrefixedIsJoined(sep, t);
      Associate(sep, t[0], Prefixed(sep, t[1..]));
    }
  }

  // Without the blanks.

  /** A string without its blanks. */
  function Visible(s: string): string {
    if s == "" then "" else VisibleFirst(s[0]) + Visible(s[1..])
  }

  function VisibleFirst(c: char): string {
    if IsSpace(c) then "" else [c]
  }

  lemma {:induction false} VisibleConcat(s: string, t: string)
    ensures Visible(s + t) == Visible(s) + Visible(t)
    decreases |s|
  {
    if s == "" {
      assert s + t == t;
    } else {
      VisibleConcat(s[1..], t);
      assert (s + t)[1..] == s[1..] + t;
      Associate(VisibleFirst(s[0]), Visible(s[1..]), Visible(t));
    }
  }

  function VisiblePieces(ps: seq<Piece>): string {
    if ps == [] then "" else (if ps[0].Gap? then "" else Visible(ps[0].s)) + VisiblePieces(ps[1..])
  }

  /** All texts of the same pieces show the same characters. */
  lemma {:induction false} SpreadShows(t: string, ps: seq<Piece>)
    requires Spread(t, ps)
    ensures Visible(t) == VisiblePieces(ps)
    decreases |t| + |ps|
  {
    if t == "" && ps == [] {
    } else if t != "" && IsSpace(t[0]) && Spread(t[1..], ps) {
      SpreadShows(t[1..], ps);
    } else if t != "" && IsSpace(t[0]) && ps != [] && ps[0].Gap? && Spread(t[1..], ps[1..]) {
      SpreadShows(t[1..], ps[1..]);
    } else {
      var w := ps[0].s;
      SpreadShows(t[|w|..], ps[1..]);
      VisibleConcat(w, t[|w|..]);
      assert t == w + t[|w|..];
    }
  }
}
