/**
 The choice of a layout as a plain recursion, without memo tables, and what the test for a line that fits
 finds out with 16-bit integers.
 */
module PrettyBest {
  import opened Bytes
  import opened Machine
  import opened PrettyDocs

  datatype DocPos = DocPos(tabs: Int16, spaces: Int16)

  /** The line width and the width of a tab. */
  datatype Style = Style(width: Int16, tabWidth: Int16)

  /** A selected layout. */
  datatype Best =
    | End
    | TextB(s: string, rest: Best)
    | KeywordB(s: string, rest: Best)
    | LineB(i: DocPos, rest: Best)
    | HardlineB(i: DocPos, rest: Best)
    | SpacesB(n: Int16, rest: Best)

  /** Documents still to be laid out, each with its nesting. */
  datatype Docs = Done | More(i: DocPos, d: Doc, next: Docs)

  /** Go's division of an int16 by another: it rounds toward zero and wraps around. */
  function Quotient16(a: Int16, b: Int16): Int16
    requires b != 0
  {
    var x: int, y: int := if a < 0 then -(a as int) else a, if b < 0 then -(b as int) else b;
    WrapInt16(if (a < 0) == (b < 0) then x / y else -(x / y))
  }

  function Right(k: DocPos, n: int): DocPos {
    DocPos(k.tabs, WrapInt16(k.spaces + n))
  }

  function NextTab(style: Style, i: DocPos): DocPos
    requires style.tabWidth != 0
  {
    DocPos(WrapInt16(i.tabs + 1 + Quotient16(i.spaces, style.tabWidth)), 0)
  }

  function Length16(s: string): Int16 {
    WrapInt16(|s|)
  }

  // The size of what is to be laid out decreases with every step.

  function Size(d: Doc): nat
    decreases d
  {
    match d
    case Concat(a, b) => 1 + Size(a) + Size(b)
    case NestS(_, e) => 1 + Size(e)
    case NestT(e) => 1 + Size(e)
    case Union(x, y) => 1 + Size(x) + Size(y)
    case Column(f) => 1 + TableSize(f)
    case Nesting(f) => 1 + TableSize(f)
    case _ => 1
  }

  function TableSize(f: seq<Doc>): nat
    decreases f
  {
    if f == [] then 1 else Size(f[0]) + TableSize(f[1..])
  }

  lemma {:induction false} EntrySmaller(f: seq<Doc>, c: Int16)
    ensures Size(Apply(f, c)) <= TableSize(f)
  {
    if Index(c) < |f| { EntryAt(f, Index(c)); } else { SizePositive(f); }
  }

  lemma SizePositive(f: seq<Doc>)
    ensures TableSize(f) >= 1
  {}

  lemma {:induction false} EntryAt(f: seq<Doc>, i: nat)
    requires i < |f|
    ensures Size(f[i]) <= TableSize(f)
    decreases |f|
  {
    if i > 0 { EntryAt(f[1..], i - 1); }
  }

  function DocsSize(xs: Docs): nat {
    match xs
    case Done => 0
    case More(_, d, next) => Size(d) + DocsSize(next)
  }

  // The recursion.

  function Remainder(style: Style, k: DocPos): Int16 {
    WrapInt16(style.width - k.spaces - WrapInt16(k.tabs * style.tabWidth))
  }

  predicate Fits(w: Int16, x: Best)
    decreases x
  {
    w >= 0 &&
    match x
    case End => true
    case TextB(s, rest) => Fits(WrapInt16(w - Length16(s)), rest)
    case KeywordB(s, rest) => Fits(WrapInt16(w - Length16(s)), rest)
    case LineB(_, _) => true
    case HardlineB(_, _) => false
    case SpacesB(n, rest) => Fits(WrapInt16(w - n), rest)
  }

  predicate IsLeaf(d: Doc) {
    d.Text? || d.Keyword? || d.Line? || d.SoftBreak? || d.HardLine? || d.Pad?
  }

  /** Nesting by tabs divides by their width. */
  predicate Panics(style: Style, d: Doc) {
    d.Panic? || (d.NestT? && style.tabWidth == 0)
  }

  /** What the first document is replaced by when it prints nothing itself. */
  function Replaced(style: Style, k: DocPos, i: DocPos, d: Doc, z: Docs): (xs: Docs)
    requires !IsLeaf(d) && !d.Union? && !Panics(style, d)
    ensures DocsSize(xs) < DocsSize(More(i, d, z))
  {
    match d
    case Nil => z
    case Concat(a, b) => More(i, a, More(i, b, z))
    case NestS(n, e) => More(Right(i, n), e, z)
    case NestT(e) => More(NextTab(style, i), e, z)
    case Column(f) => EntrySmaller(f, k.spaces); More(i, Apply(f, k.spaces), z)
    case Nesting(f) => EntrySmaller(f, i.spaces); More(i, Apply(f, i.spaces), z)
  }

  lemma SizeAtLeastOne(d: Doc)
    ensures Size(d) >= 1
  {}

  /** A leaf prints a piece, and the cursor moves. */
  function LeafPiece(i: DocPos, d: Doc): (b: Best)
    requires IsLeaf(d)
    ensures b != End
  {
    match d
    case Text(s) => TextB(s, End)
    case Keyword(s) => KeywordB(s, End)
    case HardLine => HardlineB(i, End)
    case Pad(n) => SpacesB(n, End)
    case _ => LineB(i, End)
  }

  function LeafEnd(k: DocPos, i: DocPos, d: Doc): DocPos
    requires IsLeaf(d)
  {
    match d
    case Text(s) => Right(k, Length16(s))
    case Keyword(s) => Right(k, Length16(s))
    case Pad(n) => Right(k, n)
    case _ => i
  }

  /** The best layout of xs when the cursor is at k; None where the source panics. */
  function Be(style: Style, k: DocPos, xs: Docs): Option<Best>
    decreases DocsSize(xs)
  {
    match xs
    case Done => Some(End)
    case More(i, d, z) =>
      SizeAtLeastOne(d);
      if Panics(style, d) then None
      else if IsLeaf(d) then
        match Be(style, LeafEnd(k, i, d), z)
        case None => None
        case Some(rest) => Some(LeafPiece(i, d).(rest := rest))
      else if d.Union? then
        SizeAtLeastOne(d.x); SizeAtLeastOne(d.y);
        match Be(style, k, More(i, d.x, z))
        case None => None
        case Some(flat) => if Fits(Remainder(style, k), flat) then Some(flat) else Be(style, k, More(i, d.y, z))
      else Be(style, k, Replaced(style, k, i, d, z))
  }

  // What fits.

  /** The characters in front of the first line break. */
  function FirstWidth(b: Best): int {
    match b
    case TextB(s, rest) => |s| + FirstWidth(rest)
    case KeywordB(s, rest) => |s| + FirstWidth(rest)
    case SpacesB(n, rest) => n + FirstWidth(rest)
    case _ => 0
  }

  /** The first line break is a hard one. */
  predicate EndsHard(b: Best) {
    match b
    case TextB(_, rest) => EndsHard(rest)
    case KeywordB(_, rest) => EndsHard(rest)
    case SpacesB(_, rest) => EndsHard(rest)
    case HardlineB(_, _) => true
    case _ => false
  }

  /** Every piece of the first line has a length that an int16 holds, and no padding is negative. */
  predicate ShortPieces(b: Best) {
    match b
    case TextB(s, rest) => |s| <= 0x7fff && ShortPieces(rest)
    case KeywordB(s, rest) => |s| <= 0x7fff && ShortPieces(rest)
    case SpacesB(n, rest) => n >= 0 && ShortPieces(rest)
    case _ => true
  }

  lemma {:induction false} WidthNotNegative(b: Best)
    requires ShortPieces(b)
    ensures FirstWidth(b) >= 0
  {
    if b.TextB? || b.KeywordB? || b.SpacesB? { WidthNotNegative(b.rest); }
  }

  /** The test is exact while the pieces are short: the rest of the line is no longer than w and does not end hard. */
  lemma {:induction false} FitsExactly(w: Int16, b: Best)
    requires ShortPieces(b)
    ensures Fits(w, b) <==> w >= 0 && !EndsHard(b) && FirstWidth(b) <= w
    decreases b
  {
    if w >= 0 && (b.TextB? || b.KeywordB? || b.SpacesB?) {
      WidthNotNegative(b.rest);
      var n := if b.SpacesB? then b.n as int else |b.s|;
      FitsExactly(WrapInt16(w - n), b.rest);
    }
  }

  // What the test finds out in general.

  /** The widths that a line has before each of its pieces and at its first break, counted from s on. */
  function Widths(b: Best, s: int): seq<int> {
    match b
    case TextB(t, rest) => [s] + Widths(rest, s + |t|)
    case KeywordB(t, rest) => [s] + Widths(rest, s + |t|)
    case SpacesB(n, rest) => [s] + Widths(rest, s + n)
    case _ => [s]
  }

  /** What is left of w behind a width of s is not negative as an int16. */
  predicate Stays(w: int, s: int) {
    WrapInt16(w - s) >= 0
  }

  predicate StaysAlong(w: int, ws: seq<int>) {
    forall i :: 0 <= i < |ws| ==> Stays(w, ws[i])
  }

  lemma WrapDifference(x: int, n: int)
    ensures WrapInt16(WrapInt16(x) - n) == WrapInt16(x - n)
    ensures WrapInt16(WrapInt16(x) - WrapInt16(n)) == WrapInt16(x - n)
  {
    var p := Multiple(x);
    var q := Multiple(n);
    var r := Multiple(x - n);
    SameResidue(WrapInt16(x) - n, WrapInt16(x - n), p - r);
    SameResidue(WrapInt16(x) - WrapInt16(n), WrapInt16(x - n), p - q - r);
  }

  lemma Multiple(x: int) returns (k: int)
    ensures WrapInt16(x) == x + k * 0x1_0000
  {
    k := -((x + 0x8000) / 0x1_0000);
  }

  lemma SameResidue(x: int, y: Int16, k: int)
    requires x == y + k * 0x1_0000
    ensures WrapInt16(x) == y
  {}

  lemma AlongRest(w: int, s: int, ws: seq<int>)
    ensures StaysAlong(w, [s] + ws) <==> Stays(w, s) && StaysAlong(w, ws)
  {
    if Stays(w, s) && StaysAlong(w, ws) {
      forall i | 0 <= i < |[s] + ws| ensures Stays(w, ([s] + ws)[i]) { assert i > 0 ==> Stays(w, ws[i - 1]); }
    }
    if StaysAlong(w, [s] + ws) {
      assert Stays(w, ([s] + ws)[0]);
      forall i | 0 <= i < |ws| ensures Stays(w, ws[i]) { assert Stays(w, ([s] + ws)[i + 1]); }
    }
  }

  predicate IsPiece(b: Best) {
    b.TextB? || b.KeywordB? || b.SpacesB?
  }

  function PieceWidth(b: Best): int
    requires IsPiece(b)
  {
    if b.SpacesB? then b.n else |b.s|
  }

  lemma FitsBehind(w: int, b: Best, s: int)
    requires IsPiece(b)
    ensures Fits(WrapInt16(w - s), b) <==> Stays(w, s) && Fits(WrapInt16(w - (s + PieceWidth(b))), b.rest)
  {
    WrapDifference(w - s, PieceWidth(b));
    assert w - s - PieceWidth(b) == w - (s + PieceWidth(b));
  }

  /** A line fits if and only if it ends softly and no remainder along it turns negative. */
  lemma {:induction false} FitsAlong(w: int, b: Best, s: int)
    ensures Fits(WrapInt16(w - s), b) <==> !EndsHard(b) && StaysAlong(w, Widths(b, s))
    decreases b
  {
    if IsPiece(b) {
      FitsAlong(w, b.rest, s + PieceWidth(b));
      AlongRest(w, s, Widths(b.rest, s + PieceWidth(b)));
      FitsBehind(w, b, s);
    } else {
      AlongRest(w, s, []);
      assert [s] + [] == [s];
    }
  }

  /** The flat alternative is taken if and only if it ends softly and every remainder along it stays. */
  lemma FlatWhenItStays(style: Style, k: DocPos, i: DocPos, x: Doc, y: Doc, z: Docs, flat: Best)
    requires Be(style, k, More(i, x, z)) == Some(flat)
    ensures Be(style, k, More(i, Union(x, y), z))
            == if !EndsHard(flat) && StaysAlong(style.width - ColumnOf(style, k), Widths(flat, 0)) then Some(flat)
               else Be(style, k, More(i, y, z))
  {
    UnionStep(style, k, i, x, y, z, flat);
    FitsAlong(style.width - ColumnOf(style, k), flat, 0);
    RemainderWraps(style, k);
  }

  lemma UnionStep(style: Style, k: DocPos, i: DocPos, x: Doc, y: Doc, z: Docs, flat: Best)
    requires Be(style, k, More(i, x, z)) == Some(flat)
    ensures Be(style, k, More(i, Union(x, y), z))
            == if Fits(Remainder(style, k), flat) then Some(flat) else Be(style, k, More(i, y, z))
  {}

  lemma RemainderWraps(style: Style, k: DocPos)
    ensures Remainder(style, k) == WrapInt16(style.width - ColumnOf(style, k) - 0)
  {
    var column, tabs := style.width - k.spaces, k.tabs * style.tabWidth;
    var p := Multiple(tabs);
    var q := Multiple(column - tabs);
    SameResidue(column - WrapInt16(tabs), WrapInt16(column - tabs), -p - q);
  }

  /** The column that a position stands for. */
  function ColumnOf(style: Style, k: DocPos): int {
    k.tabs * style.tabWidth + k.spaces
  }

  /**
   A flat alternative is taken exactly when the line it continues, up to its first break, stays within
   the width, provided that its pieces are short and the column and the remaining width are int16s.
   */
  lemma FlatWhenItFits(style: Style, k: DocPos, i: DocPos, x: Doc, y: Doc, z: Docs, flat: Best)
    requires Be(style, k, More(i, x, z)) == Some(flat) && ShortPieces(flat)
    requires k.spaces >= 0 && 0 <= k.tabs * style.tabWidth <= 0x7fff && -0x8000 <= style.width - ColumnOf(style, k)
    ensures Be(style, k, More(i, Union(x, y), z))
            == if ColumnOf(style, k) + FirstWidth(flat) <= style.width && !EndsHard(flat) then Some(flat)
               else Be(style, k, More(i, y, z))
  {
    UnionStep(style, k, i, x, y, z, flat);
    WidthNotNegative(flat);
    FitsExactly(Remainder(style, k), flat);
  }

  // When the test is right.

  /** The test is right about a line on which w characters are left. */
  predicate RightAbout(b: Best, w: Int16) {
    Fits(w, b) <==> !EndsHard(b) && FirstWidth(b) <= w
  }

  function Residue(s: int): nat {
    s % 0x1_0000
  }

  /**
   A line that an int16 can measure has no width on the way whose residue exceeds the whole. A longer one
   has two widths whose residues exclude each other at every line width.
   */
  predicate Measurable(ws: seq<int>, total: int) {
    if total <= 0x7fff then forall i :: 0 <= i < |ws| ==> Residue(ws[i]) <= Max(total, 0)
    else exists i, j :: 0 <= i < |ws| && 0 <= j < |ws| && Exclude(Residue(ws[i]), Residue(ws[j]))
  }

  predicate Exclude(low: nat, high: nat) {
    low < 0x8000 <= high <= low + 0x8000
  }

  lemma StaysByResidue(w: Int16, s: int)
    requires w >= 0
    ensures Stays(w, s) <==> if Residue(s) < 0x8000 then Residue(s) <= w else w < Residue(s) - 0x8000
  {
    var q, r := s / 0x1_0000, Residue(s);
    assert s == q * 0x1_0000 + r;
    if r < 0x8000 {
      SameResidue(w - s, w - r, -q);
    } else if w < r - 0x8000 {
      SameResidue(w - s, w - r + 0x1_0000, -q - 1);
    } else {
      SameResidue(w - s, w - r, -q);
    }
  }

  lemma {:induction false} LastWidth(b: Best, s: int)
    ensures var ws := Widths(b, s); ws[0] == s && ws[|ws| - 1] == s + FirstWidth(b)
  {
    if b.TextB? || b.KeywordB? || b.SpacesB? {
      LastWidth(b.rest, s + if b.SpacesB? then b.n as int else |b.s|);
    }
  }

  /** A line is measured rightly at every width if and only if it ends hard or is measurable. */
  lemma RightAtEveryWidth(b: Best)
    ensures (forall w: Int16 :: w >= 0 ==> RightAbout(b, w)) <==> EndsHard(b) || Measurable(Widths(b, 0), FirstWidth(b))
  {
    var ws, total := Widths(b, 0), FirstWidth(b);
    LastWidth(b, 0);
    forall w: Int16 ensures Fits(w, b) <==> !EndsHard(b) && StaysAlong(w, ws) { FitsAlong(w, b, 0); }
    if !EndsHard(b) {
      if total <= 0x7fff { ShortRight(b, ws, total); } else { LongRight(b, ws, total); }
    }
  }

  /** The widths of b, which does not end hard. */
  ghost predicate WidthsOf(b: Best, ws: seq<int>, total: int) {
    && ws != [] && ws[0] == 0 && ws[|ws| - 1] == total == FirstWidth(b) && !EndsHard(b)
    && forall w: Int16 :: Fits(w, b) <==> StaysAlong(w, ws)
  }

  lemma ShortRight(b: Best, ws: seq<int>, total: int)
    requires WidthsOf(b, ws, total) && total <= 0x7fff
    ensures (forall w: Int16 :: w >= 0 ==> RightAbout(b, w)) <==> Measurable(ws, total)
  {
    if Measurable(ws, total) {
      forall w: Int16 | w >= 0 ensures RightAbout(b, w) { ShortIsRight(b, ws, total, w); }
    } else {
      var i :| 0 <= i < |ws| && Residue(ws[i]) > Max(total, 0);
      StaysByResidue(Max(total, 0), ws[i]);
      StaysByResidue(0x7fff, ws[i]);
      var w: Int16 := if Stays(Max(total, 0), ws[i]) then 0x7fff else Max(total, 0);
      assert !StaysAlong(w, ws);
      assert !RightAbout(b, w);
    }
  }

  lemma ShortIsRight(b: Best, ws: seq<int>, total: int, w: Int16)
    requires WidthsOf(b, ws, total) && total <= 0x7fff && w >= 0 && Measurable(ws, total)
    ensures RightAbout(b, w)
  {
    if total <= w {
      forall i | 0 <= i < |ws| ensures Stays(w, ws[i]) { StaysByResidue(w, ws[i]); }
    } else {
      StaysByResidue(w, ws[|ws| - 1]);
      assert !Stays(w, ws[|ws| - 1]);
    }
  }

  lemma LongRight(b: Best, ws: seq<int>, total: int)
    requires WidthsOf(b, ws, total) && total > 0x7fff
    ensures (forall w: Int16 :: w >= 0 ==> RightAbout(b, w)) <==> Measurable(ws, total)
  {
    if Measurable(ws, total) {
      var i, j :| 0 <= i < |ws| && 0 <= j < |ws| && Exclude(Residue(ws[i]), Residue(ws[j]));
      forall w: Int16 | w >= 0 ensures RightAbout(b, w) {
        StaysByResidue(w, ws[i]);
        StaysByResidue(w, ws[j]);
        assert !StaysAlong(w, ws);
      }
    } else {
      var w := GreatestLow(ws, |ws|);
      forall i | 0 <= i < |ws| ensures Stays(w, ws[i]) { StaysByResidue(w, ws[i]); }
      assert !RightAbout(b, w);
    }
  }

  /** The greatest residue below 2 to the 15, which the first width, 0, has at least. */
  lemma {:induction false} GreatestLow(ws: seq<int>, n: nat) returns (w: Int16)
    requires 0 < n <= |ws| && ws[0] == 0
    ensures 0 <= w && exists i :: 0 <= i < n && Residue(ws[i]) == w
    ensures forall i :: 0 <= i < n && Residue(ws[i]) < 0x8000 ==> Residue(ws[i]) <= w
  {
    if n == 1 {
      w := 0;
      assert Residue(ws[0]) == 0;
    } else {
      w := GreatestLow(ws, n - 1);
      var r := Residue(ws[n - 1]);
      if w < r < 0x8000 { w := r; }
    }
  }

  /**
   A single text is measured rightly at every width if and only if its length fits an int16, or is one that
   wraps to the smallest of them.
   */
  lemma LongText(s: string)
    ensures (forall w: Int16 :: w >= 0 ==> RightAbout(TextB(s, End), w)) <==> |s| <= 0x7fff || Residue(|s|) == 0x8000
  {
    var b := TextB(s, End);
    var ws := [0, |s|];
    RightAtEveryWidth(b);
    assert Widths(b, 0) == ws;
    assert Residue(ws[0]) == 0;
    if |s| > 0x7fff && Residue(|s|) == 0x8000 { assert Exclude(Residue(ws[0]), Residue(ws[1])); }
  }

  /** A text of 2 to the 16 characters fits every line. */
  lemma TextThatAlwaysFits(s: string, w: Int16)
    requires |s| == 0x1_0000 && w >= 0
    ensures Fits(w, TextB(s, End)) && !RightAbout(TextB(s, End), w)
  {
    assert Length16(s) == 0;
    assert Fits(WrapInt16(w - Length16(s)), End);
    assert FirstWidth(TextB(s, End)) == |s| + FirstWidth(End);
  }
}
