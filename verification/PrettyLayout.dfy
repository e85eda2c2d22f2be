/** Writing the selected layout, and what a printed document shows whatever the width. */
module PrettyLayout {
  import opened Bytes
  import opened Machine
  import opened PrettyPieces
  import opened PrettyDocs
  import opened PrettyBest
  import opened PrettyPrinter
  import opened Slices

  /** A character n times; not at all when n is negative. */
  function Times(c: char, n: int): string {
    Repeat(c, Max(n, 0))
  }

  /** The spaces of an indentation: those of its tabs too unless tabs are written. */
  function PadSpaces(style: Style, useTabs: bool, i: DocPos): Int16 {
    WrapInt16((if useTabs then 0 else WrapInt16(i.tabs * style.tabWidth)) + i.spaces)
  }

  function Indent(style: Style, useTabs: bool, i: DocPos): string {
    Times('\t', if useTabs then i.tabs else 0) + Times(' ', PadSpaces(style, useTabs, i))
  }

  function Piece(style: Style, useTabs: bool, kw: string -> string, b: Best): string
    requires !b.End?
  {
    match b
    case TextB(s, _) => s
    case KeywordB(s, _) => kw(s)
    case LineB(i, _) => "\n" + Indent(style, useTabs, i)
    case HardlineB(i, _) => "\n" + Indent(style, useTabs, i)
    case SpacesB(n, _) => Times(' ', n)
  }

  function Rendered(style: Style, useTabs: bool, kw: string -> string, b: Best): string {
    if b.End? then "" else Piece(style, useTabs, kw, b) + Rendered(style, useTabs, kw, b.rest)
  }

  /** The filter of the keywords; none leaves them alone. */
  function Filter(transform: Option<string -> string>): string -> string {
    match transform
    case None => (s: string) => s
    case Some(f) => f
  }

  /** Writes a character n times. */
  method WriteBytes(sb: string, c: char, n: Int16) returns (r: string)
    ensures r == sb + Times(c, n)
  {
    r := sb;
    var i := 0;
    while i < n
      invariant 0 <= i <= Max(n, 0) && r == sb + Times(c, i)
    {
      assert Times(c, i + 1) == Times(c, i) + [c];
      Associate(sb, Times(c, i), [c]);
      r := r + [c];
      i := i + 1;
    }
  }

  method WriteIndent(sb: string, style: Style, useTabs: bool, i: DocPos) returns (r: string)
    ensures r == sb + ("\n" + Indent(style, useTabs, i))
  {
    r := sb + "\n";
    var padTabs := WrapInt16(i.tabs * style.tabWidth);
    ghost var tabs := "";
    if useTabs {
      r := WriteBytes(r, '\t', i.tabs);
      tabs := Times('\t', i.tabs);
      padTabs := 0;
    }
    assert r == sb + ("\n" + tabs);
    r := WriteBytes(r, ' ', WrapInt16(padTabs + i.spaces));
    Associate(sb, "\n" + tabs, Times(' ', PadSpaces(style, useTabs, i)));
    Associate("\n", tabs, Times(' ', PadSpaces(style, useTabs, i)));
  }

  method Layout(style: Style, useTabs: bool, transform: Option<string -> string>, b: Best) returns (sb: string)
    ensures sb == Rendered(style, useTabs, Filter(transform), b)
  {
    sb := "";
    var d := b;
    ghost var kw := Filter(transform);
    while d != End
      invariant sb + Rendered(style, useTabs, kw, d) == Rendered(style, useTabs, kw, b)
      decreases d
    {
      Associate(sb, Piece(style, useTabs, kw, d), Rendered(style, useTabs, kw, d.rest));
      sb := WritePiece(sb, style, useTabs, transform, d);
      d := d.rest;
    }
    assert sb + "" == sb;
  }

  /** The switch over the tag of a piece. */
  method WritePiece(sb: string, style: Style, useTabs: bool, transform: Option<string -> string>, d: Best)
    returns (r: string)
    requires d != End
    ensures r == sb + Piece(style, useTabs, Filter(transform), d)
  {
    match d
    case TextB(s, _) => r := sb + s;
    case KeywordB(s, _) =>
      if transform.Some? { r := sb + transform.value(s); } else { r := sb + s; }
    case LineB(i, _) => r := WriteIndent(sb, style, useTabs, i);
    case HardlineB(i, _) => r := WriteIndent(sb, style, useTabs, i);
    case SpacesB(n, _) => r := WriteBytes(sb, ' ', n);
  }

  /** None where the source panics. */
  method Pretty(d: Doc, n: int, useTabs: bool, tabWidth: int, transform: Option<string -> string>)
    returns (s: Option<string>)
    ensures s == Printed(d, Style(WrapInt16(n), WrapInt16(tabWidth)), useTabs, Filter(transform))
  {
    var b := new BeExec(WrapInt16(n), WrapInt16(tabWidth));
    var k := DocPos(0, 0);
    var ldoc := b.BeOf(k, k, d, None);
    if ldoc == None { return None; }
    var sb := Layout(b.style, useTabs, transform, ldoc.value);
    s := Some(sb);
  }

  function Printed(d: Doc, style: Style, useTabs: bool, kw: string -> string): Option<string> {
    match Be(style, DocPos(0, 0), More(DocPos(0, 0), d, Done))
    case None => None
    case Some(b) => Some(Rendered(style, useTabs, kw, b))
  }

  // What is printed.

  function DocsOutline(kw: string -> string, xs: Docs): seq<Piece> {
    match xs
    case Done => []
    case More(_, d, next) => Outline(kw, d) + DocsOutline(kw, next)
  }

  predicate DocsOneOutline(kw: string -> string, xs: Docs) {
    match xs
    case Done => true
    case More(_, d, next) => OneOutline(kw, d) && DocsOneOutline(kw, next)
  }

  lemma ReplacedSays(kw: string -> string, style: Style, k: DocPos, i: DocPos, d: Doc, z: Docs)
    requires !IsLeaf(d) && !d.Union? && !Panics(style, d) && DocsOneOutline(kw, More(i, d, z))
    ensures var xs := Replaced(style, k, i, d, z);
            DocsOneOutline(kw, xs) && DocsOutline(kw, xs) == DocsOutline(kw, More(i, d, z))
  {
    match d
    case Nil => NothingAround(DocsOutline(kw, z));
    case Concat(a, b) => Associate(Outline(kw, a), Outline(kw, b), DocsOutline(kw, z));
    case NestS(_, _) =>
    case NestT(_) =>
    case Column(f) => SaysApply(kw, f, k.spaces);
    case Nesting(f) => SaysApply(kw, f, i.spaces);
  }

  lemma IndentIsSpace(style: Style, useTabs: bool, i: DocPos)
    ensures AllSpace("\n" + Indent(style, useTabs, i))
  {}

  /** A leaf is written as what it says. */
  lemma LeafSpreads(style: Style, useTabs: bool, kw: string -> string, i: DocPos, d: Doc)
    requires IsLeaf(d)
    ensures Spread(Piece(style, useTabs, kw, LeafPiece(i, d)), Outline(kw, d))
  {
    IndentIsSpace(style, useTabs, i);
    match d
    case Text(s) => if s == " " { SpreadGap(s); } else { SpreadWord(s); }
    case Keyword(s) => SpreadWord(kw(s));
    case SoftBreak => SpreadBlanks("\n" + Indent(style, useTabs, i));
    case Pad(n) => SpreadBlanks(Times(' ', n));
    case _ => SpreadGap("\n" + Indent(style, useTabs, i));
  }

  /** Every selected layout of documents with one outline is written as that outline. */
  lemma {:induction false} BeSpreads(kw: string -> string, style: Style, useTabs: bool, k: DocPos, xs: Docs, b: Best)
    requires DocsOneOutline(kw, xs) && Be(style, k, xs) == Some(b)
    ensures Spread(Rendered(style, useTabs, kw, b), DocsOutline(kw, xs))
    decreases DocsSize(xs)
  {
    if xs.More? {
      var i, d, z := xs.i, xs.d, xs.next;
      SizeAtLeastOne(d);
      if IsLeaf(d) {
        BeSpreads(kw, style, useTabs, LeafEnd(k, i, d), z, b.rest);
        LeafSpreads(style, useTabs, kw, i, d);
        SpreadBehind(Piece(style, useTabs, kw, b), Outline(kw, d),
          Rendered(style, useTabs, kw, b.rest), DocsOutline(kw, z));
      } else if d.Union? {
        SizeAtLeastOne(d.x);
        SizeAtLeastOne(d.y);
        if Be(style, k, More(i, d.x, z)) == Some(b) {
          BeSpreads(kw, style, useTabs, k, More(i, d.x, z), b);
        } else {
          BeSpreads(kw, style, useTabs, k, More(i, d.y, z), b);
        }
      } else {
        ReplacedSays(kw, style, k, i, d, z);
        BeSpreads(kw, style, useTabs, k, Replaced(style, k, i, d, z), b);
      }
    }
  }

  /**
   Main result: what is printed of a document with one outline are its words, in their order and unbroken,
   with a blank at least wherever it has a line or a space, at every line width, with tabs or spaces and
   under every filter of the keywords.
   */
  lemma PrintedText(d: Doc, style: Style, useTabs: bool, kw: string -> string)
    requires OneOutline(kw, d)
    ensures match Printed(d, style, useTabs, kw)
            case None => true
            case Some(s) => Spread(s, Outline(kw, d))
  {
    var k := DocPos(0, 0);
    var xs := More(k, d, Done);
    var b := Be(style, k, xs);
    if b.Some? {
      BeSpreads(kw, style, useTabs, k, xs, b.value);
      assert DocsOutline(kw, xs) == Outline(kw, d) by { NothingAround(Outline(kw, d)); }
    }
  }

  /** Reformatting to another width, other tabs or no tabs changes blanks only. */
  lemma WidthsAgree(d: Doc, a: Style, b: Style, tabsA: bool, tabsB: bool, kw: string -> string)
    requires OneOutline(kw, d) && Printed(d, a, tabsA, kw).Some? && Printed(d, b, tabsB, kw).Some?
    ensures Visible(Printed(d, a, tabsA, kw).value) == Visible(Printed(d, b, tabsB, kw).value)
  {
    PrintedText(d, a, tabsA, kw);
    PrintedText(d, b, tabsB, kw);
    SpreadShows(Printed(d, a, tabsA, kw).value, Outline(kw, d));
    SpreadShows(Printed(d, b, tabsB, kw).value, Outline(kw, d));
  }

  // When nothing panics.

  /** No value is missing, and no nesting by tabs unless they have a width. */
  predicate Calm(style: Style, d: Doc)
    decreases d
  {
    match d
    case Panic => false
    case NestT(e) => style.tabWidth != 0 && Calm(style, e)
    case NestS(_, e) => Calm(style, e)
    case Concat(a, b) => Calm(style, a) && Calm(style, b)
    case Union(x, y) => Calm(style, x) && Calm(style, y)
    case Column(f) => forall i :: 0 <= i < |f| ==> Calm(style, f[i])
    case Nesting(f) => forall i :: 0 <= i < |f| ==> Calm(style, f[i])
    case _ => true
  }

  predicate DocsCalm(style: Style, xs: Docs) {
    match xs
    case Done => true
    case More(_, d, next) => Calm(style, d) && DocsCalm(style, next)
  }

  lemma ReplacedCalm(style: Style, k: DocPos, i: DocPos, d: Doc, z: Docs)
    requires !IsLeaf(d) && !d.Union? && DocsCalm(style, More(i, d, z))
    ensures !Panics(style, d) && DocsCalm(style, Replaced(style, k, i, d, z))
  {}

  lemma {:induction false} BeCalm(style: Style, k: DocPos, xs: Docs)
    requires DocsCalm(style, xs)
    ensures Be(style, k, xs).Some?
    decreases DocsSize(xs)
  {
    if xs.More? {
      var i, d, z := xs.i, xs.d, xs.next;
      SizeAtLeastOne(d);
      if IsLeaf(d) {
        BeCalm(style, LeafEnd(k, i, d), z);
      } else if d.Union? {
        SizeAtLeastOne(d.x);
        SizeAtLeastOne(d.y);
        BeCalm(style, k, More(i, d.x, z));
        BeCalm(style, k, More(i, d.y, z));
      } else {
        ReplacedCalm(style, k, i, d, z);
        BeCalm(style, k, Replaced(style, k, i, d, z));
      }
    }
  }

  /** Every document without missing values is printed, unless it nests by tabs of no width. */
  lemma CalmPrints(d: Doc, style: Style, useTabs: bool, kw: string -> string)
    requires Calm(style, d)
    ensures Printed(d, style, useTabs, kw).Some?
  {
    BeCalm(style, DocPos(0, 0), More(DocPos(0, 0), d, Done));
  }
}
