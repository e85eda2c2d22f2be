/** How the combinators look when every group is broken: which lines they make, and how far each is indented. */
module PrettyShapes {
  import opened Bytes
  import opened Machine
  import opened PrettyBest
  import opened PrettyDocs
  import opened PrettyLayout
  import opened PrettyNesting
  import opened PrettyTable
  import opened PrettyUtil
  import opened Slices

  /** Every group broken. */
  function Broken(d: Doc): Doc {
    match d
    case Concat(a, b) => Concat(Broken(a), Broken(b))
    case NestS(n, e) => NestS(n, Broken(e))
    case NestT(e) => NestT(Broken(e))
    case Union(_, y) => Broken(y)
    case _ => d
  }

  /** The broken document is among those that alternatives leave. */
  lemma {:induction false} BrokenResolves(style: Style, k: DocPos, i: DocPos, d: Doc)
    requires IsPlain(style, Broken(d))
    ensures Resolves(style, k, i, d, Broken(d))
    decreases d
  {
    match d
    case Concat(a, b) =>
      BrokenResolves(style, k, i, a);
      BrokenResolves(style, EndOf(style, k, i, Broken(a)), i, b);
    case NestS(n, e) => BrokenResolves(style, k, Right(i, n), e);
    case NestT(e) => BrokenResolves(style, k, NextTab(style, i), e);
    case Union(_, y) => BrokenResolves(style, k, i, y);
    case _ =>
  }

  /** The document can be broken at the end of the path, and what is printed then. */
  ghost predicate Shows(p: Printer, path: seq<Step>, d: Doc, t: string) {
    Walkable(p, path) && IsPlain(p.style, Broken(d)) && Written(p, path, false, Broken(d)) == t
  }

  ghost predicate AllShow(p: Printer, path: seq<Step>, ds: seq<Doc>, ts: seq<string>) {
    |ts| == |ds| && forall j :: 0 <= j < |ds| ==> Shows(p, path, ds[j], ts[j])
  }

  lemma ShowsCat(p: Printer, path: seq<Step>, a: Doc, b: Doc, s: string, t: string)
    requires Shows(p, path, a, s) && Shows(p, path, b, t)
    ensures Shows(p, path, Cat(a, b), s + t)
  {
    NothingAround(s);
    NothingAround(t);
  }

  lemma ShowsGroup(p: Printer, path: seq<Step>, d: Doc, t: string)
    requires Shows(p, path, d, t)
    ensures Shows(p, path, Group(d), t)
  {}

  lemma ShowsNest(p: Printer, path: seq<Step>, d: Doc, t: string)
    requires Shows(p, path + [Tab], d, t) && p.style.tabWidth != 0
    ensures Shows(p, path, NestT(d), t)
  {}

  lemma ShowsText(p: Printer, path: seq<Step>, s: string)
    requires Walkable(p, path)
    ensures Shows(p, path, Text(s), s)
  {}

  lemma ShowsLine(p: Printer, path: seq<Step>)
    requires Walkable(p, path)
    ensures Shows(p, path, Line, Break(p, path)) && Shows(p, path, SoftBreak, Break(p, path))
  {}

  lemma WalkableNested(p: Printer, path: seq<Step>)
    requires p.style.tabWidth != 0
    ensures Walkable(p, path) && Walkable(p, path + [Tab])
  {}

  /** The nested document stands on the next line, one tab further in. */
  lemma NestUnderShows(p: Printer, path: seq<Step>, head: Doc, nested: Doc, s: string, t: string)
    requires p.style.tabWidth != 0 && Shows(p, path, head, s) && Shows(p, path + [Tab], nested, t)
    ensures Shows(p, path, NestUnder(head, nested), s + (Break(p, path + [Tab]) + t))
  {
    ShowsGroup(p, path + [Tab], nested, t);
    UnderShows(p, path, head, Group(nested), s, t);
    ShowsGroup(p, path, Under(head, Group(nested)), s + (Break(p, path + [Tab]) + t));
  }

  lemma UnderShows(p: Printer, path: seq<Step>, head: Doc, nested: Doc, s: string, t: string)
    requires p.style.tabWidth != 0 && Shows(p, path, head, s) && Shows(p, path + [Tab], nested, t)
    ensures Shows(p, path, Under(head, nested), s + (Break(p, path + [Tab]) + t))
  {
    WalkableNested(p, path);
    ShowsLine(p, path + [Tab]);
    ShowsCat(p, path + [Tab], Line, nested, Break(p, path + [Tab]), t);
    ShowsNest(p, path, Cat(Line, nested), Break(p, path + [Tab]) + t);
    ShowsCat(p, path, head, NestT(Cat(Line, nested)), s, Break(p, path + [Tab]) + t);
  }

  /** So does what is aligned where there is room, when there is none. */
  lemma AlignUnderShows(p: Printer, path: seq<Step>, head: Doc, nested: Doc, s: string, t: string)
    requires p.style.tabWidth != 0 && Shows(p, path, head, s) && Shows(p, path + [Tab], nested, t)
    ensures Shows(p, path, AlignUnder(head, nested), s + (Break(p, path + [Tab]) + t))
  {
    var g := Group(nested);
    ShowsGroup(p, path + [Tab], nested, t);
    UnderShows(p, path, head, g, s, t);
    ShowsGroup(p, path, Union(ConcatSpace(head, Align(g)), Under(head, g)), s + (Break(p, path + [Tab]) + t));
  }

  /** The brackets stand on lines of their own, and what is inside one tab further in. */
  lemma BracketShows(p: Printer, path: seq<Step>, l: Doc, x: Doc, r: Doc, s: string, t: string, u: string)
    requires p.style.tabWidth != 0 && Shows(p, path, l, s) && Shows(p, path + [Tab], x, t) && Shows(p, path, r, u)
    ensures Shows(p, path, BracketDoc(l, x, r), s + ((Break(p, path + [Tab]) + t) + (Break(p, path) + u)))
  {
    var inner, inside := NestT(Cat(SoftBreak, x)), Break(p, path + [Tab]) + t;
    FoldFour(l, inner, SoftBreak, r);
    WalkableNested(p, path);
    ShowsLine(p, path + [Tab]);
    ShowsLine(p, path);
    ShowsCat(p, path + [Tab], SoftBreak, x, Break(p, path + [Tab]), t);
    ShowsNest(p, path, Cat(SoftBreak, x), inside);
    ShowsCat(p, path, SoftBreak, r, Break(p, path), u);
    ShowsCat(p, path, inner, Cat(SoftBreak, r), inside, Break(p, path) + u);
    ShowsCat(p, path, l, Cat(inner, Cat(SoftBreak, r)), s, inside + (Break(p, path) + u));
    ShowsGroup(p, path, Fold(Cat, [l, inner, SoftBreak, r]), s + (inside + (Break(p, path) + u)));
  }

  /** Texts with a separator in between. */
  function Separated(sep: string, ts: seq<string>): string {
    if ts == [] then "" else if |ts| == 1 then ts[0] else ts[0] + (sep + Separated(sep, ts[1..]))
  }

  /** Joined documents stand on lines of their own, each behind the separator at the end of the line before. */
  lemma {:induction false} JoinShows(p: Printer, path: seq<Step>, s: string, ds: seq<Doc>, ts: seq<string>)
    requires Walkable(p, path) && AllShow(p, path, ds, ts)
    ensures Shows(p, path, Join(s, ds), Separated(s + Break(p, path), ts))
    decreases |ds|
  {
    if |ds| > 1 {
      var sep, rest := Cat(Text(s), Line), Separated(s + Break(p, path), ts[1..]);
      JoinShows(p, path, s, ds[1..], ts[1..]);
      FoldThree(ds[0], sep, Join(s, ds[1..]));
      ShowsText(p, path, s);
      ShowsLine(p, path);
      ShowsCat(p, path, Text(s), Line, s, Break(p, path));
      ShowsCat(p, path, sep, Join(s, ds[1..]), s + Break(p, path), rest);
      ShowsCat(p, path, ds[0], Cat(sep, Join(s, ds[1..])), ts[0], s + Break(p, path) + rest);
    }
  }

  /** Stacked or filled documents stand on lines of their own, the empty ones left out. */
  lemma StackShows(p: Printer, path: seq<Step>, ds: seq<Doc>, ts: seq<string>)
    requires Walkable(p, path) && AllShow(p, path, NotNil(ds), ts)
    ensures Shows(p, path, Stack(ds), Separated(Break(p, path), ts))
    ensures Shows(p, path, Fillwords(ds), Separated(Break(p, path), ts))
  {
    NoneIsNil(ds);
    FoldShows(p, path, ConcatLine, Line, NotNil(ds), ts);
    FoldDropsNil(ConcatLine, ds);
    FoldShows(p, path, ConcatFill, FILL, NotNil(ds), ts);
    FoldDropsNil(ConcatFill, ds);
  }

  lemma {:induction false} NoneIsNil(ds: seq<Doc>)
    ensures Nil !in NotNil(ds)
    decreases |ds|
  {
    if ds != [] { NoneIsNil(ds[1..]); }
  }

  lemma {:induction false} FoldDropsNil(f: Combiner, ds: seq<Doc>)
    requires f == ConcatLine || f == ConcatFill
    ensures Fold(f, ds) == Fold(f, NotNil(ds))
    decreases |ds|
  {
    if ds != [] {
      var rest := NotNil(ds[1..]);
      FoldDropsNil(f, ds[1..]);
      if ds[0] == Nil {
        assert [] + rest == rest;
      } else {
        assert ([ds[0]] + rest)[1..] == rest;
        NilBehind(f, ds[0]);
      }
    }
  }

  lemma NilBehind(f: Combiner, d: Doc)
    requires f == ConcatLine || f == ConcatFill
    ensures f(d, Nil) == d && Fold(f, []) == Nil && Fold(f, [d]) == d
  {}

  lemma {:induction false} FoldShows(p: Printer, path: seq<Step>, f: Combiner, m: Doc, ds: seq<Doc>, ts: seq<string>)
    requires (f == ConcatLine && m == Line) || (f == ConcatFill && m == FILL)
    requires Walkable(p, path) && AllShow(p, path, ds, ts) && Nil !in ds
    ensures Shows(p, path, Fold(f, ds), Separated(Break(p, path), ts))
    decreases |ds|
  {
    if |ds| > 1 {
      FoldShows(p, path, f, m, ds[1..], ts[1..]);
      FoldNotNil(f, ds[1..]);
      ShowsLine(p, path);
      BetweenShows(p, path, ds[0], m, Fold(f, ds[1..]), ts[0], Break(p, path), Separated(Break(p, path), ts[1..]));
    }
  }

  lemma BetweenShows(p: Printer, path: seq<Step>, a: Doc, m: Doc, b: Doc, s: string, t: string, u: string)
    requires a != Nil && b != Nil && Shows(p, path, a, s) && Shows(p, path, m, t) && Shows(p, path, b, u)
    ensures Shows(p, path, ConcatDoc(a, b, m), s + (t + u))
  {
    ShowsCat(p, path, m, b, t, u);
    ShowsCat(p, path, a, Cat(m, b), s, t + u);
  }

  lemma FoldNotNil(f: Combiner, ds: seq<Doc>)
    requires ds != [] && Nil !in ds && (f == ConcatLine || f == ConcatFill)
    ensures Fold(f, ds) != Nil
  {}

  /** Items after the first start on lines of their own behind the separator; their own lines go one tab in. */
  function ItemsText(p: Printer, path: seq<Step>, sep: string, ts: seq<string>): string
    requires Walkable(p, path)
  {
    if ts == [] then "" else (Break(p, path) + (sep + (" " + ts[0]))) + ItemsText(p, path, sep, ts[1..])
  }

  lemma JoinNestedRightShows(p: Printer, path: seq<Step>, sep: Doc, s: string, ds: seq<Doc>, t: string, ts: seq<string>)
    requires p.style.tabWidth != 0 && sep != Nil && Shows(p, path, sep, s) && ds != []
    requires Shows(p, path, ds[0], t) && AllShow(p, path + [Tab], ds[1..], ts)
    ensures Shows(p, path, JoinNestedRight(sep, ds), t + ItemsText(p, path, s, ts))
  {
    if |ds| == 1 {
      NothingAround(t);
    } else {
      ItemsShow(p, path, sep, s, ds[1..], ts);
      ShowsCat(p, path, ds[0], FoldMap(Cat, NestedItems(sep), ds[1..]), t, ItemsText(p, path, s, ts));
    }
  }

  lemma {:induction false} ItemsShow(p: Printer, path: seq<Step>, sep: Doc, s: string, ds: seq<Doc>, ts: seq<string>)
    requires p.style.tabWidth != 0 && sep != Nil && Shows(p, path, sep, s) && ds != []
    requires AllShow(p, path + [Tab], ds, ts)
    ensures Shows(p, path, FoldMap(Cat, NestedItems(sep), ds), ItemsText(p, path, s, ts))
    decreases |ds|
  {
    var first := Break(p, path) + (s + (" " + ts[0]));
    ItemShows(p, path, sep, s, ds[0], ts[0]);
    if |ds| == 1 {
      NothingAround(first);
      assert ts[1..] == [];
    } else {
      ItemsShow(p, path, sep, s, ds[1..], ts[1..]);
      ShowsCat(p, path, NestedItem(sep, ds[0]), FoldMap(Cat, NestedItems(sep), ds[1..]),
        first, ItemsText(p, path, s, ts[1..]));
    }
  }

  lemma ItemShows(p: Printer, path: seq<Step>, sep: Doc, s: string, d: Doc, t: string)
    requires p.style.tabWidth != 0 && sep != Nil && Shows(p, path, sep, s) && Shows(p, path + [Tab], d, t)
    ensures Shows(p, path, NestedItem(sep, d), Break(p, path) + (s + (" " + t)))
  {
    var item := NestT(Group(d));
    WalkableNested(p, path);
    ShowsGroup(p, path + [Tab], d, t);
    ShowsNest(p, path, Group(d), t);
    ShowsText(p, path, " ");
    BetweenShows(p, path, sep, SPACE, item, s, " ", t);
    ShowsLine(p, path);
    ShowsCat(p, path, Line, ConcatSpace(sep, item), Break(p, path), s + (" " + t));
  }

  // Columns.

  lemma EndOfLabel(style: Style, k: DocPos, i: DocPos, kind: LabelKind, lbl: string)
    requires |lbl| <= 0x7fff
    ensures IsPlain(style, Label(kind, lbl)) && EndOf(style, k, i, Label(kind, lbl)) == Right(k, |lbl|)
  {}

  lemma EndOfTwo(style: Style, k: DocPos, i: DocPos, a: Doc, b: Doc)
    requires IsPlain(style, a) && IsPlain(style, b)
    ensures IsPlain(style, Cat(a, b)) && EndOf(style, k, i, Cat(a, b)) == EndOf(style, EndOf(style, k, i, a), i, b)
    ensures IsPlain(style, Concat(a, b))
    ensures EndOf(style, k, i, Concat(a, b)) == EndOf(style, EndOf(style, k, i, a), i, b)
  {}

  lemma EndOfSpace(style: Style, k: DocPos, i: DocPos)
    ensures IsPlain(style, SPACE) && EndOf(style, k, i, SPACE) == Right(k, 1)
  {}

  lemma RightTwice(k: DocPos, m: int, n: int)
    ensures Right(Right(k, m), n) == Right(k, m + n)
  {
    WrapSum(k.spaces + m, n);
  }

  /** The label and its padding bring every row of a table to the same column. */
  lemma RowsStartTogether(style: Style, k: DocPos, i: DocPos, leftPad: bool, kind: LabelKind, width: nat, lbl: string)
    requires |lbl| <= width < 0x7fff
    ensures var row := Concat(PaddedLabel(leftPad, kind, width, lbl), SPACE);
            IsPlain(style, row) && EndOf(style, k, i, row) == Right(k, width + 1)
    ensures EndOf(style, k, i, Pad(WrapInt16(width + 1))) == Right(k, width + 1)
  {
    EndOfPadded(style, k, i, leftPad, kind, width, lbl);
    EndOfTwo(style, k, i, PaddedLabel(leftPad, kind, width, lbl), SPACE);
    EndOfSpace(style, Right(k, width), i);
    RightTwice(k, width, 1);
  }

  lemma EndOfPadded(style: Style, k: DocPos, i: DocPos, leftPad: bool, kind: LabelKind, width: nat, lbl: string)
    requires |lbl| <= width < 0x7fff
    ensures var d := PaddedLabel(leftPad, kind, width, lbl);
            IsPlain(style, d) && EndOf(style, k, i, d) == Right(k, width)
  {
    var n := width - |lbl|;
    if leftPad {
      EndOfLabel(style, Right(k, n), i, kind, lbl);
      EndOfTwo(style, k, i, Pad(n), Label(kind, lbl));
      RightTwice(k, n, |lbl|);
    } else {
      EndOfLabel(style, k, i, kind, lbl);
      EndOfTwo(style, k, i, Label(kind, lbl), Pad(n));
      RightTwice(k, |lbl|, n);
    }
  }

  lemma BehindLabel(style: Style, k: DocPos, i: DocPos, kind: LabelKind, lbl: string)
    requires |lbl| <= 0x7fff
    ensures var behind := Concat(Label(kind, lbl), SPACE);
            IsPlain(style, behind) && EndOf(style, k, i, behind) == Right(k, |lbl| + 1)
  {
    EndOfLabel(style, k, i, kind, lbl);
    EndOfTwo(style, k, i, Label(kind, lbl), SPACE);
    EndOfSpace(style, Right(k, |lbl|), i);
    RightTwice(k, |lbl|, 1);
  }

  /** A separator moved to the left brings the items behind it back to where the first one stands. */
  lemma ItemsStandBelow(style: Style, k: DocPos, i: DocPos, kind: LabelKind, lbl: string)
    requires |lbl| < 0x7fff
    ensures var behind := Concat(Label(kind, lbl), SPACE);
            var start := NestS(WrapInt16(-|lbl| - 1), Concat(Line, behind));
            IsPlain(style, start) && EndOf(style, k, i, start) == i
  {
    var j := Right(i, -|lbl| - 1);
    var behind := Concat(Label(kind, lbl), SPACE);
    BehindLabel(style, j, j, kind, lbl);
    EndOfTwo(style, k, j, Line, behind);
    WrapSum(i.spaces, -|lbl| - 1);
    RightTwice(i, -|lbl| - 1, |lbl| + 1);
    assert Right(i, 0) == i;
  }

  /** Items are moved to the left where the nesting has room for the separator, and nested where it has none. */
  lemma MovedWhereThereIsRoom(style: Style, k: DocPos, i: DocPos, lbl: string, kind: LabelKind, ds: seq<Doc>, z: Docs)
    requires ds != [] && |lbl| < 0x7fff
    ensures var room := i.spaces - |lbl| - 1 >= 0;
            var d := if room then Outdented(lbl, Label(kind, lbl), ds) else JoinNestedRight(Label(kind, lbl), ds);
            Be(style, k, More(i, JoinNestedOuter(lbl, kind, ds), z)) == Be(style, k, More(i, d, z))
  {
    var d := JoinNestedOuter(lbl, kind, ds);
    assert d.Nesting? && i.spaces < WrapInt16(|lbl| + 1) <==> i.spaces - |lbl| - 1 < 0;
    FunctionLays(style, k, i, d, z);
  }

  /** A document that is left when alternatives of d are selected is written as t. */
  ghost predicate MayPrint(p: Printer, path: seq<Step>, k: DocPos, i: DocPos, d: Doc, t: string)
    requires Walkable(p, path)
  {
    exists r :: IsPlain(p.style, r) && Resolves(p.style, k, i, d, r) && Written(p, path, false, r) == t
  }

  lemma EitherMayPrint(p: Printer, path: seq<Step>, k: DocPos, i: DocPos, d: Doc, t: string)
    requires Walkable(p, path) && d.Union? && (MayPrint(p, path, k, i, d.x, t) || MayPrint(p, path, k, i, d.y, t))
    ensures MayPrint(p, path, k, i, d, t)
  {
    var r :| && IsPlain(p.style, r) && Written(p, path, false, r) == t
             && (Resolves(p.style, k, i, d.x, r) || Resolves(p.style, k, i, d.y, r));
    assert Resolves(p.style, k, i, d, r);
  }

  /** Blanks in front of a label that is aligned to the right, and behind one that is aligned to the left. */
  lemma LabelStands(p: Printer, path: seq<Step>, k: DocPos, i: DocPos, alignment: TableAlignment, width: nat,
        lbl: string)
    requires alignment != NoAlign && lbl != "" && |lbl| <= width < 0x7fff && Walkable(p, path)
    ensures var blanks := Times(' ', width - |lbl|);
            var table := TableDoc(alignment, PlainLabel, width, [TableRow(lbl, Some(Nil))]);
            MayPrint(p, path, k, i, table, if alignment == LeftAlignFirstColumn then lbl + blanks else blanks + lbl)
  {
    var rows := [TableRow(lbl, Some(Nil))];
    var left := alignment == LeftAlignFirstColumn;
    var blanks := Times(' ', width - |lbl|);
    var table := TableDoc(alignment, PlainLabel, width, rows);
    assert rows[..0] == [];
    assert AlignedRows(!left, PlainLabel, width, rows) == [PaddedLabel(!left, PlainLabel, width, lbl)];
    PaddedMayPrint(p, path, k, i, left, width, lbl);
    assert table.y.x == PaddedLabel(!left, PlainLabel, width, lbl);
    EitherMayPrint(p, path, k, i, table.y, if left then lbl + blanks else blanks + lbl);
    EitherMayPrint(p, path, k, i, table, if left then lbl + blanks else blanks + lbl);
  }

  lemma PaddedMayPrint(p: Printer, path: seq<Step>, k: DocPos, i: DocPos, left: bool, width: nat, lbl: string)
    requires |lbl| <= width < 0x7fff && Walkable(p, path)
    ensures var blanks := Times(' ', width - |lbl|);
            var d := PaddedLabel(!left, PlainLabel, width, lbl);
            MayPrint(p, path, k, i, d, if left then lbl + blanks else blanks + lbl)
  {
    var d := PaddedLabel(!left, PlainLabel, width, lbl);
    BrokenResolves(p.style, k, i, d);
    assert d == if left then Concat(Text(lbl), Pad(width - |lbl|)) else Concat(Pad(width - |lbl|), Text(lbl));
    assert Written(p, path, false, Text(lbl)) == lbl;
    assert Written(p, path, false, Pad(width - |lbl|)) == Times(' ', width - |lbl|);
    assert IsPlain(p.style, d) && Broken(d) == d;
  }

  // Aligned parts.

  /** Behind a head and a space, aligned lines start where the first one does. */
  lemma SpaceAligned(style: Style, k: DocPos, i: DocPos, head: Doc, h: Doc, d: Doc, e: Doc, c: DocPos)
    requires head != Nil && IsPlain(style, h) && Resolves(style, k, i, head, h) && c == Right(EndOf(style, k, i, h), 1)
    requires IsPlain(style, e) && Resolves(style, c, DocPos(i.tabs, c.spaces), d, e)
    ensures var r := Concat(h, Concat(SPACE, NestS(WrapInt16(c.spaces - i.spaces), e)));
            IsPlain(style, r) && Resolves(style, k, i, ConcatSpace(head, Align(d)), r)
  {
    var aligned := NestS(WrapInt16(c.spaces - i.spaces), e);
    AlignResolves(style, c, i, d, e);
    EndOfSpace(style, EndOf(style, k, i, h), i);
    ConcatResolves(style, EndOf(style, k, i, h), i, SPACE, SPACE, Align(d), aligned);
    ConcatResolves(style, k, i, head, h, Concat(SPACE, Align(d)), Concat(SPACE, aligned));
  }

  lemma ConcatResolves(style: Style, k: DocPos, i: DocPos, a: Doc, x: Doc, b: Doc, y: Doc)
    requires IsPlain(style, x) && Resolves(style, k, i, a, x)
    requires IsPlain(style, y) && Resolves(style, EndOf(style, k, i, x), i, b, y)
    ensures Resolves(style, k, i, Concat(a, b), Concat(x, y))
  {}

  /** With room beside the head, the nested document may stand there, its lines aligned. */
  lemma AlignedBeside(style: Style, k: DocPos, i: DocPos, head: Doc, h: Doc, nested: Doc, e: Doc, c: DocPos)
    requires head != Nil && IsPlain(style, h) && Resolves(style, k, i, head, h) && c == Right(EndOf(style, k, i, h), 1)
    requires IsPlain(style, e) && Resolves(style, c, DocPos(i.tabs, c.spaces), Group(nested), e)
    ensures var r := Concat(h, Concat(SPACE, NestS(WrapInt16(c.spaces - i.spaces), e)));
            IsPlain(style, r) && Resolves(style, k, i, AlignUnder(head, nested), r)
  {
    var g := Group(nested);
    var r := Concat(h, Concat(SPACE, NestS(WrapInt16(c.spaces - i.spaces), e)));
    SpaceAligned(style, k, i, head, h, g, e, c);
    SecondResolves(style, k, i, AlignUnder(head, nested), Union(ConcatSpace(head, Align(g)), Under(head, g)), r);
  }

  lemma SecondResolves(style: Style, k: DocPos, i: DocPos, d: Doc, u: Doc, r: Doc)
    requires d.Union? && d.y == u && u.Union? && IsPlain(style, r) && Resolves(style, k, i, u.x, r)
    ensures Resolves(style, k, i, d, r)
  {
    assert Resolves(style, k, i, u, r);
  }

  lemma RightBack(i: DocPos, j: DocPos, n: int)
    requires j == Right(i, -n - 1)
    ensures Right(Right(j, n), 1) == i
  {
    RightTwice(j, n, 1);
    RightTwice(i, -n - 1, n + 1);
  }

  /** An item behind a separator that has been moved to the left is aligned with the first item. */
  lemma MovedItemAligned(style: Style, k: DocPos, i: DocPos, kind: LabelKind, lbl: string, a: Doc, e: Doc, j: DocPos)
    requires |lbl| < 0x7fff && j == Right(i, -|lbl| - 1)
    requires IsPlain(style, e) && Resolves(style, i, i, Group(a), e)
    ensures var sep := Label(kind, lbl);
            var r := Concat(Line, Concat(sep, Concat(SPACE, NestS(WrapInt16(i.spaces - j.spaces), e))));
            IsPlain(style, r) && Resolves(style, k, j, AlignedItem(sep, a), r)
  {
    var sep := Label(kind, lbl);
    EndOfLabel(style, j, j, kind, lbl);
    RightBack(i, j, |lbl|);
    SpaceAligned(style, j, j, sep, sep, Group(a), e, i);
    ConcatResolves(style, k, j, Line, Line, ConcatSpace(sep, Align(Group(a))),
      Concat(sep, Concat(SPACE, NestS(WrapInt16(i.spaces - j.spaces), e))));
  }

  /** The document of a row of a table is aligned behind the column of the labels. */
  lemma RowAligned(style: Style, k: DocPos, i: DocPos, leftPad: bool, kind: LabelKind, width: nat, row: TableRow,
        e: Doc, c: DocPos)
    requires row.doc.Some? && row.doc.value != Nil && |row.lbl| <= width < 0x7fff && c == Right(k, width + 1)
    requires IsPlain(style, e) && Resolves(style, c, DocPos(i.tabs, c.spaces), Group(row.doc.value), e)
    ensures var aligned := NestS(WrapInt16(c.spaces - i.spaces), e);
            var r := if row.lbl == "" then Concat(Pad(width + 1), aligned)
                     else Concat(PaddedLabel(leftPad, kind, width, row.lbl), Concat(SPACE, aligned));
            IsPlain(style, r) && Resolves(style, k, i, AlignedRow(leftPad, kind, width, row), r)
  {
    var g, front := Group(row.doc.value), PaddedLabel(leftPad, kind, width, row.lbl);
    RowIs(leftPad, kind, width, row);
    if row.lbl == "" {
      PadAligned(style, k, i, width, g, e, c);
    } else {
      PaddedResolves(style, k, i, leftPad, kind, width, row.lbl);
      RightTwice(k, width, 1);
      SpaceAligned(style, k, i, front, front, g, e, c);
    }
  }

  lemma RowIs(leftPad: bool, kind: LabelKind, width: nat, row: TableRow)
    requires row.doc.Some? && row.doc.value != Nil && width < 0x7fff
    ensures var a := Align(Group(row.doc.value));
            AlignedRow(leftPad, kind, width, row) ==
              if row.lbl == "" then Concat(Pad(width + 1), a)
              else ConcatSpace(PaddedLabel(leftPad, kind, width, row.lbl), a)
  {
    AlignEntries(Group(row.doc.value), 0, 0);
  }

  lemma PadAligned(style: Style, k: DocPos, i: DocPos, width: nat, g: Doc, e: Doc, c: DocPos)
    requires width < 0x7fff && c == Right(k, width + 1)
    requires IsPlain(style, e) && Resolves(style, c, DocPos(i.tabs, c.spaces), g, e)
    ensures var aligned := NestS(WrapInt16(c.spaces - i.spaces), e);
            IsPlain(style, Concat(Pad(width + 1), aligned))
            && Resolves(style, k, i, Concat(Pad(width + 1), Align(g)), Concat(Pad(width + 1), aligned))
  {
    AlignResolves(style, c, i, g, e);
    ConcatResolves(style, k, i, Pad(width + 1), Pad(width + 1), Align(g), NestS(WrapInt16(c.spaces - i.spaces), e));
  }

  lemma PaddedResolves(style: Style, k: DocPos, i: DocPos, leftPad: bool, kind: LabelKind, width: nat, lbl: string)
    requires |lbl| <= width < 0x7fff
    ensures var d := PaddedLabel(leftPad, kind, width, lbl);
            d != Nil && IsPlain(style, d) && Resolves(style, k, i, d, d) && EndOf(style, k, i, d) == Right(k, width)
  {
    EndOfPadded(style, k, i, leftPad, kind, width, lbl);
    var d := PaddedLabel(leftPad, kind, width, lbl);
    assert d.Concat?;
    ConcatResolves(style, k, i, d.a, d.a, d.b, d.b);
  }

  function LabelText(p: Printer, kind: LabelKind, lbl: string): string {
    if kind == PlainLabel then lbl else p.kw(lbl)
  }

  /** A section of a table without columns: the document stands under its label, one tab further in. */
  lemma SectionShows(p: Printer, path: seq<Step>, kind: LabelKind, row: TableRow, t: string)
    requires p.style.tabWidth != 0 && row.doc.Some? && row.doc.value != Nil && row.lbl != ""
    requires Shows(p, path + [Tab], row.doc.value, t)
    ensures Shows(p, path, Section(kind, row), LabelText(p, kind, row.lbl) + (Break(p, path + [Tab]) + t))
  {
    WalkableNested(p, path);
    ShowsGroup(p, path + [Tab], row.doc.value, t);
    UnderShows(p, path, Label(kind, row.lbl), Group(row.doc.value), LabelText(p, kind, row.lbl), t);
  }
}
