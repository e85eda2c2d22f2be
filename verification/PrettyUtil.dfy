/** The combinators of util.go, each with the proof that what it builds says exactly what its parts say. */
module PrettyUtil {
  import opened Machine
  import opened PrettyPieces
  import opened PrettyDocs
  import opened Slices

  type Combiner = (Doc, Doc) -> Doc

  // Folding.

  function Fold(f: Combiner, ds: seq<Doc>): Doc {
    if ds == [] then Nil else if |ds| == 1 then ds[0] else f(ds[0], Fold(f, ds[1..]))
  }

  function FoldMap(f: Combiner, g: Doc -> Doc, ds: seq<Doc>): Doc {
    if ds == [] then Nil else if |ds| == 1 then g(ds[0]) else f(g(ds[0]), FoldMap(f, g, ds[1..]))
  }

  /** The function puts pre in front of what its argument says. */
  ghost predicate Prefixes(kw: string -> string, g: Doc -> Doc, pre: seq<Piece>) {
    forall a {:trigger g(a)} :: OneOutline(kw, a) ==> Says(kw, g(a), pre + Outline(kw, a))
  }

  ghost predicate AllOneOutline(kw: string -> string, ds: seq<Doc>) {
    forall i :: 0 <= i < |ds| ==> OneOutline(kw, ds[i])
  }

  function Outlines(kw: string -> string, ds: seq<Doc>): (xs: seq<seq<Piece>>)
    ensures |xs| == |ds| && forall i :: 0 <= i < |ds| ==> xs[i] == Outline(kw, ds[i])
  {
    seq(|ds|, i requires 0 <= i < |ds| => Outline(kw, ds[i]))
  }

  lemma OutlinesRest(kw: string -> string, ds: seq<Doc>)
    requires ds != []
    ensures Outlines(kw, ds)[1..] == Outlines(kw, ds[1..])
  {}

  /** Concatenating what a function makes of the documents. */
  lemma {:induction false} SaysFoldMap(kw: string -> string, g: Doc -> Doc, pre: seq<Piece>, ds: seq<Doc>)
    requires Prefixes(kw, g, pre) && AllOneOutline(kw, ds)
    ensures Says(kw, FoldMap(Cat, g, ds), Prefixed(pre, Outlines(kw, ds)))
    decreases |ds|
  {
    if ds != [] {
      var head, rest := pre + Outline(kw, ds[0]), Prefixed(pre, Outlines(kw, ds[1..]));
      assert Says(kw, g(ds[0]), head);
      OutlinesRest(kw, ds);
      if |ds| == 1 {
        NothingAround(head);
      } else {
        SaysFoldMap(kw, g, pre, ds[1..]);
        SaysCat(kw, g(ds[0]), FoldMap(Cat, g, ds[1..]), head, rest);
      }
    }
  }

  // Concatenation with something between.

  function ConcatDoc(a: Doc, b: Doc, between: Doc): Doc {
    if a == Nil then b else if b == Nil then a else Cat(a, Cat(between, b))
  }

  function ConcatLine(a: Doc, b: Doc): Doc {
    ConcatDoc(a, b, Line)
  }

  function ConcatSpace(a: Doc, b: Doc): Doc {
    ConcatDoc(a, b, SPACE)
  }

  const FILL: Doc := Union(SPACE, Line)

  function ConcatFill(a: Doc, b: Doc): Doc {
    ConcatDoc(a, b, FILL)
  }

  /** What is put between two documents is missing when one of them is. */
  lemma SaysConcatDoc(kw: string -> string, a: Doc, b: Doc, between: Doc, s: seq<Piece>, m: seq<Piece>, t: seq<Piece>)
    requires Says(kw, a, s) && Says(kw, b, t) && Says(kw, between, m)
    ensures Says(kw, ConcatDoc(a, b, between), if a == Nil then t else if b == Nil then s else s + (m + t))
  {
    SaysCat(kw, between, b, m, t);
    SaysCat(kw, a, Cat(between, b), s, m + t);
  }

  lemma SaysSeparators(kw: string -> string)
    ensures Says(kw, Line, [Gap]) && Says(kw, SPACE, [Gap]) && Says(kw, FILL, [Gap])
  {}

  function Stack(ds: seq<Doc>): Doc {
    Fold(ConcatLine, ds)
  }

  function Fillwords(ds: seq<Doc>): Doc {
    Fold(ConcatFill, ds)
  }

  function NotNil(ds: seq<Doc>): seq<Doc> {
    if ds == [] then [] else (if ds[0] == Nil then [] else [ds[0]]) + NotNil(ds[1..])
  }

  lemma {:induction false} SaysFilled(kw: string -> string, f: Combiner, between: Doc, m: seq<Piece>, ds: seq<Doc>)
    requires (forall a, b :: f(a, b) == ConcatDoc(a, b, between)) && Says(kw, between, m) && AllOneOutline(kw, ds)
    ensures Says(kw, Fold(f, ds), Joined(m, Outlines(kw, NotNil(ds))))
    ensures Fold(f, ds) == Nil <==> NotNil(ds) == []
    decreases |ds|
  {
    if ds != [] {
      var rest, kept := Fold(f, ds[1..]), NotNil(ds[1..]);
      SaysFilled(kw, f, between, m, ds[1..]);
      if |ds| > 1 {
        SaysConcatDoc(kw, ds[0], rest, between, Outline(kw, ds[0]), m, Joined(m, Outlines(kw, kept)));
      }
      JoinedFirst(kw, m, ds[0], kept);
    }
  }

  lemma JoinedFirst(kw: string -> string, m: seq<Piece>, d: Doc, kept: seq<Doc>)
    ensures var rest := Joined(m, Outlines(kw, kept));
            Joined(m, Outlines(kw, [d] + kept)) == if kept == [] then Outline(kw, d) else Outline(kw, d) + (m + rest)
    ensures [] + kept == kept
  {
    OutlinesRest(kw, [d] + kept);
    assert ([d] + kept)[1..] == kept;
  }

  /** Stacking and filling say what the parts that are not nil say, in order, with a gap in between. */
  lemma SaysStack(kw: string -> string, ds: seq<Doc>)
    requires AllOneOutline(kw, ds)
    ensures Says(kw, Stack(ds), Joined([Gap], Outlines(kw, NotNil(ds))))
    ensures Says(kw, Fillwords(ds), Joined([Gap], Outlines(kw, NotNil(ds))))
  {
    SaysSeparators(kw);
    SaysFilled(kw, ConcatLine, Line, [Gap], ds);
    SaysFilled(kw, ConcatFill, FILL, [Gap], ds);
  }

  // Joining.

  function JoinDoc(s: Doc, ds: seq<Doc>): Doc {
    if ds == [] then Nil
    else if |ds| == 1 then ds[0]
    else Fold(Cat, [ds[0], s, JoinDoc(s, ds[1..])])
  }

  function Join(s: string, ds: seq<Doc>): Doc {
    JoinDoc(Cat(Text(s), Line), ds)
  }

  lemma FoldThree(a: Doc, b: Doc, c: Doc)
    ensures Fold(Cat, [a, b, c]) == Cat(a, Cat(b, c))
  {
    FoldTwo(b, c);
    assert [a, b, c][1..] == [b, c];
  }

  lemma FoldTwo(a: Doc, b: Doc)
    ensures Fold(Cat, [a, b]) == Cat(a, b)
  {
    assert [a, b][1..] == [b];
    assert Fold(Cat, [b]) == b;
  }

  lemma {:induction false} SaysJoinDoc(kw: string -> string, s: Doc, sep: seq<Piece>, ds: seq<Doc>)
    requires Says(kw, s, sep) && AllOneOutline(kw, ds)
    ensures Says(kw, JoinDoc(s, ds), Joined(sep, Outlines(kw, ds)))
    decreases |ds|
  {
    if |ds| > 1 {
      var rest, t := JoinDoc(s, ds[1..]), Joined(sep, Outlines(kw, ds[1..]));
      SaysJoinDoc(kw, s, sep, ds[1..]);
      FoldThree(ds[0], s, rest);
      SaysCat(kw, s, rest, sep, t);
      SaysCat(kw, ds[0], Cat(s, rest), Outline(kw, ds[0]), sep + t);
      OutlinesRest(kw, ds);
    }
  }

  lemma SaysJoin(kw: string -> string, s: string, ds: seq<Doc>)
    requires AllOneOutline(kw, ds)
    ensures Says(kw, Join(s, ds), Joined(TextPieces(s) + [Gap], Outlines(kw, ds)))
  {
    SaysCat(kw, Text(s), Line, TextPieces(s), [Gap]);
    SaysJoinDoc(kw, Cat(Text(s), Line), TextPieces(s) + [Gap], ds);
  }

  /** One item behind a separator, on a line of its own. */
  function NestedItem(sep: Doc, a: Doc): Doc {
    Cat(Line, ConcatSpace(sep, NestT(Group(a))))
  }

  function AlignedItem(sep: Doc, a: Doc): Doc {
    Cat(Line, ConcatSpace(sep, Align(Group(a))))
  }

  function NestedItems(sep: Doc): (g: Doc -> Doc)
    ensures forall a :: g(a) == NestedItem(sep, a)
  {
    a => NestedItem(sep, a)
  }

  function AlignedItems(sep: Doc): (g: Doc -> Doc)
    ensures forall a :: g(a) == AlignedItem(sep, a)
  {
    a => AlignedItem(sep, a)
  }

  /** What stands in front of an item whose separator says pre. */
  function ItemPrefix(sep: Doc, pre: seq<Piece>): seq<Piece> {
    if sep == Nil then [Gap] else [Gap] + (pre + [Gap])
  }

  lemma SaysItem(kw: string -> string, sep: Doc, d: Doc, pre: seq<Piece>, ps: seq<Piece>)
    requires Says(kw, sep, pre) && Says(kw, d, ps) && d != Nil
    ensures Says(kw, Cat(Line, ConcatSpace(sep, d)), ItemPrefix(sep, pre) + ps)
  {
    SaysSeparators(kw);
    SaysConcatDoc(kw, sep, d, SPACE, pre, [Gap], ps);
    if sep == Nil {
      SaysCat(kw, Line, d, [Gap], ps);
    } else {
      SaysCat(kw, Line, ConcatSpace(sep, d), [Gap], pre + ([Gap] + ps));
      Associate(pre, [Gap], ps);
      Associate([Gap], pre + [Gap], ps);
    }
  }

  lemma SaysNestedItem(kw: string -> string, sep: Doc, a: Doc, pre: seq<Piece>, ps: seq<Piece>)
    requires Says(kw, sep, pre) && Says(kw, a, ps)
    ensures Says(kw, NestedItem(sep, a), ItemPrefix(sep, pre) + ps)
  {
    SaysGroup(kw, a, ps);
    SaysItem(kw, sep, NestT(Group(a)), pre, ps);
  }

  lemma SaysAlignedItem(kw: string -> string, sep: Doc, a: Doc, pre: seq<Piece>, ps: seq<Piece>)
    requires Says(kw, sep, pre) && Says(kw, a, ps)
    ensures Says(kw, AlignedItem(sep, a), ItemPrefix(sep, pre) + ps)
  {
    SaysGroup(kw, a, ps);
    SaysAlign(kw, Group(a), ps);
    SaysItem(kw, sep, Align(Group(a)), pre, ps);
  }

  lemma NestedItemsPrefix(kw: string -> string, sep: Doc, pre: seq<Piece>)
    requires Says(kw, sep, pre)
    ensures Prefixes(kw, NestedItems(sep), ItemPrefix(sep, pre))
  {
    var g := NestedItems(sep);
    forall a | OneOutline(kw, a) ensures Says(kw, g(a), ItemPrefix(sep, pre) + Outline(kw, a)) {
      SaysNestedItem(kw, sep, a, pre, Outline(kw, a));
    }
  }

  lemma AlignedItemsPrefix(kw: string -> string, sep: Doc, pre: seq<Piece>)
    requires Says(kw, sep, pre)
    ensures Prefixes(kw, AlignedItems(sep), ItemPrefix(sep, pre))
  {
    var g := AlignedItems(sep);
    forall a | OneOutline(kw, a) ensures Says(kw, g(a), ItemPrefix(sep, pre) + Outline(kw, a)) {
      SaysAlignedItem(kw, sep, a, pre, Outline(kw, a));
    }
  }

  function JoinNestedRight(sep: Doc, ds: seq<Doc>): Doc {
    if ds == [] then Nil
    else if |ds| == 1 then ds[0]
    else Cat(ds[0], FoldMap(Cat, NestedItems(sep), ds[1..]))
  }

  /** The first document and, each behind a prefix, the others. */
  lemma SaysFirstAndRest(kw: string -> string, g: Doc -> Doc, pre: seq<Piece>, ds: seq<Doc>)
    requires ds != [] && Prefixes(kw, g, pre) && AllOneOutline(kw, ds)
    ensures Says(kw, Cat(ds[0], FoldMap(Cat, g, ds[1..])), Joined(pre, Outlines(kw, ds)))
  {
    SaysFoldMap(kw, g, pre, ds[1..]);
    SaysCat(kw, ds[0], FoldMap(Cat, g, ds[1..]), Outline(kw, ds[0]), Prefixed(pre, Outlines(kw, ds[1..])));
    OutlinesRest(kw, ds);
    PrefixedIsJoined(pre, Outlines(kw, ds));
  }

  lemma SaysJoinNestedRight(kw: string -> string, sep: Doc, pre: seq<Piece>, ds: seq<Doc>)
    requires Says(kw, sep, pre) && AllOneOutline(kw, ds)
    ensures Says(kw, JoinNestedRight(sep, ds), Joined(ItemPrefix(sep, pre), Outlines(kw, ds)))
  {
    if |ds| > 1 {
      NestedItemsPrefix(kw, sep, pre);
      SaysFirstAndRest(kw, NestedItems(sep), ItemPrefix(sep, pre), ds);
    }
  }

  /** The functions that labels are made with. */
  datatype LabelKind = PlainLabel | KeywordLabel

  function Label(kind: LabelKind, s: string): Doc {
    if kind == PlainLabel then Text(s) else Keyword(s)
  }

  function LabelPieces(kw: string -> string, kind: LabelKind, s: string): seq<Piece> {
    if kind == PlainLabel then TextPieces(s) else [Word(kw(s))]
  }

  /** The items after the first, moved to the left by the width of the label. */
  function Outdented(lbl: string, sep: Doc, ds: seq<Doc>): Doc
    requires ds != []
  {
    Cat(ds[0], NestS(WrapInt16(-|lbl| - 1), FoldMap(Cat, AlignedItems(sep), ds[1..])))
  }

  /** Where there is room the source takes the first document without looking whether there is one. */
  function JoinNestedOuter(lbl: string, kind: LabelKind, ds: seq<Doc>): Doc {
    var sep := Label(kind, lbl);
    Nesting(Tabulate((k: Int16) =>
      if k < WrapInt16(|lbl| + 1) then JoinNestedRight(sep, ds)
      else if ds == [] then Panic
      else Outdented(lbl, sep, ds)))
  }

  lemma SaysOutdented(kw: string -> string, lbl: string, sep: Doc, pre: seq<Piece>, ds: seq<Doc>)
    requires ds != [] && Says(kw, sep, pre) && AllOneOutline(kw, ds)
    ensures Says(kw, Outdented(lbl, sep, ds), Joined(ItemPrefix(sep, pre), Outlines(kw, ds)))
  {
    var p := ItemPrefix(sep, pre);
    var items := FoldMap(Cat, AlignedItems(sep), ds[1..]);
    AlignedItemsPrefix(kw, sep, pre);
    SaysFoldMap(kw, AlignedItems(sep), p, ds[1..]);
    SaysCat(kw, ds[0], NestS(WrapInt16(-|lbl| - 1), items), Outline(kw, ds[0]), Prefixed(p, Outlines(kw, ds[1..])));
    OutlinesRest(kw, ds);
    PrefixedIsJoined(p, Outlines(kw, ds));
  }

  /** Outdented or nested, the joined items say the same. */
  lemma SaysJoinNestedOuter(kw: string -> string, lbl: string, kind: LabelKind, ds: seq<Doc>)
    requires AllOneOutline(kw, ds)
    ensures var sep := [Gap] + (LabelPieces(kw, kind, lbl) + [Gap]);
            Says(kw, JoinNestedOuter(lbl, kind, ds), Joined(sep, Outlines(kw, ds)))
  {
    var sep, pre := Label(kind, lbl), LabelPieces(kw, kind, lbl);
    var ps := Joined(ItemPrefix(sep, pre), Outlines(kw, ds));
    SaysJoinNestedRight(kw, sep, pre, ds);
    if ds != [] { SaysOutdented(kw, lbl, sep, pre, ds); }
    var f := JoinNestedOuter(lbl, kind, ds).f;
    forall k: Int16 ensures Says(kw, Apply(f, k), ps) {}
    SaysTable(kw, f, ps);
  }

  // A document under or beside another.

  function Under(head: Doc, nested: Doc): Doc {
    Cat(head, NestT(Cat(Line, nested)))
  }

  function NestUnder(head: Doc, nested: Doc): Doc {
    Group(Under(head, Group(nested)))
  }

  function AlignUnder(head: Doc, nested: Doc): Doc {
    var g := Group(nested);
    Group(Union(ConcatSpace(head, Align(g)), Under(head, g)))
  }

  function JoinGroupAligned(head: string, divider: string, ds: seq<Doc>): Doc {
    AlignUnder(Text(head), Join(divider, ds))
  }

  lemma SaysUnder(kw: string -> string, head: Doc, nested: Doc, s: seq<Piece>, t: seq<Piece>)
    requires Says(kw, head, s) && Says(kw, nested, t)
    ensures Says(kw, Under(head, nested), s + ([Gap] + t))
  {
    SaysCat(kw, Line, nested, [Gap], t);
    SaysCat(kw, head, NestT(Cat(Line, nested)), s, [Gap] + t);
  }

  lemma SaysNestUnder(kw: string -> string, head: Doc, nested: Doc, s: seq<Piece>, t: seq<Piece>)
    requires Says(kw, head, s) && Says(kw, nested, t)
    ensures Says(kw, NestUnder(head, nested), s + ([Gap] + t))
  {
    SaysGroup(kw, nested, t);
    SaysUnder(kw, head, Group(nested), s, t);
    SaysGroup(kw, Under(head, Group(nested)), s + ([Gap] + t));
  }

  /** Beside the head or under it the same is said if and only if there is a head: without one a gap more. */
  lemma SaysAlignUnder(kw: string -> string, head: Doc, nested: Doc, s: seq<Piece>, t: seq<Piece>)
    requires Says(kw, head, s) && Says(kw, nested, t)
    ensures OneOutline(kw, AlignUnder(head, nested)) <==> head != Nil
    ensures head != Nil ==> Says(kw, AlignUnder(head, nested), s + ([Gap] + t))
  {
    var g := Group(nested);
    SaysGroup(kw, nested, t);
    SaysAlign(kw, g, t);
    SaysUnder(kw, head, g, s, t);
    SaysSeparators(kw);
    SaysConcatDoc(kw, head, Align(g), SPACE, s, [Gap], t);
    if head == Nil {
      assert |Outline(kw, ConcatSpace(head, Align(g)))| < |Outline(kw, Under(head, g))|;
    } else {
      SaysGroup(kw, Union(ConcatSpace(head, Align(g)), Under(head, g)), s + ([Gap] + t));
    }
  }

  lemma SaysJoinGroupAligned(kw: string -> string, head: string, divider: string, ds: seq<Doc>)
    requires AllOneOutline(kw, ds)
    ensures var joined := Joined(TextPieces(divider) + [Gap], Outlines(kw, ds));
            Says(kw, JoinGroupAligned(head, divider, ds), TextPieces(head) + ([Gap] + joined))
  {
    SaysJoin(kw, divider, ds);
    SaysAlignUnder(kw, Text(head), Join(divider, ds), TextPieces(head),
      Joined(TextPieces(divider) + [Gap], Outlines(kw, ds)));
  }

  function BracketDoc(l: Doc, x: Doc, r: Doc): Doc {
    Group(Fold(Cat, [l, NestT(Cat(SoftBreak, x)), SoftBreak, r]))
  }

  /** No gap is asked for inside the brackets. */
  lemma SaysBracketDoc(kw: string -> string, l: Doc, x: Doc, r: Doc)
    requires OneOutline(kw, l) && OneOutline(kw, x) && OneOutline(kw, r)
    ensures Says(kw, BracketDoc(l, x, r), Outline(kw, l) + (Outline(kw, x) + Outline(kw, r)))
  {
    var inner, s, t, u := NestT(Cat(SoftBreak, x)), Outline(kw, l), Outline(kw, x), Outline(kw, r);
    FoldFour(l, inner, SoftBreak, r);
    SaysSoftly(kw, x, t);
    SaysSoftly(kw, r, u);
    SaysCat(kw, inner, Cat(SoftBreak, r), t, u);
    SaysCat(kw, l, Cat(inner, Cat(SoftBreak, r)), s, t + u);
    SaysGroup(kw, Fold(Cat, [l, inner, SoftBreak, r]), s + (t + u));
  }

  lemma SaysSoftly(kw: string -> string, x: Doc, t: seq<Piece>)
    requires Says(kw, x, t)
    ensures Says(kw, Cat(SoftBreak, x), t) && Says(kw, NestT(Cat(SoftBreak, x)), t)
  {
    SaysCat(kw, SoftBreak, x, [], t);
    NothingAround(t);
  }

  lemma FoldFour(a: Doc, b: Doc, c: Doc, d: Doc)
    ensures Fold(Cat, [a, b, c, d]) == Cat(a, Cat(b, Cat(c, d)))
  {
    FoldThree(b, c, d);
    assert [a, b, c, d][1..] == [b, c, d];
  }
}
