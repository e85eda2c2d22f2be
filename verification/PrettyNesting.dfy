/**
 What a document prints, break by break: every line is indented by the steps of nesting above its break,
 whatever alternatives are selected, and aligned lines start where the aligned document does.
 */
module PrettyNesting {
  import opened Bytes
  import opened Digits
  import opened Machine
  import opened PrettyBest
  import opened PrettyDocs
  import opened PrettyLayout
  import opened Slices

  // Indentation.

  /** A step of nesting on the way to a part of a document. */
  datatype Step = Tab | Spaces(n: Int16)

  /** How a document is printed: the style, tabs or spaces, the filter of keywords, and where nesting starts. */
  datatype Printer = Printer(style: Style, useTabs: bool, kw: string -> string, base: DocPos)

  /** The spaces since the last tab. */
  function SpacesSince(p: Printer, path: seq<Step>): int {
    if path == [] then p.base.spaces
    else match path[|path| - 1]
      case Tab => 0
      case Spaces(n) => SpacesSince(p, path[..|path| - 1]) + n
  }

  function Magnitude(a: int): nat {
    if a < 0 then -a else a
  }

  /** Division that drops the fraction. */
  function Truncated(a: int, b: int): int
    requires b != 0
  {
    var size := Magnitude(a) / Magnitude(b);
    if (a < 0) == (b < 0) then size else -size
  }

  /** One tab for every step by a tab, and those that the spaces in front of it make up. */
  function TabsAlong(p: Printer, path: seq<Step>): int
    requires p.style.tabWidth != 0 || Tab !in path
  {
    if path == [] then p.base.tabs
    else
      var before := path[..|path| - 1];
      match path[|path| - 1]
      case Tab => TabsAlong(p, before) + 1 + Truncated(WrapInt16(SpacesSince(p, before)), p.style.tabWidth)
      case Spaces(_) => TabsAlong(p, before)
  }

  predicate Walkable(p: Printer, path: seq<Step>) {
    p.style.tabWidth != 0 || Tab !in path
  }

  function Tabs(p: Printer, path: seq<Step>): Int16
    requires Walkable(p, path)
  {
    WrapInt16(TabsAlong(p, path))
  }

  function SpacesBehind(p: Printer, path: seq<Step>): Int16 {
    WrapInt16(SpacesSince(p, path))
  }

  /** What stands in front of a line whose break is at the end of the path. */
  function IndentAlong(p: Printer, path: seq<Step>): string
    requires Walkable(p, path)
  {
    var tabs, spaces := Tabs(p, path), SpacesBehind(p, path);
    if p.useTabs then Times('\t', tabs) + Times(' ', spaces)
    else Times(' ', WrapInt16(tabs * p.style.tabWidth + spaces))
  }

  // Documents without alternatives.

  predicate IsPlain(style: Style, d: Doc) {
    match d
    case Concat(a, b) => IsPlain(style, a) && IsPlain(style, b)
    case NestS(_, e) => IsPlain(style, e)
    case NestT(e) => style.tabWidth != 0 && IsPlain(style, e)
    case Union(_, _) => false
    case Column(_) => false
    case Nesting(_) => false
    case Panic => false
    case _ => true
  }

  function Break(p: Printer, path: seq<Step>): string
    requires Walkable(p, path)
  {
    "\n" + IndentAlong(p, path)
  }

  /** The text of a document at the end of a path, all on one line if flat. */
  function Written(p: Printer, path: seq<Step>, flat: bool, d: Doc): string
    requires IsPlain(p.style, d) && Walkable(p, path)
    decreases d
  {
    match d
    case Text(s) => s
    case Keyword(s) => p.kw(s)
    case Line => if flat then " " else Break(p, path)
    case SoftBreak => if flat then "" else Break(p, path)
    case HardLine => Break(p, path)
    case Pad(n) => if flat then "" else Times(' ', n)
    case Concat(a, b) => Written(p, path, flat, a) + Written(p, path, flat, b)
    case NestS(n, e) => Written(p, path + [Spaces(n)], flat, e)
    case NestT(e) => Written(p, path + [Tab], flat, e)
    case Nil => ""
  }

  /** Where the cursor is behind a document. */
  function EndOf(style: Style, k: DocPos, i: DocPos, d: Doc): DocPos
    requires IsPlain(style, d)
    decreases d
  {
    match d
    case Nil => k
    case Concat(a, b) => EndOf(style, EndOf(style, k, i, a), i, b)
    case NestS(n, e) => EndOf(style, k, Right(i, n), e)
    case NestT(e) => EndOf(style, k, NextTab(style, i), e)
    case _ => LeafEnd(k, i, d)
  }

  /** The nesting that the printer has at the end of a path. */
  predicate Stands(p: Printer, path: seq<Step>, i: DocPos) {
    Walkable(p, path) && i == DocPos(Tabs(p, path), SpacesBehind(p, path))
  }

  lemma WrapSum(x: int, n: int)
    ensures WrapInt16(WrapInt16(x) + n) == WrapInt16(x + n)
    ensures WrapInt16(x + WrapInt16(n)) == WrapInt16(x + n)
  {
    WrapDifference(x, -n);
    WrapDifference(n, -x);
  }

  lemma WrapThree(t: int, q: int)
    ensures WrapInt16(WrapInt16(t) + 1 + WrapInt16(q)) == WrapInt16(t + 1 + q)
  {
    WrapSum(t, 1 + WrapInt16(q));
    WrapSum(t + 1, q);
  }

  lemma QuotientTruncates(a: Int16, b: Int16)
    requires b != 0
    ensures Quotient16(a, b) == WrapInt16(Truncated(a, b))
  {}

  lemma StepBySpaces(p: Printer, path: seq<Step>, i: DocPos, n: Int16)
    requires Stands(p, path, i)
    ensures Stands(p, path + [Spaces(n)], Right(i, n))
  {
    var longer := path + [Spaces(n)];
    assert longer[..|longer| - 1] == path;
    WrapSum(SpacesSince(p, path), n);
  }

  lemma StepByTab(p: Printer, path: seq<Step>, i: DocPos)
    requires Stands(p, path, i) && p.style.tabWidth != 0
    ensures Stands(p, path + [Tab], NextTab(p.style, i))
  {
    var longer := path + [Tab];
    assert longer[..|longer| - 1] == path;
    var t, q := TabsAlong(p, path), Truncated(i.spaces, p.style.tabWidth);
    QuotientTruncates(i.spaces, p.style.tabWidth);
    WrapThree(t, q);
  }

  lemma IndentIsAlong(p: Printer, path: seq<Step>, i: DocPos)
    requires Stands(p, path, i)
    ensures Indent(p.style, p.useTabs, i) == IndentAlong(p, path)
  {
    if !p.useTabs {
      WrapSum(i.tabs * p.style.tabWidth, i.spaces);
      assert Times('\t', 0) == "";
      NothingAround(IndentAlong(p, path));
    }
  }

  /** What is printed of a document and what follows it. */
  ghost predicate Lays(p: Printer, path: seq<Step>, k: DocPos, i: DocPos, d: Doc, z: Docs)
    requires IsPlain(p.style, d) && Walkable(p, path)
  {
    match Be(p.style, EndOf(p.style, k, i, d), z)
    case None => Be(p.style, k, More(i, d, z)) == None
    case Some(rest) =>
      var b := Be(p.style, k, More(i, d, z));
      b.Some? && Rendered(p.style, p.useTabs, p.kw, b.value)
                 == Written(p, path, false, d) + Rendered(p.style, p.useTabs, p.kw, rest)
  }

  lemma LeafLays(p: Printer, path: seq<Step>, k: DocPos, i: DocPos, d: Doc, z: Docs)
    requires IsLeaf(d) && Stands(p, path, i)
    ensures Lays(p, path, k, i, d, z)
  {
    IndentIsAlong(p, path, i);
  }

  /** A plain document is written as its path says, in front of whatever follows. */
  lemma {:induction false} PlainLays(p: Printer, path: seq<Step>, k: DocPos, i: DocPos, d: Doc, z: Docs)
    requires IsPlain(p.style, d) && Stands(p, path, i)
    ensures Lays(p, path, k, i, d, z)
    decreases d
  {
    match d
    case Concat(a, b) =>
      PlainLays(p, path, k, i, a, More(i, b, z));
      PlainLays(p, path, EndOf(p.style, k, i, a), i, b, z);
      ConcatLays(p, path, k, i, a, b, z);
    case NestS(n, e) =>
      StepBySpaces(p, path, i, n);
      PlainLays(p, path + [Spaces(n)], k, Right(i, n), e, z);
    case NestT(e) =>
      StepByTab(p, path, i);
      PlainLays(p, path + [Tab], k, NextTab(p.style, i), e, z);
    case Nil =>
      var r := Be(p.style, k, z);
      if r.Some? { NothingAround(Rendered(p.style, p.useTabs, p.kw, r.value)); }
    case _ => LeafLays(p, path, k, i, d, z);
  }

  lemma ConcatLays(p: Printer, path: seq<Step>, k: DocPos, i: DocPos, a: Doc, b: Doc, z: Docs)
    requires IsPlain(p.style, a) && IsPlain(p.style, b) && Walkable(p, path)
    requires Lays(p, path, k, i, a, More(i, b, z)) && Lays(p, path, EndOf(p.style, k, i, a), i, b, z)
    ensures Lays(p, path, k, i, Concat(a, b), z)
  {
    var r := Be(p.style, EndOf(p.style, k, i, Concat(a, b)), z);
    assert Be(p.style, k, More(i, Concat(a, b), z)) == Be(p.style, k, More(i, a, More(i, b, z)));
    if r.Some? {
      Associate(Written(p, path, false, a), Written(p, path, false, b),
        Rendered(p.style, p.useTabs, p.kw, r.value));
    }
  }

  /** What is printed of a plain document. */
  lemma PlainPrinted(d: Doc, style: Style, useTabs: bool, kw: string -> string)
    requires IsPlain(style, d)
    ensures Printed(d, style, useTabs, kw) == Some(Written(Printer(style, useTabs, kw, DocPos(0, 0)), [], false, d))
  {
    var p := Printer(style, useTabs, kw, DocPos(0, 0));
    PlainLays(p, [], DocPos(0, 0), DocPos(0, 0), d, Done);
    NothingAround(Written(p, [], false, d));
  }

  // Documents with alternatives.

  /** r is what is left of d, with the cursor at k and nesting i, when its alternatives have been selected. */
  ghost predicate Resolves(style: Style, k: DocPos, i: DocPos, d: Doc, r: Doc)
    requires IsPlain(style, r)
    decreases Size(d)
  {
    match d
    case Concat(a, b) =>
      r.Concat? && Resolves(style, k, i, a, r.a) && Resolves(style, EndOf(style, k, i, r.a), i, b, r.b)
    case NestS(n, e) => r.NestS? && r.n == n && Resolves(style, k, Right(i, n), e, r.d)
    case NestT(e) => r.NestT? && Resolves(style, k, NextTab(style, i), e, r.d)
    case Union(x, y) => Resolves(style, k, i, x, r) || Resolves(style, k, i, y, r)
    case Column(f) => EntrySmaller(f, k.spaces); Resolves(style, k, i, Apply(f, k.spaces), r)
    case Nesting(f) => EntrySmaller(f, i.spaces); Resolves(style, k, i, Apply(f, i.spaces), r)
    case _ => r == d
  }

  ghost predicate AllResolve(style: Style, k: DocPos, xs: Docs, ys: Docs)
    decreases xs
  {
    match xs
    case Done => ys == Done
    case More(i, d, z) =>
      ys.More? && ys.i == i && IsPlain(style, ys.d) && Resolves(style, k, i, d, ys.d)
      && AllResolve(style, EndOf(style, k, i, ys.d), z, ys.next)
  }

  /** Whatever is laid out is laid out as documents whose alternatives have been selected. */
  lemma {:induction false} LaidOutResolved(style: Style, k: DocPos, xs: Docs) returns (ys: Docs)
    requires Be(style, k, xs).Some?
    ensures AllResolve(style, k, xs, ys) && Be(style, k, ys) == Be(style, k, xs)
    decreases DocsSize(xs)
  {
    if xs == Done {
      ys := Done;
    } else {
      var i, d, z := xs.i, xs.d, xs.next;
      SizeAtLeastOne(d);
      if IsLeaf(d) {
        var more := LaidOutResolved(style, LeafEnd(k, i, d), z);
        ys := More(i, d, more);
      } else if d.Union? {
        SizeAtLeastOne(d.x);
        SizeAtLeastOne(d.y);
        if Be(style, k, xs) == Be(style, k, More(i, d.x, z)) {
          ys := LaidOutResolved(style, k, More(i, d.x, z));
        } else {
          ys := LaidOutResolved(style, k, More(i, d.y, z));
        }
      } else {
        var more := LaidOutResolved(style, k, Replaced(style, k, i, d, z));
        ys := Folded(style, k, i, d, z, more);
      }
    }
  }

  /** The document that a replacement has come from is resolved as the replacement is. */
  lemma Folded(style: Style, k: DocPos, i: DocPos, d: Doc, z: Docs, more: Docs) returns (ys: Docs)
    requires !IsLeaf(d) && !d.Union? && !Panics(style, d)
    requires AllResolve(style, k, Replaced(style, k, i, d, z), more)
    ensures AllResolve(style, k, More(i, d, z), ys) && Be(style, k, ys) == Be(style, k, more)
  {
    match d
    case Nil => ys := More(i, Nil, more);
    case Concat(a, b) => ys := More(i, Concat(more.d, more.next.d), more.next.next);
    case NestS(n, e) => ys := More(i, NestS(n, more.d), more.next);
    case NestT(e) => ys := More(i, NestT(more.d), more.next);
    case Column(f) => ys := more;
    case Nesting(f) => ys := more;
  }

  /**
   Main result: whatever the width, a document is printed as one that is left when its alternatives are
   selected, every break of it with the indentation of the nesting above it.
   */
  lemma PrintedAlong(d: Doc, style: Style, useTabs: bool, kw: string -> string) returns (r: Doc)
    requires Printed(d, style, useTabs, kw).Some?
    ensures IsPlain(style, r) && Resolves(style, DocPos(0, 0), DocPos(0, 0), d, r)
    ensures Printed(d, style, useTabs, kw) == Some(Written(Printer(style, useTabs, kw, DocPos(0, 0)), [], false, r))
  {
    var ys := LaidOutResolved(style, DocPos(0, 0), More(DocPos(0, 0), d, Done));
    r := ys.d;
    PlainPrinted(r, style, useTabs, kw);
  }

  // Tab stops.

  function WidthOf(tabWidth: int, tabs: int, spaces: int): int {
    tabs * tabWidth + spaces
  }

  /** A step by a tab leads to the next tab stop: the first multiple of its width to the right. */
  lemma NextTabStop(p: Printer, path: seq<Step>)
    requires p.style.tabWidth > 0 && 0 <= SpacesSince(p, path) <= 0x7fff
    ensures var w, before := p.style.tabWidth, WidthOf(p.style.tabWidth, TabsAlong(p, path), SpacesSince(p, path));
            var after := WidthOf(w, TabsAlong(p, path + [Tab]), SpacesSince(p, path + [Tab]));
            after == TabsAlong(p, path + [Tab]) * w && before < after <= before + w
  {
    var longer := path + [Tab];
    assert longer[..|longer| - 1] == path;
    var w, t, s := p.style.tabWidth, TabsAlong(p, path), SpacesSince(p, path);
    NextMultiple(t, s, w, s / w, s % w);
  }

  lemma NextMultiple(t: int, s: int, w: int, q: int, r: int)
    requires s == q * w + r && 0 <= r < w
    ensures t * w + s < (t + 1 + q) * w <= t * w + s + w
  {
    assert (t + 1 + q) * w == t * w + w + q * w;
  }

  lemma NothingTruncated(b: int)
    requires b != 0
    ensures Truncated(0, b) == 0
  {}

  /** Without spaces on the way the tabs are counted. */
  lemma {:induction false} OneTabForEach(p: Printer, path: seq<Step>)
    requires Walkable(p, path) && p.base == DocPos(0, 0) && forall j :: 0 <= j < |path| ==> path[j] == Tab
    ensures TabsAlong(p, path) == |path| && SpacesSince(p, path) == 0
    decreases |path|
  {
    if path != [] {
      OneTabForEach(p, path[..|path| - 1]);
      assert path[|path| - 1] in path;
      NothingTruncated(p.style.tabWidth);
    }
  }

  // Alignment.

  lemma AlignEntries(d: Doc, k: Int16, i: Int16)
    ensures Align(d).Column? && Apply(Align(d).f, k) == AlignAt(d, k)
    ensures AlignAt(d, k).Nesting? && Apply(AlignAt(d, k).f, i) == NestS(WrapInt16(k - i), d)
  {}

  /** An aligned document is laid out with its nesting at the cursor. */
  lemma AlignLays(style: Style, k: DocPos, i: DocPos, d: Doc, z: Docs)
    ensures Be(style, k, More(i, Align(d), z)) == Be(style, k, More(DocPos(i.tabs, k.spaces), d, z))
  {
    AlignEntries(d, k.spaces, i.spaces);
    StepsLay(style, k, i, Align(d), AlignAt(d, k.spaces), d, z);
  }

  lemma StepsLay(style: Style, k: DocPos, i: DocPos, column: Doc, nesting: Doc, d: Doc, z: Docs)
    requires column.Column? && Apply(column.f, k.spaces) == nesting
    requires nesting.Nesting? && Apply(nesting.f, i.spaces) == NestS(WrapInt16(k.spaces - i.spaces), d)
    ensures Be(style, k, More(i, column, z)) == Be(style, k, More(DocPos(i.tabs, k.spaces), d, z))
  {
    FunctionLays(style, k, i, column, z);
    FunctionLays(style, k, i, nesting, z);
    NestedLays(style, k, i, Apply(nesting.f, i.spaces), z);
    NestedAtCursor(k, i);
  }

  lemma NestedAtCursor(k: DocPos, i: DocPos)
    ensures Right(i, WrapInt16(k.spaces - i.spaces)) == DocPos(i.tabs, k.spaces)
  {
    WrapSum(i.spaces, k.spaces - i.spaces);
  }

  /** A function of the column or of the nesting is laid out as its value. */
  lemma FunctionLays(style: Style, k: DocPos, i: DocPos, d: Doc, z: Docs)
    requires d.Column? || d.Nesting?
    ensures var value := Apply(d.f, if d.Column? then k.spaces else i.spaces);
            Be(style, k, More(i, d, z)) == Be(style, k, More(i, value, z))
  {}

  lemma NestedLays(style: Style, k: DocPos, i: DocPos, d: Doc, z: Docs)
    requires d.NestS?
    ensures Be(style, k, More(i, d, z)) == Be(style, k, More(Right(i, d.n), d.d, z))
  {}

  /** The text of an aligned plain document: its breaks lead to the column of the cursor. */
  lemma AlignedLays(p: Printer, k: DocPos, i: DocPos, d: Doc, z: Docs)
    requires IsPlain(p.style, d) && p.base == DocPos(i.tabs, k.spaces)
    ensures Be(p.style, k, More(i, Align(d), z)) == Be(p.style, k, More(p.base, d, z)) && Lays(p, [], k, p.base, d, z)
  {
    AlignLays(p.style, k, i, d, z);
    PlainLays(p, [], k, p.base, d, z);
  }

  /** What is left of an aligned document is nested to the cursor. */
  lemma AlignResolves(style: Style, k: DocPos, i: DocPos, d: Doc, e: Doc)
    requires IsPlain(style, e) && Resolves(style, k, DocPos(i.tabs, k.spaces), d, e)
    ensures Resolves(style, k, i, Align(d), NestS(WrapInt16(k.spaces - i.spaces), e))
  {
    var n := WrapInt16(k.spaces - i.spaces);
    NestedAtCursor(k, i);
    NestResolves(style, k, i, DocPos(i.tabs, k.spaces), n, d, e);
    AlignEntries(d, k.spaces, i.spaces);
    StepsResolve(style, k, i, Align(d), AlignAt(d, k.spaces), NestS(n, d), NestS(n, e));
  }

  lemma NestResolves(style: Style, k: DocPos, i: DocPos, j: DocPos, n: Int16, d: Doc, e: Doc)
    requires IsPlain(style, e) && j == Right(i, n) && Resolves(style, k, j, d, e)
    ensures Resolves(style, k, i, NestS(n, d), NestS(n, e))
  {}

  lemma StepsResolve(style: Style, k: DocPos, i: DocPos, column: Doc, nesting: Doc, d: Doc, r: Doc)
    requires column.Column? && Apply(column.f, k.spaces) == nesting
    requires nesting.Nesting? && Apply(nesting.f, i.spaces) == d
    requires IsPlain(style, r) && Resolves(style, k, i, d, r)
    ensures Resolves(style, k, i, column, r)
  {
    assert Resolves(style, k, i, nesting, r);
  }

  // Columns.

  /** The column behind a text that starts in column c. */
  function ColumnBehind(tabWidth: int, c: int, t: string): int {
    if t == "" then c
    else
      var last := t[|t| - 1];
      if last == '\n' then 0 else ColumnBehind(tabWidth, c, t[..|t| - 1]) + if last == '\t' then tabWidth else 1
  }

  lemma {:induction false} ColumnConcat(tabWidth: int, c: int, s: string, t: string)
    ensures ColumnBehind(tabWidth, c, s + t) == ColumnBehind(tabWidth, ColumnBehind(tabWidth, c, s), t)
    decreases |t|
  {
    if t == "" {
      NothingAround(s);
    } else {
      assert (s + t)[..|s + t| - 1] == s + t[..|t| - 1];
      ColumnConcat(tabWidth, c, s, t[..|t| - 1]);
    }
  }

  lemma {:induction false} ColumnBehindWord(tabWidth: int, c: int, t: string)
    requires '\n' !in t && '\t' !in t
    ensures ColumnBehind(tabWidth, c, t) == c + |t|
    decreases |t|
  {
    if t != "" { ColumnBehindWord(tabWidth, c, t[..|t| - 1]); }
  }

  lemma {:induction false} ColumnBehindTabs(tabWidth: int, c: int, n: nat)
    ensures ColumnBehind(tabWidth, c, Times('\t', n)) == c + n * tabWidth
    decreases n
  {
    if n > 0 {
      var t := Times('\t', n);
      assert t[..|t| - 1] == Times('\t', n - 1);
      ColumnBehindTabs(tabWidth, c, n - 1);
    }
  }

  lemma ColumnBehindIndent(style: Style, useTabs: bool, i: DocPos, c: int)
    requires i.tabs >= 0 && i.spaces >= 0 && 0 <= i.tabs * style.tabWidth && ColumnOf(style, i) <= 0x7fff
    ensures ColumnBehind(style.tabWidth, c, "\n" + Indent(style, useTabs, i)) == ColumnOf(style, i)
  {
    var w := style.tabWidth;
    var tabs, spaces := Times('\t', if useTabs then i.tabs else 0), Times(' ', PadSpaces(style, useTabs, i));
    ColumnConcat(w, c, "\n", tabs + spaces);
    ColumnConcat(w, 0, tabs, spaces);
    ColumnBehindTabs(w, 0, |tabs|);
    ColumnBehindWord(w, ColumnBehind(w, 0, tabs), spaces);
  }

  /** No word has a break or a tab or is changed in length, and no position leaves its 16 bits. */
  predicate Steady(p: Printer, k: DocPos, i: DocPos, d: Doc)
    requires IsPlain(p.style, d)
    decreases d
  {
    match d
    case Text(s) => SteadyWord(k, s, s)
    case Keyword(s) => SteadyWord(k, s, p.kw(s))
    case Pad(n) => n >= 0 && k.spaces + n <= 0x7fff
    case Concat(a, b) => Steady(p, k, i, a) && Steady(p, EndOf(p.style, k, i, a), i, b)
    case NestS(n, e) => Steady(p, k, Right(i, n), e)
    case NestT(e) => Steady(p, k, NextTab(p.style, i), e)
    case Nil => true
    case _ => i.tabs >= 0 && i.spaces >= 0 && 0 <= i.tabs * p.style.tabWidth && ColumnOf(p.style, i) <= 0x7fff
  }

  predicate SteadyWord(k: DocPos, s: string, t: string) {
    '\n' !in t && '\t' !in t && |s| == |t| && k.spaces + |s| <= 0x7fff && |s| <= 0x7fff
  }

  /** The cursor is the column of the text. */
  lemma {:induction false} CursorIsColumn(p: Printer, path: seq<Step>, k: DocPos, i: DocPos, d: Doc)
    requires IsPlain(p.style, d) && Stands(p, path, i) && Steady(p, k, i, d)
    ensures ColumnBehind(p.style.tabWidth, ColumnOf(p.style, k), Written(p, path, false, d))
            == ColumnOf(p.style, EndOf(p.style, k, i, d))
    decreases d
  {
    var w, c := p.style.tabWidth, ColumnOf(p.style, k);
    match d
    case Text(s) => ColumnBehindWord(w, c, s);
    case Keyword(s) => ColumnBehindWord(w, c, p.kw(s));
    case Pad(n) => ColumnBehindWord(w, c, Times(' ', n));
    case Concat(a, b) =>
      CursorIsColumn(p, path, k, i, a);
      CursorIsColumn(p, path, EndOf(p.style, k, i, a), i, b);
      ColumnConcat(w, c, Written(p, path, false, a), Written(p, path, false, b));
    case NestS(n, e) =>
      StepBySpaces(p, path, i, n);
      CursorIsColumn(p, path + [Spaces(n)], k, Right(i, n), e);
    case NestT(e) =>
      StepByTab(p, path, i);
      CursorIsColumn(p, path + [Tab], k, NextTab(p.style, i), e);
    case Nil =>
    case _ =>
      IndentIsAlong(p, path, i);
      ColumnBehindIndent(p.style, p.useTabs, i, c);
  }

  /** Aligned lines start in the column of the cursor if and only if its line has as many tabs as the nesting. */
  lemma AlignedColumn(style: Style, useTabs: bool, k: DocPos, i: DocPos, c: int)
    requires i.tabs >= 0 && k.spaces >= 0 && style.tabWidth > 0 && ColumnOf(style, DocPos(i.tabs, k.spaces)) <= 0x7fff
    ensures var t := "\n" + Indent(style, useTabs, DocPos(i.tabs, k.spaces));
            ColumnBehind(style.tabWidth, c, t) == ColumnOf(style, k) <==> i.tabs == k.tabs
  {
    ColumnBehindIndent(style, useTabs, DocPos(i.tabs, k.spaces), c);
    MulStrict(i.tabs, k.tabs, style.tabWidth);
  }

  // Flat documents.

  lemma CatWrites(p: Printer, path: seq<Step>, flat: bool, a: Doc, b: Doc)
    requires IsPlain(p.style, a) && IsPlain(p.style, b) && Walkable(p, path)
    ensures IsPlain(p.style, Cat(a, b))
    ensures Written(p, path, flat, Cat(a, b)) == Written(p, path, flat, a) + Written(p, path, flat, b)
  {
    NothingAround(Written(p, path, flat, a));
    NothingAround(Written(p, path, flat, b));
  }

  /** Flattening writes every line as a space and leaves soft breaks and padding out. */
  lemma {:induction false} FlattenWrites(p: Printer, path: seq<Step>, d: Doc)
    requires IsPlain(p.style, d) && Walkable(p, path)
    ensures IsPlain(p.style, Flatten(d)) && Written(p, path, false, Flatten(d)) == Written(p, path, true, d)
    decreases d
  {
    match d
    case Concat(a, b) =>
      FlattenWrites(p, path, a);
      FlattenWrites(p, path, b);
      CatWrites(p, path, false, Flatten(a), Flatten(b));
    case NestS(n, e) => FlattenWrites(p, path + [Spaces(n)], e);
    case NestT(e) => FlattenWrites(p, path + [Tab], e);
    case _ =>
  }
}
