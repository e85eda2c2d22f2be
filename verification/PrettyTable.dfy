/** Tables of util.go: two aligned columns or nested sections, which say the same. */
module PrettyTable {
  import opened Bytes
  import opened Machine
  import opened PrettyPieces
  import opened PrettyDocs
  import opened PrettyUtil
  import opened Slices

  /** A row without a document is a nil pointer in the source. */
  datatype TableRow = TableRow(lbl: string, doc: Option<Doc>)

  datatype TableAlignment = NoAlign | RightAlignFirstColumn | LeftAlignFirstColumn

  predicate Skipped(r: TableRow) {
    r.doc.None? || (r.lbl == "" && r.doc.value == Nil)
  }

  // The rows as sections.

  function Section(kind: LabelKind, r: TableRow): Doc
    requires r.doc.Some?
  {
    if r.lbl == "" then Group(r.doc.value)
    else if r.doc.value == Nil then Label(kind, r.lbl)
    else Under(Label(kind, r.lbl), Group(r.doc.value))
  }

  function Sections(kind: LabelKind, rows: seq<TableRow>): seq<Doc> {
    if rows == [] then []
    else
      var n := |rows| - 1;
      Sections(kind, rows[..n]) + if Skipped(rows[n]) then [] else [Section(kind, rows[n])]
  }

  method MakeTableNestedSections(kind: LabelKind, rows: seq<TableRow>) returns (items: seq<Doc>)
    ensures items == Sections(kind, rows)
  {
    items := [];
    for i := 0 to |rows|
      invariant items == Sections(kind, rows[..i])
    {
      assert rows[..i + 1][..i] == rows[..i];
      var r := rows[i];
      if !Skipped(r) { items := items + [Section(kind, r)]; }
    }
    assert rows[..|rows|] == rows;
  }

  // The rows in two columns.

  /** No label of a row with a document is longer, and one of them is as long unless the width is 0. */
  ghost predicate IsLeftWidth(rows: seq<TableRow>, w: nat) {
    && (forall i :: 0 <= i < |rows| && rows[i].doc.Some? ==> |rows[i].lbl| <= w)
    && (w > 0 ==> exists i :: 0 <= i < |rows| && rows[i].doc.Some? && |rows[i].lbl| == w)
  }

  method ComputeLeftColumnWidth(rows: seq<TableRow>) returns (leftWidth: nat)
    ensures IsLeftWidth(rows, leftWidth)
  {
    leftWidth := 0;
    for i := 0 to |rows|
      invariant IsLeftWidth(rows[..i], leftWidth)
    {
      var r := rows[i];
      WidthStep(rows, i, leftWidth);
      if r.doc.Some? && leftWidth < |r.lbl| { leftWidth := |r.lbl|; }
    }
    assert rows[..|rows|] == rows;
  }

  lemma WidthStep(rows: seq<TableRow>, i: nat, w: nat)
    requires i < |rows| && IsLeftWidth(rows[..i], w)
    ensures IsLeftWidth(rows[..i + 1], if rows[i].doc.Some? && w < |rows[i].lbl| then |rows[i].lbl| else w)
  {
    var s, t := rows[..i], rows[..i + 1];
    assert t == s + [rows[i]];
    if rows[i].doc.Some? && w < |rows[i].lbl| {
      assert t[i] == rows[i];
    } else if w > 0 {
      var k :| 0 <= k < |s| && s[k].doc.Some? && |s[k].lbl| == w;
      assert t[k] == s[k];
    }
  }

  /** The label with its padding, on the left or on the right. */
  function PaddedLabel(leftPad: bool, kind: LabelKind, width: nat, lbl: string): Doc {
    var pad := Pad(WrapInt16(width - |lbl|));
    if leftPad then Cat(pad, Label(kind, lbl)) else Cat(Label(kind, lbl), pad)
  }

  function AlignedRow(leftPad: bool, kind: LabelKind, width: nat, r: TableRow): Doc
    requires r.doc.Some?
  {
    if r.lbl == "" then Cat(Pad(WrapInt16(width + 1)), Align(Group(r.doc.value)))
    else if r.doc.value == Nil then PaddedLabel(leftPad, kind, width, r.lbl)
    else ConcatSpace(PaddedLabel(leftPad, kind, width, r.lbl), Align(Group(r.doc.value)))
  }

  function AlignedRows(leftPad: bool, kind: LabelKind, width: nat, rows: seq<TableRow>): seq<Doc> {
    if rows == [] then []
    else
      var n := |rows| - 1;
      AlignedRows(leftPad, kind, width, rows[..n]) +
      if Skipped(rows[n]) then [] else [AlignedRow(leftPad, kind, width, rows[n])]
  }

  method MakeAlignedTableItems(leftPad: bool, kind: LabelKind, rows: seq<TableRow>)
    returns (items: seq<Doc>, ghost width: nat)
    ensures IsLeftWidth(rows, width) && items == AlignedRows(leftPad, kind, width, rows)
  {
    var leftWidth := ComputeLeftColumnWidth(rows);
    width := leftWidth;
    items := [];
    for i := 0 to |rows|
      invariant items == AlignedRows(leftPad, kind, leftWidth, rows[..i])
    {
      assert rows[..i + 1][..i] == rows[..i];
      var r := rows[i];
      if !Skipped(r) { items := items + [AlignedRow(leftPad, kind, leftWidth, r)]; }
    }
    assert rows[..|rows|] == rows;
  }

  // What the rows say.

  function RowPieces(kw: string -> string, kind: LabelKind, r: TableRow): seq<Piece>
    requires r.doc.Some?
  {
    if r.lbl == "" then Outline(kw, r.doc.value)
    else if r.doc.value == Nil then LabelPieces(kw, kind, r.lbl)
    else LabelPieces(kw, kind, r.lbl) + ([Gap] + Outline(kw, r.doc.value))
  }

  /** The rows that are printed. */
  function RowOutlines(kw: string -> string, kind: LabelKind, rows: seq<TableRow>): seq<seq<Piece>> {
    if rows == [] then []
    else
      var n := |rows| - 1;
      RowOutlines(kw, kind, rows[..n]) + if Skipped(rows[n]) then [] else [RowPieces(kw, kind, rows[n])]
  }

  ghost predicate RowsOneOutline(kw: string -> string, rows: seq<TableRow>) {
    forall i :: 0 <= i < |rows| && rows[i].doc.Some? ==> OneOutline(kw, rows[i].doc.value)
  }

  lemma SaysLabel(kw: string -> string, kind: LabelKind, s: string)
    ensures Says(kw, Label(kind, s), LabelPieces(kw, kind, s)) && Label(kind, s) != Nil
  {}

  lemma SaysSection(kw: string -> string, kind: LabelKind, r: TableRow)
    requires !Skipped(r) && OneOutline(kw, r.doc.value)
    ensures Says(kw, Section(kind, r), RowPieces(kw, kind, r)) && Section(kind, r) != Nil
  {
    var d, ps := r.doc.value, Outline(kw, r.doc.value);
    SaysGroup(kw, d, ps);
    SaysLabel(kw, kind, r.lbl);
    SaysUnder(kw, Label(kind, r.lbl), Group(d), LabelPieces(kw, kind, r.lbl), ps);
  }

  lemma SaysPaddedLabel(kw: string -> string, leftPad: bool, kind: LabelKind, width: nat, lbl: string)
    ensures Says(kw, PaddedLabel(leftPad, kind, width, lbl), LabelPieces(kw, kind, lbl))
    ensures PaddedLabel(leftPad, kind, width, lbl) != Nil
  {
    var pad, s := Pad(WrapInt16(width - |lbl|)), LabelPieces(kw, kind, lbl);
    SaysLabel(kw, kind, lbl);
    SaysCat(kw, pad, Label(kind, lbl), [], s);
    SaysCat(kw, Label(kind, lbl), pad, s, []);
    NothingAround(s);
  }

  lemma SaysAligned(kw: string -> string, d: Doc)
    requires OneOutline(kw, d)
    ensures Says(kw, Align(Group(d)), Outline(kw, d))
  {
    SaysGroup(kw, d, Outline(kw, d));
    SaysAlign(kw, Group(d), Outline(kw, d));
  }

  lemma SaysAlignedRow(kw: string -> string, leftPad: bool, kind: LabelKind, width: nat, r: TableRow)
    requires !Skipped(r) && OneOutline(kw, r.doc.value)
    ensures Says(kw, AlignedRow(leftPad, kind, width, r), RowPieces(kw, kind, r))
    ensures AlignedRow(leftPad, kind, width, r) != Nil
  {
    var d, ps := r.doc.value, Outline(kw, r.doc.value);
    SaysAligned(kw, d);
    if r.lbl == "" {
      SaysCat(kw, Pad(WrapInt16(width + 1)), Align(Group(d)), [], ps);
      NothingAround(ps);
    } else {
      var pleft, s := PaddedLabel(leftPad, kind, width, r.lbl), LabelPieces(kw, kind, r.lbl);
      SaysPaddedLabel(kw, leftPad, kind, width, r.lbl);
      SaysSeparators(kw);
      SaysConcatDoc(kw, pleft, Align(Group(d)), SPACE, s, [Gap], ps);
    }
  }

  /** Documents that are not nil and say one outline each. */
  ghost predicate SayEach(kw: string -> string, ds: seq<Doc>, xs: seq<seq<Piece>>) {
    |ds| == |xs| && forall i :: 0 <= i < |ds| ==> ds[i] != Nil && Says(kw, ds[i], xs[i])
  }

  lemma {:induction false} NoneIsNil(ds: seq<Doc>)
    requires forall i :: 0 <= i < |ds| ==> ds[i] != Nil
    ensures NotNil(ds) == ds
  {
    if ds != [] {
      NoneIsNil(ds[1..]);
      assert [ds[0]] + ds[1..] == ds;
    }
  }

  lemma SaysStackOf(kw: string -> string, ds: seq<Doc>, xs: seq<seq<Piece>>)
    requires SayEach(kw, ds, xs)
    ensures Says(kw, Stack(ds), Joined([Gap], xs))
  {
    NoneIsNil(ds);
    SaysStack(kw, ds);
    assert Outlines(kw, ds) == xs;
  }

  lemma {:induction false} SaysSections(kw: string -> string, kind: LabelKind, rows: seq<TableRow>)
    requires RowsOneOutline(kw, rows)
    ensures SayEach(kw, Sections(kind, rows), RowOutlines(kw, kind, rows))
    decreases |rows|
  {
    if rows != [] {
      SaysSections(kw, kind, rows[..|rows| - 1]);
      if !Skipped(rows[|rows| - 1]) { SaysSection(kw, kind, rows[|rows| - 1]); }
    }
  }

  lemma {:induction false} SaysAlignedRows(kw: string -> string, leftPad: bool, kind: LabelKind, width: nat,
        rows: seq<TableRow>)
    requires RowsOneOutline(kw, rows)
    ensures SayEach(kw, AlignedRows(leftPad, kind, width, rows), RowOutlines(kw, kind, rows))
    decreases |rows|
  {
    if rows != [] {
      SaysAlignedRows(kw, leftPad, kind, width, rows[..|rows| - 1]);
      if !Skipped(rows[|rows| - 1]) { SaysAlignedRow(kw, leftPad, kind, width, rows[|rows| - 1]); }
    }
  }

  /** Two columns, the first of them as wide as the widest label, or sections. */
  function TableDoc(alignment: TableAlignment, kind: LabelKind, width: nat, rows: seq<TableRow>): Doc {
    var sections := Stack(Sections(kind, rows));
    Group(if alignment == NoAlign then sections
          else Union(Stack(AlignedRows(alignment == RightAlignFirstColumn, kind, width, rows)), sections))
  }

  method Table(alignment: TableAlignment, kind: LabelKind, rows: seq<TableRow>) returns (d: Doc, ghost width: nat)
    ensures alignment != NoAlign ==> IsLeftWidth(rows, width)
    ensures d == TableDoc(alignment, kind, width, rows)
  {
    var items := MakeTableNestedSections(kind, rows);
    var nestedSections := Stack(items);
    var finalDoc := nestedSections;
    width := 0;
    if alignment != NoAlign {
      items, width := MakeAlignedTableItems(alignment == RightAlignFirstColumn, kind, rows);
      finalDoc := Union(Stack(items), nestedSections);
    }
    d := Group(finalDoc);
  }

  /** Whatever the alignment and the width, a table says its labels and rows in order, with gaps between them. */
  lemma SaysTableDoc(kw: string -> string, alignment: TableAlignment, kind: LabelKind, width: nat, rows: seq<TableRow>)
    requires RowsOneOutline(kw, rows)
    ensures Says(kw, TableDoc(alignment, kind, width, rows), Joined([Gap], RowOutlines(kw, kind, rows)))
  {
    var leftPad, ps := alignment == RightAlignFirstColumn, Joined([Gap], RowOutlines(kw, kind, rows));
    var sections, aligned := Sections(kind, rows), AlignedRows(leftPad, kind, width, rows);
    SaysSections(kw, kind, rows);
    SaysStackOf(kw, sections, RowOutlines(kw, kind, rows));
    SaysAlignedRows(kw, leftPad, kind, width, rows);
    SaysStackOf(kw, aligned, RowOutlines(kw, kind, rows));
    SaysGroup(kw, if alignment == NoAlign then Stack(sections) else Union(Stack(aligned), Stack(sections)), ps);
  }

  /** Rows without a document, or with nothing in either column, make no line. */
  lemma EmptyRowLeftOut(alignment: TableAlignment, kind: LabelKind, width: nat, rows: seq<TableRow>, lbl: string)
    ensures TableDoc(alignment, kind, width, rows + [TableRow(lbl, None)]) == TableDoc(alignment, kind, width, rows)
    ensures TableDoc(alignment, kind, width, rows + [TableRow("", Some(Nil))]) == TableDoc(alignment, kind, width, rows)
  {
    LastLeftOut(alignment == RightAlignFirstColumn, kind, width, rows, TableRow(lbl, None));
    LastLeftOut(alignment == RightAlignFirstColumn, kind, width, rows, TableRow("", Some(Nil)));
  }

  lemma LastLeftOut(leftPad: bool, kind: LabelKind, width: nat, rows: seq<TableRow>, r: TableRow)
    requires Skipped(r)
    ensures Sections(kind, rows + [r]) == Sections(kind, rows)
    ensures AlignedRows(leftPad, kind, width, rows + [r]) == AlignedRows(leftPad, kind, width, rows)
  {
    assert (rows + [r])[..|rows|] == rows;
  }
}
