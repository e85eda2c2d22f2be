/**
 The documents of the pretty printer, with their alternative layouts, and the outline that these have in
 common: whatever alternative is chosen, the same words come in the same order with the same gaps.
 */
module PrettyDocs {
  import opened Machine
  import opened PrettyPieces
  import opened Slices

  /**
   Documents. A function of an int16 is the table of its values, from the smallest argument on; Panic is
   the value where it has none.
   */
  datatype Doc =
    | Nil
    | Text(s: string)
    | Keyword(s: string)
    | Line
    | SoftBreak
    | HardLine
    | Concat(a: Doc, b: Doc)
    | NestS(n: Int16, d: Doc)
    | NestT(d: Doc)
    | Union(x: Doc, y: Doc)
    | Column(f: seq<Doc>)
    | Nesting(f: seq<Doc>)
    | Pad(n: Int16)
    | Panic

  const TABLE_SIZE := 0x1_0000

  function Index(c: Int16): (i: nat)
    ensures i < TABLE_SIZE
  {
    c + 0x8000
  }

  function Apply(f: seq<Doc>, c: Int16): Doc {
    if Index(c) < |f| then f[Index(c)] else Nil
  }

  function Tabulate(g: Int16 -> Doc): (f: seq<Doc>)
    ensures |f| == TABLE_SIZE && forall c: Int16 :: Apply(f, c) == g(c)
  {
    var f := seq(TABLE_SIZE, i requires 0 <= i < TABLE_SIZE => g(i - 0x8000));
    assert forall c: Int16 :: f[Index(c)] == g(c);
    f
  }

  // The constructors.

  /** Concat, which inserts no Nil. */
  function Cat(a: Doc, b: Doc): Doc {
    if a == Nil then b else if b == Nil then a else Concat(a, b)
  }

  const SPACE: Doc := Text(" ")

  function Flatten(d: Doc): Doc {
    match d
    case Concat(a, b) => Cat(Flatten(a), Flatten(b))
    case NestT(e) => NestT(Flatten(e))
    case NestS(n, e) => NestS(n, Flatten(e))
    case Line => SPACE
    case SoftBreak => Nil
    case Union(x, _) => Flatten(x)
    case Column(f) => Column(seq(|f|, i requires 0 <= i < |f| => Flatten(f[i])))
    case Nesting(f) => Nesting(seq(|f|, i requires 0 <= i < |f| => Flatten(f[i])))
    case Pad(_) => Nil
    case _ => d
  }

  function Group(d: Doc): Doc {
    Union(Flatten(d), d)
  }

  /** From any nesting level to level k. */
  function NestTo(d: Doc, k: Int16): Int16 -> Doc {
    (i: Int16) => NestS(WrapInt16(k - i), d)
  }

  function AlignAt(d: Doc, k: Int16): Doc {
    Nesting(Tabulate(NestTo(d, k)))
  }

  /** Renders d with the nesting level at the current column. */
  function Align(d: Doc): Doc {
    Column(Tabulate((k: Int16) => AlignAt(d, k)))
  }

  // The outline of a document.

  /** A text is a word, but for the one that stands for a flattened line. */
  function TextPieces(s: string): seq<Piece> {
    if s == " " then [Gap] else [Word(s)]
  }

  /** The words and gaps of a document whose keywords are printed as given by kw. */
  function Outline(kw: string -> string, d: Doc): seq<Piece> {
    match d
    case Text(s) => TextPieces(s)
    case Keyword(s) => [Word(kw(s))]
    case Line => [Gap]
    case HardLine => [Gap]
    case Concat(a, b) => Outline(kw, a) + Outline(kw, b)
    case NestS(_, e) => Outline(kw, e)
    case NestT(e) => Outline(kw, e)
    case Union(x, _) => Outline(kw, x)
    case Column(f) => if f == [] then [] else Outline(kw, f[0])
    case Nesting(f) => if f == [] then [] else Outline(kw, f[0])
    case _ => []
  }

  /** All alternatives of a document have the same outline. */
  predicate OneOutline(kw: string -> string, d: Doc)
    decreases d, 1
  {
    match d
    case Concat(a, b) => OneOutline(kw, a) && OneOutline(kw, b)
    case NestS(_, e) => OneOutline(kw, e)
    case NestT(e) => OneOutline(kw, e)
    case Union(x, y) => OneOutline(kw, x) && OneOutline(kw, y) && Outline(kw, x) == Outline(kw, y)
    case Column(f) => OneTable(kw, f)
    case Nesting(f) => OneTable(kw, f)
    case _ => true
  }

  predicate OneTable(kw: string -> string, f: seq<Doc>)
    decreases f, 0
  {
    |f| == TABLE_SIZE && forall i :: 0 <= i < |f| ==> OneOutline(kw, f[i]) && Outline(kw, f[i]) == Outline(kw, f[0])
  }

  /** A document with one outline, and which one that is. */
  ghost predicate Says(kw: string -> string, d: Doc, ps: seq<Piece>) {
    OneOutline(kw, d) && Outline(kw, d) == ps
  }

  lemma SaysApply(kw: string -> string, f: seq<Doc>, c: Int16)
    requires OneTable(kw, f)
    ensures Says(kw, Apply(f, c), Outline(kw, f[0]))
  {}

  lemma SaysTable(kw: string -> string, f: seq<Doc>, ps: seq<Piece>)
    requires |f| == TABLE_SIZE && forall c: Int16 :: Says(kw, Apply(f, c), ps)
    ensures Says(kw, Column(f), ps) && Says(kw, Nesting(f), ps)
  {
    forall i | 0 <= i < |f| ensures OneOutline(kw, f[i]) && Outline(kw, f[i]) == ps {
      var c: Int16 := i - 0x8000;
      assert Says(kw, Apply(f, c), ps);
    }
  }

  lemma SaysCat(kw: string -> string, a: Doc, b: Doc, s: seq<Piece>, t: seq<Piece>)
    requires Says(kw, a, s) && Says(kw, b, t)
    ensures Says(kw, Cat(a, b), s + t)
  {
    NothingAround(s);
    NothingAround(t);
  }

  /** Flattening keeps the outline. */
  lemma {:induction false} SaysFlatten(kw: string -> string, d: Doc)
    requires OneOutline(kw, d)
    ensures Says(kw, Flatten(d), Outline(kw, d))
  {
    match d
    case Concat(a, b) =>
      SaysFlatten(kw, a);
      SaysFlatten(kw, b);
      SaysCat(kw, Flatten(a), Flatten(b), Outline(kw, a), Outline(kw, b));
    case NestT(e) => SaysFlatten(kw, e);
    case NestS(_, e) => SaysFlatten(kw, e);
    case Union(x, _) => SaysFlatten(kw, x);
    case Column(f) =>
      forall i | 0 <= i < |f| ensures Says(kw, Flatten(f[i]), Outline(kw, f[0])) { SaysFlatten(kw, f[i]); }
    case Nesting(f) =>
      forall i | 0 <= i < |f| ensures Says(kw, Flatten(f[i]), Outline(kw, f[0])) { SaysFlatten(kw, f[i]); }
    case _ =>
  }

  /** Grouping keeps the outline: both alternatives of a group say the same. */
  lemma SaysGroup(kw: string -> string, d: Doc, ps: seq<Piece>)
    requires Says(kw, d, ps)
    ensures Says(kw, Group(d), ps)
  {
    SaysFlatten(kw, d);
  }

  lemma SaysAlignAt(kw: string -> string, d: Doc, k: Int16, ps: seq<Piece>)
    requires Says(kw, d, ps)
    ensures Says(kw, AlignAt(d, k), ps)
  {
    var g := NestTo(d, k);
    forall i: Int16 ensures Says(kw, g(i), ps) {}
    SaysTable(kw, Tabulate(g), ps);
  }

  /** Aligning keeps the outline, whatever the column and the level. */
  lemma SaysAlign(kw: string -> string, d: Doc, ps: seq<Piece>)
    requires Says(kw, d, ps)
    ensures Says(kw, Align(d), ps)
  {
    var f := Align(d).f;
    forall k: Int16 ensures Says(kw, Apply(f, k), ps) { SaysAlignAt(kw, d, k, ps); }
    SaysTable(kw, f, ps);
  }
}
