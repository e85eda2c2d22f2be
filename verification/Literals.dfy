/** The literals of hexadecimal and binary digits, x'...' and B'...'. */
module Literals {
  import opened Bytes
  import opened Escapes
  import opened Octets
  import opened Scanning
  import opened Slices

  predicate IsLiteralDigit(c: Octet, hex: bool) {
    if hex then IsHexDigit(c) else c == '0' || c == '1'
  }

  /** The digits up to the closing quote, or the first character that is none; None is the end of the input. */
  datatype Literal = Digits(text: Text, end: nat) | Wrong(c: Option<Octet>, end: nat)

  function PrependDigit(c: Octet, r: Literal): Literal {
    if r.Digits? then Digits([c] + r.text, r.end) else r
  }

  /** The rest of a literal. Literals separated by a newline are joined. */
  function LiteralAt(s: Text, i: nat, hex: bool): (r: Literal)
    requires i <= |s|
    ensures i <= r.end <= |s| && (r.Digits? ==> forall k :: 0 <= k < |r.text| ==> IsLiteralDigit(r.text[k], hex))
    decreases |s| - i
  {
    if i == |s| then Wrong(None, i)
    else if s[i] == '\'' then
      var (j, newline) := SkipBlanks(s, i + 1);
      if newline && HasAt(s, j, '\'') then LiteralAt(s, j + 1, hex) else Digits([], j)
    else if IsLiteralDigit(s[i], hex) then PrependDigit(s[i], LiteralAt(s, i + 1, hex))
    else Wrong(Some(s[i]), i + 1)
  }

  predicate AllHexDigits(t: Text) {
    forall k :: 0 <= k < |t| ==> IsHexDigit(t[k])
  }

  /** Two digits make a byte. */
  function HexBytes(t: Text): (b: Text)
    requires AllHexDigits(t) && |t| % 2 == 0
    ensures |b| == |t| / 2
  {
    if t == [] then [] else [PairByte(t[0], t[1])] + HexBytes(t[2..])
  }

  function PairByte(high: Octet, low: Octet): Octet
    requires IsHexDigit(high) && IsHexDigit(low)
  {
    (HexValue(high) * 16 + HexValue(low)) as char
  }

  function PrintHexBytes(b: Text, upper: bool): (t: Text)
    ensures |t| == 2 * |b|
  {
    if b == [] then [] else PrintHex(b[0] as int, 2, upper) + PrintHexBytes(b[1..], upper)
  }

  lemma PrintedByte(v: nat, upper: bool)
    requires v < 256
    ensures var t := PrintHex(v, 2, upper);
            IsHexDigit(t[0]) && IsHexDigit(t[1]) && PairByte(t[0], t[1]) as int == v
  {
    assert PrintHex(v / 16, 1, upper) == [HexChar(v / 16 % 16, upper)] by {
      assert PrintHex(v / 16 / 16, 0, upper) == [];
    }
  }

  lemma {:induction false} PrintedBytes(b: Text, upper: bool)
    ensures AllHexDigits(PrintHexBytes(b, upper)) && HexBytes(PrintHexBytes(b, upper)) == b
    decreases |b|
  {
    if b != [] {
      var head, rest := PrintHex(b[0] as int, 2, upper), PrintHexBytes(b[1..], upper);
      PrintedBytes(b[1..], upper);
      PrintedByte(b[0] as int, upper);
      BytesConcat(head, rest);
    }
  }

  lemma BytesConcat(head: Text, rest: Text)
    requires |head| == 2 && AllHexDigits(head) && AllHexDigits(rest) && |rest| % 2 == 0
    ensures AllHexDigits(head + rest) && HexBytes(head + rest) == [PairByte(head[0], head[1])] + HexBytes(rest)
  {
    assert (head + rest)[2..] == rest;
  }

  lemma {:induction false} DigitsRead(s: Text, i: nat, t: Text, hex: bool)
    requires Holds(s, i, t) && forall k :: 0 <= k < |t| ==> IsLiteralDigit(t[k], hex)
    ensures LiteralAt(s, i, hex) == match LiteralAt(s, i + |t|, hex) {
      case Digits(u, end) => Digits(t + u, end)
      case Wrong(c, end) => Wrong(c, end)
    }
    decreases |t|
  {
    var rest := LiteralAt(s, i + |t|, hex);
    if t == [] {
      if rest.Digits? { assert [] + rest.text == rest.text; }
    } else {
      assert s[i + 0] == t[0];
      forall k | 0 <= k < |t[1..]| ensures s[i + 1 + k] == t[1..][k] { assert s[i + (1 + k)] == t[1 + k]; }
      DigitsRead(s, i + 1, t[1..], hex);
      if rest.Digits? { assert [t[0]] + (t[1..] + rest.text) == t + rest.text; }
    }
  }

  lemma LiteralCloses(s: Text, i: nat, hex: bool)
    requires i < |s| && s[i] == '\'' && !Continues(s, i + 1, '\'')
    ensures LiteralAt(s, i, hex) == Digits([], SkipBlanks(s, i + 1).0)
  {}

  /** Bytes printed in hexadecimal are read back, whatever the case of the digits. */
  lemma HexRead(s: Text, i: nat, b: Text, upper: bool)
    requires Holds(s, i, PrintHexBytes(b, upper) + ['\'']) && !Continues(s, i + 2 * |b| + 1, '\'')
    ensures var t := PrintHexBytes(b, upper);
            LiteralAt(s, i, true) == Digits(t, SkipBlanks(s, i + 2 * |b| + 1).0) && HexBytes(t) == b
  {
    var t := PrintHexBytes(b, upper);
    HoldsParts(s, i, t, ['\'']);
    assert s[i + |t| + 0] == ['\''][0];
    LiteralCloses(s, i + |t|, true);
    PrintedBytes(b, upper);
    DigitsRead(s, i, t, true);
    NothingAround(t);
  }
}
