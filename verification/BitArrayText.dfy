/** Printing and parsing of bit arrays: the two undo each other across all word boundaries. */
module BitArrayText {
  import opened Digits
  import opened Words
  import opened BitArrays
  import opened Machine
  import Octets

  function DigitOf(b: Bit): char {
    if b == 1 then '1' else '0'
  }

  /** The text of a bit string. */
  function Text(c: seq<Bit>): (s: string)
    ensures |s| == |c| && forall i :: 0 <= i < |c| ==> s[i] == DigitOf(c[i])
  {
    seq(|c|, i requires 0 <= i < |c| => DigitOf(c[i]))
  }

  /** fmt's %08b of a byte. */
  function ByteRepr(b: nat): (s: string)
    requires b < 256
    ensures |s| == 8
  {
    Text(LowBits(b, 8))
  }

  /** Byte k of a word, counting from the top, by shifting and masking. */
  lemma ByteBits(w: Word, k: nat)
    requires k < 8
    ensures var b := And(Shr(w, 56 - 8 * k), 0xff); b < 256 && LowBits(b, 8) == Bits(w)[8 * k..8 * k + 8]
  {
    var v := Shr(w, 56 - 8 * k);
    LowMask(8);
    assert Pow(2, 8) == 256;
    AndLowMask(v, 8);
    ValueBound(Bits(v)[56..]);
    ShrBits(w, 56 - 8 * k);
    assert Bits(v)[56..] == Bits(w)[8 * k..8 * k + 8];
    LowBitsOfValue(Bits(v)[56..]);
  }

  lemma SingleBit(w: Word, i: nat)
    requires i < 64
    ensures And(Shr(w, i), 1) == Bits(w)[63 - i]
  {
    LowMask(1);
    assert Pow(2, 1) == 2;
    AndLowMask(Shr(w, i), 1);
    ShrBit(w, i, 63);
    assert Bits(Shr(w, i))[63..] == [Bits(w)[63 - i]];
    FromDigitsSnoc([], Bits(w)[63 - i], 2);
    assert [] + [Bits(w)[63 - i]] == [Bits(w)[63 - i]];
  }

  /** The eight bytes of a full word. */
  method FormatWord(w: Word) returns (s: string)
    ensures s == Text(Bits(w))
  {
    s := "";
    for k := 0 to 8
      invariant s == Text(Bits(w)[..8 * k])
    {
      ByteBits(w, k);
      s := s + ByteRepr(And(Shr(w, 56 - 8 * k), 0xff));
      assert Bits(w)[..8 * (k + 1)] == Bits(w)[..8 * k] + Bits(w)[8 * k..8 * k + 8];
    }
    assert Bits(w)[..64] == Bits(w);
  }

  method Format(d: BitArray) returns (buf: string)
    requires d.Valid()
    ensures buf == Text(d.Contents()) && |buf| == d.BitLen()
    ensures forall i :: 0 <= i < |buf| ==> buf[i] == if d.Contents()[i] == 1 then '1' else '0'
  {
    var bitLen := d.BitLen();
    ghost var c := d.Contents();
    buf := "";
    for i := 0 to bitLen / 64
      invariant buf == Text(c[..64 * i])
    {
      var s := FormatWord(d.words[i]);
      WordOfContents(d, i, 64);
      buf := buf + s;
    }
    if bitLen % 64 > 0 {
      var rest := FormatRest(d, bitLen / 64, bitLen % 64);
      buf := buf + rest;
    }
    assert c[..bitLen] == c;
  }

  /** The bits of the last word, one at a time. */
  method FormatRest(d: BitArray, n: nat, remainingBits: nat) returns (s: string)
    requires d.Valid() && 0 < remainingBits < 64 && d.BitLen() == 64 * n + remainingBits
    ensures s == Text(d.Contents()[64 * n..])
  {
    var lastWord := d.words[n];
    s := "";
    for k := 0 to remainingBits
      invariant s == Text(Bits(lastWord)[..k])
    {
      var i := 63 - k;
      SingleBit(lastWord, i);
      var bitVal := And(Shr(lastWord, i), 1);
      assert Bits(lastWord)[..k + 1] == Bits(lastWord)[..k] + [bitVal];
      s := s + [DigitOf(bitVal)];
    }
    WordOfContents(d, n, remainingBits);
    assert d.Contents()[..64 * n + remainingBits] == d.Contents();
  }

  lemma WordOfContents(d: BitArray, i: nat, n: nat)
    requires d.Valid() && 0 < n <= 64 && 64 * i + n <= d.BitLen()
    ensures d.Contents()[..64 * i + n] == d.Contents()[..64 * i] + Bits(d.words[i])[..n]
  {
    forall k | 0 <= k < n ensures d.Contents()[64 * i + k] == Bits(d.words[i])[k] {
      BitAtWord(d.words, i, k);
    }
  }

  /** The value of a hexadecimal digit; any other character counts as zero. */
  function HexNibble(c: char): (v: nat)
    ensures v < 16
  {
    if '0' <= c <= '9' then c as int - '0' as int
    else if 'a' <= c <= 'f' then c as int - 'a' as int + 10
    else if 'A' <= c <= 'F' then c as int - 'A' as int + 10
    else 0
  }

  /** The value of a hexadecimal digit is its place in one of the tables. */
  lemma NibbleTable(c: char, v: nat)
    ensures v < 16 && (c == Octets.HEX_LOWER[v] || c == Octets.HEX_UPPER[v]) ==> HexNibble(c) == v
    ensures c !in Octets.HEX_LOWER && c !in Octets.HEX_UPPER ==> HexNibble(c) == 0
  {
    if v < 16 { Octets.HexTable(v); }
    if HexNibble(c) != 0 {
      Octets.HexTable(HexNibble(c));
      assert c == Octets.HEX_LOWER[HexNibble(c)] || c == Octets.HEX_UPPER[HexNibble(c)];
    }
  }

  /** The bit of a binary digit: the parity of the character, digit or not. */
  function BinaryValue(c: char): Bit {
    (c as int - '0' as int) % 2
  }

  function HexBits(s: string): (c: seq<Bit>)
    ensures |c| == 4 * |s|
  {
    seq(4 * |s|, p requires 0 <= p < 4 * |s| => LowBits(HexNibble(s[p / 4]), 4)[p % 4])
  }

  function BinaryBits(s: string): (c: seq<Bit>)
    ensures |c| == |s|
  {
    seq(|s|, p requires 0 <= p < |s| => BinaryValue(s[p]))
  }

  /** The bytes of a character in UTF-8. */
  function RuneBytes(c: char): nat {
    if c as int < 0x80 then 1 else if c as int < 0x800 then 2 else if c as int < 0x1_0000 then 3 else 4
  }

  function ByteLength(s: string): (n: nat)
    ensures n >= |s|
  {
    if s == [] then 0 else RuneBytes(s[0]) + ByteLength(s[1..])
  }

  /** The bits that digits of k bits each stand for, with room for as many digits as there are bytes. */
  function SizedBits(s: string, k: nat): (c: seq<Bit>)
    requires DigitWidth(k)
    ensures |c| == k * ByteLength(s)
  {
    SizedLength(s, k);
    DigitBits(s, k) + ZeroBits(k * (ByteLength(s) - |s|))
  }

  lemma SizedLength(s: string, k: nat)
    requires DigitWidth(k)
    ensures k * |s| + k * (ByteLength(s) - |s|) == k * ByteLength(s)
    ensures 0 <= k * (ByteLength(s) - |s|)
  {
    if k == 1 {
      assert 1 * |s| + 1 * (ByteLength(s) - |s|) == 1 * ByteLength(s);
    } else {
      assert 4 * |s| + 4 * (ByteLength(s) - |s|) == 4 * ByteLength(s);
    }
  }

  function ParsedBits(s: string): (c: seq<Bit>) {
    if s != [] && (s[0] == 'x' || s[0] == 'X') then SizedBits(s[1..], 4) else SizedBits(s, 1)
  }

  lemma {:induction false} AsciiBytes(s: string)
    ensures ByteLength(s) == |s| <==> Octets.IsAscii(s)
    decreases |s|
  {
    if s != [] {
      AsciiBytes(s[1..]);
      assert Octets.IsAscii(s) <==> s[0] as int < 0x80 && Octets.IsAscii(s[1..]) by {
        if Octets.IsAscii(s[1..]) && s[0] as int < 0x80 {
          forall i | 0 <= i < |s| ensures s[i] as int < 0x80 { assert i > 0 ==> s[i] == s[1..][i - 1]; }
        }
      }
    }
  }

  /** Digits are all there is if and only if every character is one byte; any other one adds zeros at the end. */
  lemma SizedIffAscii(s: string, k: nat)
    requires DigitWidth(k)
    ensures SizedBits(s, k) == DigitBits(s, k) <==> Octets.IsAscii(s)
  {
    AsciiBytes(s);
    SizedLength(s, k);
    if Octets.IsAscii(s) {
      assert DigitBits(s, k) + ZeroBits(0) == DigitBits(s, k);
    } else {
      assert |SizedBits(s, k)| != |DigitBits(s, k)|;
    }
  }

  /** The first n bits of w are those of c from position base on; the others are zero. */
  ghost predicate Holds(w: Word, c: seq<Bit>, base: nat, n: nat) {
    forall i :: 0 <= i < 64 ==> Bits(w)[i] == if i < n then Padded(c, base + i) else 0
  }

  lemma EmptyHolds(c: seq<Bit>, base: nat)
    ensures Holds(0, c, base, 0)
  {
    ZeroWordBits();
  }

  /** Or-ing k more bits into a word that holds n. */
  lemma PutBits(w: Word, v: nat, k: nat, c: seq<Bit>, base: nat, n: nat)
    requires n + k <= 64 && v < Pow(2, k) && Holds(w, c, base, n)
    requires forall i :: 0 <= i < k ==> Padded(c, base + n + i) == LowBits(v, k)[i]
    ensures v < TWO64 && Holds(Or(w, Shl(v, 64 - n - k)), c, base, n + k)
  {
    ShortBits(v, k, 0);
    var joined := Bits(Or(w, Shl(v, 64 - n - k)));
    forall i | 0 <= i < 64 ensures joined[i] == if i < n + k then Padded(c, base + i) else 0 {
      ShiftedInBit(v, k, n, i);
      LogicBits(w, Shl(v, 64 - n - k), i);
      if n <= i < n + k { assert Padded(c, base + n + (i - n)) == LowBits(v, k)[i - n]; }
    }
  }

  lemma ShiftedInBit(v: Word, k: nat, n: nat, i: nat)
    requires n + k <= 64 && v < Pow(2, k) && i < 64
    ensures Bits(Shl(v, 64 - n - k))[i] == if n <= i < n + k then LowBits(v, k)[i - n] else 0
  {
    ShlBit(v, 64 - n - k, i);
    if i < n + k { ShortBits(v, k, i + (64 - n - k)); }
  }

  /** A row of words that hold their share of c represents it. */
  lemma RowHolds(words: seq<Word>, c: seq<Bit>)
    requires forall j :: 0 <= j < |words| ==> Holds(words[j], c, 64 * j, 64)
    ensures Represents(words, c)
  {
    forall p | 0 <= p < 64 * |words| ensures BitAt(words, p) == Padded(c, p) {
      assert Holds(words[p / 64], c, 64 * (p / 64), 64);
    }
  }

  /** Zeros hold what lies behind c. */
  lemma ZeroHolds(c: seq<Bit>, base: nat)
    requires |c| <= base
    ensures Holds(0, c, base, 64)
  {
    ZeroWordBits();
  }

  /** Zeros behind c change nothing. */
  lemma RepresentsPadded(words: seq<Word>, c: seq<Bit>, n: nat)
    requires Represents(words, c)
    ensures Represents(words, c + ZeroBits(n))
  {
    forall p | 0 <= p < 64 * |words| ensures BitAt(words, p) == Padded(c + ZeroBits(n), p) {
      assert Padded(c + ZeroBits(n), p) == Padded(c, p);
    }
  }

  lemma PartHolds(w: Word, c: seq<Bit>, base: nat, n: nat)
    requires Holds(w, c, base, n) && |c| <= base + n
    ensures Holds(w, c, base, 64)
  {}

  /** Binary digits have one bit, hexadecimal digits four. */
  predicate DigitWidth(k: nat) {
    k == 1 || k == 4
  }

  /** The bits a string of digits of k bits each stands for. */
  function DigitBits(s: string, k: nat): (c: seq<Bit>)
    requires DigitWidth(k)
    ensures |c| == k * |s|
  {
    if k == 4 then HexBits(s) else BinaryBits(s)
  }

  function CharValue(ch: char, k: nat): (v: nat)
    requires DigitWidth(k)
    ensures v < Pow(2, k)
  {
    assert Pow(2, 1) == 2 && Pow(2, 4) == 16;
    if k == 4 then HexNibble(ch) else BinaryValue(ch)
  }

  /** Character i supplies the k bits from position k * i on. */
  lemma DigitFits(s: string, k: nat, i: nat, pos: nat)
    requires DigitWidth(k) && i < |s| && pos == k * i
    ensures pos + k <= |DigitBits(s, k)|
    ensures forall j :: 0 <= j < k ==> Padded(DigitBits(s, k), pos + j) == LowBits(CharValue(s[i], k), k)[j]
  {
    if k == 1 {
      var b := BinaryValue(s[i]);
      assert LowBits(b, 1) == LowBits(b / 2, 0) + [b % 2];
    } else {
      forall j | 0 <= j < 4 ensures Padded(DigitBits(s, k), pos + j) == LowBits(CharValue(s[i], k), k)[j] {
        HexFits(s, i, j);
      }
    }
  }

  lemma HexFits(s: string, i: nat, j: nat)
    requires i < |s| && j < 4
    ensures HexBits(s)[4 * i + j] == LowBits(HexNibble(s[i]), 4)[j]
  {
    assert (4 * i + j) / 4 == i && (4 * i + j) % 4 == j;
  }

  lemma NextIndex(bitIdx: nat, k: nat)
    requires DigitWidth(k) && bitIdx % k == 0 && bitIdx + k <= 64
    ensures var n := (bitIdx + k) % 64;
            n % k == 0 && n + k <= 64 && if bitIdx + k == 64 then n == 0 else n == bitIdx + k
  {}

  /**
   The loop both parsers share: k bits per character go into the current word, which is stored when
   it is full and once more at the end.
   */
  method ParseDigits(s: string, k: nat) returns (d: BitArray)
    requires DigitWidth(k)
    ensures d.Valid() && d.Contents() == SizedBits(s, k)
  {
    if |s| == 0 { return EMPTY; }
    SizedLength(s, k);
    var (numWords, last) := SizesForBitLen(k * ByteLength(s));
    var words := new Word[numWords](i => 0);
    PackDigits(s, k, words);
    RowHolds(words[..], DigitBits(s, k));
    RepresentsPadded(words[..], DigitBits(s, k), k * (ByteLength(s) - |s|));
    Built(words[..], [], last, SizedBits(s, k));
    d := BitArray(words[..], [], last);
  }

  /** The first words hold their share of c. */
  ghost predicate Packed(words: seq<Word>, c: seq<Bit>, n: nat)
    requires n <= |words|
  {
    forall j :: 0 <= j < n ==> Holds(words[j], c, 64 * j, 64)
  }

  method PackDigits(s: string, k: nat, words: array<Word>)
    requires DigitWidth(k) && |s| > 0
    requires k * |s| <= 64 * words.Length && forall j :: 0 <= j < words.Length ==> words[j] == 0
    modifies words
    ensures Packed(words[..], DigitBits(s, k), words.Length)
  {
    ghost var c := DigitBits(s, k);
    var wordIdx, bitIdx, curWord := 0, 0, 0;
    ghost var pos := 0;
    EmptyHolds(c, 0);
    for i := 0 to |s|
      invariant pos == k * i && pos == 64 * wordIdx + bitIdx && 0 <= wordIdx <= words.Length
      invariant 0 <= bitIdx && bitIdx + k <= 64 && bitIdx % k == 0
      invariant Holds(curWord, c, 64 * wordIdx, bitIdx)
      invariant Packed(words[..], c, wordIdx)
      invariant forall j :: wordIdx <= j < words.Length ==> words[j] == 0
    {
      curWord := PutDigit(s, k, i, curWord, wordIdx, bitIdx);
      NextIndex(bitIdx, k);
      pos := pos + k;
      bitIdx := (bitIdx + k) % 64;
      if bitIdx == 0 {
        words[wordIdx] := curWord;
        curWord := 0;
        wordIdx := wordIdx + 1;
        EmptyHolds(c, 64 * wordIdx);
      }
    }
    if bitIdx > 0 {
      words[wordIdx] := curWord;
      PartHolds(curWord, c, 64 * wordIdx, bitIdx);
    }
    forall j | 0 <= j < words.Length ensures Holds(words[j], c, 64 * j, 64) {
      if words[j] == 0 && 64 * j >= |c| { ZeroHolds(c, 64 * j); }
    }
  }

  method PutDigit(s: string, k: nat, i: nat, w: Word, wordIdx: nat, bitIdx: nat) returns (r: Word)
    requires DigitWidth(k) && i < |s| && k * i == 64 * wordIdx + bitIdx && bitIdx + k <= 64
    requires Holds(w, DigitBits(s, k), 64 * wordIdx, bitIdx)
    ensures Holds(r, DigitBits(s, k), 64 * wordIdx, bitIdx + k)
  {
    var val := CharValue(s[i], k);
    DigitFits(s, k, i, 64 * wordIdx + bitIdx);
    PutBits(w, val, k, DigitBits(s, k), 64 * wordIdx, bitIdx);
    r := Or(w, Shl(val, 64 - bitIdx - k));
  }

  method Parse(s: string) returns (d: BitArray)
    ensures d.Valid() && d.Contents() == ParsedBits(s)
  {
    if |s| == 0 { return EMPTY; }
    if s[0] == 'x' || s[0] == 'X' {
      d := ParseDigits(s[1..], 4);
    } else {
      d := ParseDigits(s, 1);
    }
  }

  /** Parsing what Format prints gives the contents back. */
  lemma ParseFormat(c: seq<Bit>)
    ensures ParsedBits(Text(c)) == c
  {
    DigitsOfText(c);
    SizedIffAscii(Text(c), 1);
  }

  lemma DigitsOfText(c: seq<Bit>)
    ensures DigitBits(Text(c), 1) == c && Octets.IsAscii(Text(c))
  {
    forall i | 0 <= i < |c| ensures BinaryValue(Text(c)[i]) == c[i] {}
  }

  /** Parsing what was printed rebuilds the array, word for word. */
  method FormatThenParse(d: BitArray) returns (e: BitArray)
    requires d.Valid()
    ensures e.Valid() && e.words == d.words && e.lastBitsUsed == d.lastBitsUsed
  {
    var s := Format(d);
    e := Parse(s);
    ParseFormat(d.Contents());
    ContentsDetermineWords(d, e);
  }

  /** Printing what was parsed from zeros and ones gives the string back. */
  lemma FormatParse(s: string)
    requires forall i :: 0 <= i < |s| ==> s[i] == '0' || s[i] == '1'
    ensures Text(ParsedBits(s)) == s
  {
    SizedIffAscii(s, 1);
  }

  /** A hexadecimal literal is the binary literal of its nibbles, whatever else is among its bytes. */
  lemma HexIsBinary(h: string, x: char)
    requires x == 'x' || x == 'X'
    ensures ParsedBits([x] + h) == ParsedBits(Text(SizedBits(h, 4)))
  {
    ParseFormat(SizedBits(h, 4));
    assert ([x] + h)[1..] == h;
  }

  /** The words of a valid array are determined by its contents, so contents are all there is to it. */
  lemma ContentsDetermineWords(d: BitArray, e: BitArray)
    requires d.Valid() && e.Valid() && d.Contents() == e.Contents()
    ensures d.words == e.words && d.lastBitsUsed == e.lastBitsUsed
  {
    assert |d.words| == |e.words|;
    forall j | 0 <= j < |d.words| ensures d.words[j] == e.words[j] {
      forall i | 0 <= i < 64 ensures Bits(d.words[j])[i] == Bits(e.words[j])[i] {
        BitAtWord(d.words, j, i);
        BitAtWord(e.words, j, i);
        PaddedContents(d, 64 * j + i);
        PaddedContents(e, 64 * j + i);
      }
      SameBits(d.words[j], e.words[j]);
    }
  }
}
