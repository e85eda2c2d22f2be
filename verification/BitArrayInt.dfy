/** Conversion between bit arrays and two's complement integers. */
module BitArrayInt {
  import opened Digits
  import opened Words
  import opened BitArrays
  import opened BitArrayOps
  import opened Machine
  import opened Slices

  /** An int64 shifted left: the bits that leave are lost. */
  function ShlInt(x: Int64, n: nat): Int64 {
    ToInt64(Shl(ToWord(x), n))
  }

  /** An int64 shifted right arithmetically: each step halves and rounds down. */
  function SarInt(x: Int64, n: nat): Int64 {
    if n == 0 then x else SarInt(x, n - 1) / 2
  }

  /** The number bits denote in two's complement. */
  function SignedValue(c: seq<Bit>): int {
    Value(c) - (if c != [] && c[0] == 1 then Pow(2, |c|) else 0)
  }

  /** Bits widened to n places by repeating the first one, or cut to their last n. */
  function SignExtended(c: seq<Bit>, n: nat): (e: seq<Bit>)
    ensures |e| == n
  {
    if |c| >= n then c[|c| - n..] else Repeat(if c == [] then 0 else c[0], n - |c|) + c
  }

  /** The last n bits of a bit string, with zeros in front when it is shorter. */
  function LastBits(c: seq<Bit>, n: nat): (e: seq<Bit>)
    ensures |e| == n
  {
    if |c| >= n then c[|c| - n..] else ZeroBits(n - |c|) + c
  }

  lemma ToWordBits(x: Int64)
    ensures ToInt64(ToWord(x)) == x
    ensures Bits(ToWord(x))[0] == if x < 0 then 1 else 0
  {
    TopBit(ToWord(x));
  }

  lemma TopBit(w: Word)
    ensures Bits(w)[0] == if w >= 0x8000_0000_0000_0000 then 1 else 0
  {
    BitsValue(w);
    var t := Bits(w)[1..];
    assert Bits(w) == [Bits(w)[0]] + t;
    FromDigitsConcat([Bits(w)[0]], t, 2);
    FromDigitsSnoc([], Bits(w)[0], 2);
    assert [] + [Bits(w)[0]] == [Bits(w)[0]];
    ValueBound(t);
    assert Pow(2, 63) == 0x8000_0000_0000_0000 by { TwoTo64(); }
  }

  /** An arithmetic shift by one keeps the sign bit and moves the others right. */
  lemma SarOneBit(x: Int64, i: nat)
    requires i < 64
    ensures Bits(ToWord(x / 2))[i] == if i == 0 then Bits(ToWord(x))[0] else Bits(ToWord(x))[i - 1]
  {
    var w := ToWord(x);
    ShrBit(w, 1, i);
    assert Shr(w, 1) == w / 2;
    ToWordBits(x);
    ToWordBits(x / 2);
    if x < 0 {
      assert ToWord(x / 2) == w / 2 + 0x8000_0000_0000_0000;
      AddTopBit(w / 2, i);
    } else {
      assert ToWord(x / 2) == w / 2;
    }
  }

  lemma AddTopBit(w: Word, i: nat)
    requires w < 0x8000_0000_0000_0000 && i < 64
    ensures Bits(w + 0x8000_0000_0000_0000)[i] == if i == 0 then 1 else Bits(w)[i]
  {
    TopBit(w + 0x8000_0000_0000_0000);
    assert Pow(2, 63) == 0x8000_0000_0000_0000 by { TwoTo64(); }
    if i > 0 { LowBitsIgnoreTop(w, 64, i); }
  }

  /** Adding the highest power of two changes only the first bit. */
  lemma {:induction false} LowBitsIgnoreTop(v: nat, k: nat, i: nat)
    requires 0 < i < k
    ensures LowBits(v + Pow(2, k - 1), k)[i] == LowBits(v, k)[i]
    decreases k
  {
    var p := Pow(2, k - 2);
    assert Pow(2, k - 1) == 2 * p;
    assert (v + 2 * p) / 2 == v / 2 + p && (v + 2 * p) % 2 == v % 2;
    if i < k - 1 { LowBitsIgnoreTop(v / 2, k - 1, i); }
  }

  lemma {:induction false} SarBit(x: Int64, n: nat, i: nat)
    requires n <= 64 && i < 64
    ensures Bits(ToWord(SarInt(x, n)))[i] == if i < n then Bits(ToWord(x))[0] else Bits(ToWord(x))[i - n]
    decreases n
  {
    if n > 0 {
      SarOneBit(SarInt(x, n - 1), i);
      SarBit(x, n - 1, if i == 0 then 0 else i - 1);
    }
  }

  /** The bits MakeBitArrayFromInt64 is asked to write. */
  function LowBitsOf(val: Int64, width: nat): (c: seq<Bit>)
    requires width <= 64
    ensures |c| == width
  {
    Bits(ToWord(val))[64 - width..]
  }

  lemma ShlIntWord(x: Int64, n: nat)
    ensures ToWord(ShlInt(x, n)) == Shl(ToWord(x), n)
  {}

  /** Shifting up and arithmetically down again extends the sign of the low bits. */
  lemma ExtendedBits(val: Int64, w: nat, i: nat)
    requires w <= 64 && i < 64
    ensures Bits(ToWord(SarInt(ShlInt(val, 64 - w), 64 - w)))[i] == SignExtended(LowBitsOf(val, w), 64)[i]
  {
    var x := ShlInt(val, 64 - w);
    ShlIntWord(val, 64 - w);
    SarBit(x, 64 - w, i);
    ShlBit(ToWord(val), 64 - w, 0);
    if i >= 64 - w { ShlBit(ToWord(val), 64 - w, i - (64 - w)); }
  }

  /** What the words of the result hold, in terms of the sign-extended value. */
  ghost predicate Extends(words: seq<Word>, last: nat, v: Int64, w: nat)
    requires words != [] && 1 <= last <= 64
  {
    var n := |words|;
    && words[n - 1] == Shl(ToWord(v), 64 - last)
    && (w > last ==> n > 1 && words[n - 2] == ToWord(SarInt(v, last)))
    && forall j :: 0 <= j < n - 1 && (w > last ==> j < n - 2) ==> words[j] == if v < 0 then ONES else 0
  }

  lemma ExtendsBit(words: seq<Word>, last: nat, v: Int64, w: nat, bitLen: nat, j: nat, i: nat)
    requires words != [] && 1 <= last <= 64 && w <= bitLen == 64 * (|words| - 1) + last
    requires w <= 64 && Extends(words, last, v, w) && j < |words| && i < 64
    requires forall k :: 0 <= k < 64 - w ==> Bits(ToWord(v))[k] == Bits(ToWord(v))[0]
    ensures var q := 64 * j + i + 64 - bitLen;
            Bits(words[j])[i] == if q >= 64 then 0 else if q >= 0 then Bits(ToWord(v))[q] else Bits(ToWord(v))[0]
  {
    ToWordBits(v);
    if j == |words| - 1 {
      ShlBit(ToWord(v), 64 - last, i);
    } else if w > last && j == |words| - 2 {
      SarBit(v, last, i);
    } else {
      ZeroWordBits();
      OnesBit(i);
    }
  }

  /** A longer extension of at most 64 bits repeats the first bit of the one to 64 bits. */
  lemma ExtendedBit(c: seq<Bit>, bitLen: nat, p: nat)
    requires |c| <= bitLen && |c| <= 64
    ensures var q := p + 64 - bitLen;
            Padded(SignExtended(c, bitLen), p) ==
            if q >= 64 then 0 else if q >= 0 then SignExtended(c, 64)[q] else SignExtended(c, 64)[0]
  {}

  lemma ExtendsContents(words: seq<Word>, last: nat, v: Int64, c: seq<Bit>, bitLen: nat)
    requires words != [] && 1 <= last <= 64 && |c| <= bitLen == 64 * (|words| - 1) + last
    requires |c| <= 64 && Extends(words, last, v, |c|) && Bits(ToWord(v)) == SignExtended(c, 64)
    ensures Represents(words, SignExtended(c, bitLen))
  {
    forall p | 0 <= p < 64 * |words| ensures BitAt(words, p) == Padded(SignExtended(c, bitLen), p) {
      assert p == 64 * (p / 64) + p % 64;
      ExtendsBit(words, last, v, |c|, bitLen, p / 64, p % 64);
      ExtendedBit(c, bitLen, p);
    }
  }

  /** x - y of two uints, which wraps around below zero. */
  function Minus(x: Word, y: Word): (r: Word)
    ensures x < y ==> r > x
  {
    if y <= x then x - y else TWO64 + x - y
  }

  /** The number of places that numBitsPerWord - n shifts by. */
  function ShiftCount(n: Word): (r: Word)
    ensures n > 64 ==> r > 64
  {
    Minus(64, n)
  }

  /** Counts that reach the width of a word leave nothing behind a left shift. */
  lemma {:induction false} ShlNothing(w: Word, n: nat)
    requires n >= 64
    ensures Shl(w, n) == 0
  {
    if n == 64 {
      ShlBits(w, 64);
      assert Bits(Shl(w, 64)) == ZeroBits(64);
      ZeroWordBits();
      SameBits(Shl(w, 64), 0);
    } else {
      ShlNothing(w, n - 1);
    }
  }

  lemma {:induction false} SarOfZero(n: nat)
    ensures SarInt(0, n) == 0
  {
    if n > 0 { SarOfZero(n - 1); }
  }

  /** A width above 64 shifts everything out. */
  lemma WideShift(w: Word, val: Int64, width: Word)
    requires width > 64
    ensures ShiftCount(width) >= 64 && Shl(w, ShiftCount(width)) == 0 && ShlInt(val, ShiftCount(width)) == 0
  {
    ShlNothing(w, ShiftCount(width));
    ShlNothing(ToWord(val), ShiftCount(width));
  }

  /** What the constructor makes: above 64 bits of value only an array that is narrower gets any of them. */
  function MadeBits(bitLen: Word, val: Int64, valWidth: Word): (c: seq<Bit>)
    ensures |c| == bitLen
  {
    if valWidth <= 64 then SignExtended(LowBitsOf(val, valWidth), bitLen)
    else if bitLen <= 64 then LowBitsOf(val, bitLen)
    else ZeroBits(bitLen)
  }

  /** The integer on the right of a bit array of the given size, with the sign bit extended. */
  method MakeBitArrayFromInt64(bitLen: Word, val: Int64, valWidth: Word) returns (d: BitArray)
    ensures d.Valid() && d.Contents() == MadeBits(bitLen, val, valWidth)
  {
    if bitLen == 0 { return EMPTY; }
    var (n, last) := SizesForBitLen(bitLen);
    var words := new Word[n](i => 0);
    if bitLen < valWidth {
      words[n - 1] := ToWord(ShlInt(val, ShiftCount(bitLen)));
      CutContents(words[..], bitLen, val, valWidth);
    } else {
      WriteExtended(words, last, bitLen, val, valWidth);
    }
    Built(words[..], [], last, MadeBits(bitLen, val, valWidth));
    return BitArray(words[..], [], last);
  }

  lemma ZeroContents(words: seq<Word>, bitLen: nat)
    requires forall j :: 0 <= j < |words| ==> words[j] == 0
    ensures Represents(words, ZeroBits(bitLen))
  {
    forall p | 0 <= p < 64 * |words| ensures BitAt(words, p) == 0 { ZeroBitAt(words, p); }
  }

  lemma CutContents(words: seq<Word>, bitLen: Word, val: Int64, w: Word)
    requires 0 < bitLen < w && |words| == SizesForBitLen(bitLen).0
    requires words[|words| - 1] == ToWord(ShlInt(val, ShiftCount(bitLen)))
    requires forall j :: 0 <= j < |words| - 1 ==> words[j] == 0
    ensures Represents(words, MadeBits(bitLen, val, w))
  {
    if bitLen > 64 {
      WideShift(0, val, bitLen);
      ZeroContents(words, bitLen);
    } else {
      ShlIntWord(val, 64 - bitLen);
      NarrowContents(words, bitLen, val);
      if w <= 64 { LastOfLow(val, w, bitLen); }
    }
  }

  lemma LastOfLow(val: Int64, w: nat, bitLen: nat)
    requires bitLen < w <= 64
    ensures SignExtended(LowBitsOf(val, w), bitLen) == LowBitsOf(val, bitLen)
  {
    assert Bits(ToWord(val))[64 - w..][w - bitLen..] == Bits(ToWord(val))[64 - bitLen..];
  }

  lemma NothingSelected(w: Word)
    ensures And(w, 0) == 0
  {
    ZeroWordBits();
    forall i | 0 <= i < 64 ensures Bits(And(w, 0))[i] == Bits(0)[i] { LogicBits(w, 0, i); }
    SameBits(And(w, 0), 0);
  }

  /** The value as it is after shifting its sign bit to the left end of the word and back. */
  function Extended(val: Int64, valWidth: Word): Int64 {
    SarInt(ShlInt(val, ShiftCount(valWidth)), ShiftCount(valWidth))
  }

  method WriteExtended(words: array<Word>, last: nat, bitLen: Word, val: Int64, valWidth: Word)
    requires words.Length > 0 && 1 <= last <= 64 && bitLen == 64 * (words.Length - 1) + last
    requires valWidth <= bitLen && forall j :: 0 <= j < words.Length ==> words[j] == 0
    modifies words
    ensures Represents(words[..], MadeBits(bitLen, val, valWidth))
  {
    var signBit := Shl(1, Minus(valWidth, 1));
    SignTest(val, valWidth, signBit);
    if And(ToWord(val), signBit) != 0 { FillOnes(words); }
    var extended := Extended(val, valWidth);
    WriteEnds(words, last, extended, valWidth);
    ExtendedContents(words[..], last, val, valWidth, bitLen);
  }

  /** Ones in every word but the last. */
  method FillOnes(words: array<Word>)
    requires words.Length > 0
    modifies words
    ensures forall j :: 0 <= j < words.Length - 1 ==> words[j] == ONES
  {
    for i := 0 to words.Length - 1
      invariant forall j :: 0 <= j < i ==> words[j] == ONES
    {
      words[i] := ONES;
    }
  }

  /** The right part of the value goes into the last word and its left part, if any, into the one before. */
  method WriteEnds(words: array<Word>, last: nat, extended: Int64, valWidth: Word)
    requires words.Length > 0 && 1 <= last <= 64 && (valWidth > last ==> words.Length > 1)
    requires forall j :: 0 <= j < words.Length - 1 ==> words[j] == if extended < 0 then ONES else 0
    modifies words
    ensures Extends(words[..], last, extended, valWidth)
  {
    var n := words.Length;
    words[n - 1] := ToWord(ShlInt(extended, 64 - last));
    ShlIntWord(extended, 64 - last);
    if valWidth > last {
      words[n - 2] := ToWord(SarInt(extended, last));
    }
  }

  lemma ExtendedContents(words: seq<Word>, last: nat, val: Int64, valWidth: Word, bitLen: Word)
    requires words != [] && 1 <= last <= 64 && valWidth <= bitLen == 64 * (|words| - 1) + last
    requires Extends(words, last, Extended(val, valWidth), valWidth)
    ensures Represents(words, MadeBits(bitLen, val, valWidth))
  {
    if valWidth <= 64 {
      AllExtended(val, valWidth);
      ExtendsContents(words, last, Extended(val, valWidth), LowBitsOf(val, valWidth), bitLen);
    } else {
      NothingExtends(val, valWidth);
      ExtendsZero(words, last, valWidth);
      ZeroContents(words, bitLen);
    }
  }

  lemma NothingExtends(val: Int64, valWidth: Word)
    requires valWidth > 64
    ensures Extended(val, valWidth) == 0
  {
    WideShift(0, val, valWidth);
    SarOfZero(ShiftCount(valWidth));
  }

  lemma ExtendsZero(words: seq<Word>, last: nat, w: nat)
    requires words != [] && 1 <= last <= 64 && Extends(words, last, 0, w)
    ensures forall j :: 0 <= j < |words| ==> words[j] == 0
  {
    SarOfZero(last);
    ShrZero(64 - last);
  }

  lemma AllExtended(val: Int64, w: nat)
    requires w <= 64
    ensures Bits(ToWord(SarInt(ShlInt(val, 64 - w), 64 - w))) == SignExtended(LowBitsOf(val, w), 64)
  {
    var a, b := Bits(ToWord(SarInt(ShlInt(val, 64 - w), 64 - w))), SignExtended(LowBitsOf(val, w), 64);
    forall i | 0 <= i < 64 ensures a[i] == b[i] { ExtendedBits(val, w, i); }
  }

  /** The mask picks the sign bit of the low bits, which is the sign of the extended value. */
  lemma SignTest(val: Int64, w: Word, signBit: Word)
    requires signBit == Shl(1, Minus(w, 1))
    ensures And(ToWord(val), signBit) != 0 <==> Extended(val, w) < 0
  {
    if 0 < w <= 64 {
      NarrowSignTest(val, w, signBit);
    } else {
      ShlNothing(1, Minus(w, 1));
      NothingSelected(ToWord(val));
      if w == 0 { NoneExtends(val); } else { NothingExtends(val, w); }
    }
  }

  lemma NoneExtends(val: Int64)
    ensures Extended(val, 0) == 0
  {
    ShlNothing(ToWord(val), 64);
    SarOfZero(64);
  }

  lemma NarrowSignTest(val: Int64, w: nat, signBit: Word)
    requires 0 < w <= 64 && signBit == Shl(1, w - 1)
    ensures And(ToWord(val), signBit) != 0 <==> Extended(val, w) < 0
  {
    assert Extended(val, w) < 0 <==> Bits(ToWord(val))[64 - w] == 1 by { SignOfExtended(val, w); }
    OneSelected(ToWord(val), signBit, 64 - w) by {
      forall i | 0 <= i < 64 ensures Bits(signBit)[i] == if i == 64 - w then 1 else 0 { OneShifted(w - 1, i); }
    }
  }

  lemma SignOfExtended(val: Int64, w: nat)
    requires 0 < w <= 64
    ensures Extended(val, w) < 0 <==> Bits(ToWord(val))[64 - w] == 1
  {
    ToWordBits(Extended(val, w));
    ExtendedBits(val, w, 0);
  }

  /** A mask with one bit selects that bit. */
  lemma OneSelected(v: Word, mask: Word, k: nat)
    requires k < 64 && forall i :: 0 <= i < 64 ==> Bits(mask)[i] == if i == k then 1 else 0
    ensures And(v, mask) != 0 <==> Bits(v)[k] == 1
  {
    var m := And(v, mask);
    forall i | 0 <= i < 64 ensures Bits(m)[i] == if i == k then Bits(v)[i] else 0 { LogicBits(v, mask, i); }
    ZeroWord(m);
    assert Bits(m)[k] == Bits(v)[k];
  }

  lemma NarrowContents(words: seq<Word>, bitLen: nat, val: Int64)
    requires 0 < bitLen <= 64 && |words| == 1 && words[0] == Shl(ToWord(val), 64 - bitLen)
    ensures Represents(words, LowBitsOf(val, bitLen))
  {
    var c := LowBitsOf(val, bitLen);
    forall p | 0 <= p < 64 ensures Bits(words[0])[p] == Padded(c, p) {
      ShlBit(ToWord(val), 64 - bitLen, p);
    }
    forall p | 0 <= p < 64 * |words| ensures BitAt(words, p) == Padded(c, p) {
      BitAtWord(words, 0, p);
    }
  }

  /** The integer of the rightmost bits: at most two words are combined and the sign extended. */
  method AsInt64(d: BitArray, nbits: Word) returns (r: Int64)
    requires d.Valid()
    ensures r == if nbits <= 64 then SignedValue(LastBits(d.Contents(), nbits)) else 0
  {
    if d.lastBitsUsed == 0 {
      if nbits <= 64 { NoBits(nbits); }
      return 0;
    }
    var n := |d.words|;
    var lowPart := Shr(d.words[n - 1], 64 - d.lastBitsUsed);
    var highPart: Word := 0;
    if nbits > d.lastBitsUsed && n > 1 {
      highPart := Shl(d.words[n - 2], d.lastBitsUsed);
    }
    var combined := Or(lowPart, highPart);
    r := SarInt(ToInt64(Shl(combined, ShiftCount(nbits))), ShiftCount(nbits));
    CombinedValue(d, nbits, lowPart, highPart);
  }

  lemma CombinedValue(d: BitArray, nbits: Word, low: Word, high: Word)
    requires d.Valid() && d.lastBitsUsed > 0
    requires low == Shr(d.words[|d.words| - 1], 64 - d.lastBitsUsed) && HighPart(d, nbits, high)
    ensures SarInt(ToInt64(Shl(Or(low, high), ShiftCount(nbits))), ShiftCount(nbits))
            == if nbits <= 64 then SignedValue(LastBits(d.Contents(), nbits)) else 0
  {
    var combined := Or(low, high);
    if nbits <= 64 {
      assert Bits(combined)[64 - nbits..] == LastBits(d.Contents(), nbits) by { CombinedTail(d, nbits, low, high); }
      SignedTail(combined, nbits);
    } else {
      assert Shl(combined, ShiftCount(nbits)) == 0 by { WideShift(combined, 0, nbits); }
      SarOfZero(ShiftCount(nbits));
    }
  }

  lemma NoBits(n: nat)
    ensures SignedValue(LastBits([], n)) == 0
  {
    ZeroBitsValue(n);
    assert LastBits([], n) == ZeroBits(n);
  }

  /** The high part matters only where the low part has no bits. */
  ghost predicate HighPart(d: BitArray, nbits: nat, high: Word)
    requires d.words != [] && d.lastBitsUsed <= 64
  {
    var n := |d.words|;
    high == if nbits > d.lastBitsUsed && n > 1 then Shl(d.words[n - 2], d.lastBitsUsed) else 0
  }

  lemma CombinedTail(d: BitArray, nbits: nat, low: Word, high: Word)
    requires d.Valid() && nbits <= 64 && d.lastBitsUsed > 0
    requires low == Shr(d.words[|d.words| - 1], 64 - d.lastBitsUsed) && HighPart(d, nbits, high)
    ensures Bits(Or(low, high))[64 - nbits..] == LastBits(d.Contents(), nbits)
  {
    var c, combined := d.Contents(), Or(low, high);
    forall t | 0 <= t < nbits ensures Bits(combined)[64 - nbits + t] == LastBits(c, nbits)[t] {
      CombinedBit(d, nbits, low, high, 64 - nbits + t, |c| - nbits + t);
      LastBit(c, nbits, t);
    }
  }

  lemma LastBit(c: seq<Bit>, n: nat, t: nat)
    requires t < n
    ensures LastBits(c, n)[t] == if |c| - n + t >= 0 then c[|c| - n + t] else 0
  {}

  lemma CombinedBit(d: BitArray, nbits: nat, low: Word, high: Word, i: nat, p: int)
    requires d.Valid() && nbits <= 64 && d.lastBitsUsed > 0 && 64 - nbits <= i < 64 && p == d.BitLen() - 64 + i
    requires low == Shr(d.words[|d.words| - 1], 64 - d.lastBitsUsed) && HighPart(d, nbits, high)
    ensures Bits(Or(low, high))[i] == if p >= 0 then d.Contents()[p] else 0
  {
    LogicBits(low, high, i);
    LowPartBit(d, low, i, p);
    HighPartBit(d, nbits, high, i, p);
  }

  lemma LowPartBit(d: BitArray, low: Word, i: nat, p: int)
    requires d.Valid() && d.lastBitsUsed > 0 && i < 64 && p == d.BitLen() - 64 + i
    requires low == Shr(d.words[|d.words| - 1], 64 - d.lastBitsUsed)
    ensures Bits(low)[i] == if i >= 64 - d.lastBitsUsed then d.Contents()[p] else 0
  {
    var n, last := |d.words|, d.lastBitsUsed;
    ShrBit(d.words[n - 1], 64 - last, i);
    if i >= 64 - last { BitAtWord(d.words, n - 1, i - (64 - last)); }
  }

  lemma HighPartBit(d: BitArray, nbits: nat, high: Word, i: nat, p: int)
    requires d.Valid() && nbits <= 64 && d.lastBitsUsed > 0 && 64 - nbits <= i < 64 && p == d.BitLen() - 64 + i
    requires HighPart(d, nbits, high)
    ensures Bits(high)[i] == if i < 64 - d.lastBitsUsed && p >= 0 then d.Contents()[p] else 0
  {
    if nbits > d.lastBitsUsed && |d.words| > 1 {
      ShiftedWordBit(d, |d.words| - 2, d.lastBitsUsed, i, p);
    } else {
      ZeroWordBits();
    }
  }

  /** The last word but one, shifted to make room for the bits of the last. */
  lemma ShiftedWordBit(d: BitArray, j: nat, last: nat, i: nat, p: int)
    requires d.Valid() && last == d.lastBitsUsed > 0 && |d.words| == j + 2 && i < 64 && p == d.BitLen() - 64 + i
    ensures p >= 0 && Bits(Shl(d.words[j], last))[i] == if i < 64 - last then d.Contents()[p] else 0
  {
    ShlBit(d.words[j], last, i);
    if i < 64 - last { BitAtWord(d.words, j, i + last); }
  }

  /** The last bits of a word, shifted up and arithmetically down, are their signed value. */
  lemma SignedTail(w: Word, nbits: nat)
    requires nbits <= 64
    ensures SarInt(ToInt64(Shl(w, 64 - nbits)), 64 - nbits) == SignedValue(Bits(w)[64 - nbits..])
  {
    var x := ToInt64(w);
    assert ToWord(x) == w;
    var r := SarInt(ShlInt(x, 64 - nbits), 64 - nbits);
    var c := Bits(w)[64 - nbits..];
    AllExtended(x, nbits);
    SignedWord(r);
    if nbits == 0 {
      assert SignExtended(c, 64) == ZeroBits(64);
      ZeroBitsValue(64);
    } else {
      ExtensionKeepsValue(c, 64 - nbits);
    }
  }

  lemma SignedWord(x: Int64)
    ensures SignedValue(Bits(ToWord(x))) == x
  {
    ToWordBits(x);
    BitsValue(ToWord(x));
    TwoTo64();
  }

  /** Repeating the first bit in front does not change a two's complement number. */
  lemma {:induction false} ExtensionKeepsValue(c: seq<Bit>, n: nat)
    requires c != []
    ensures SignedValue(Repeat(c[0], n) + c) == SignedValue(c)
  {
    if n == 0 {
      assert Repeat(c[0], 0) + c == c;
    } else {
      ExtensionKeepsValue(c, n - 1);
      var e := Repeat(c[0], n - 1) + c;
      assert e[0] == c[0];
      assert Repeat(c[0], n) + c == [c[0]] + e;
      FromDigitsConcat([c[0]], e, 2);
      FromDigitsSnoc([], c[0], 2);
      assert [] + [c[0]] == [c[0]];
    }
  }

  /** The two's complement range of w bits. */
  ghost predicate Fits(val: int, w: nat)
    requires w > 0
  {
    0 - Pow(2, w - 1) <= val < Pow(2, w - 1)
  }

  /** An integer of at most w bits is the signed value of its low w bits. */
  lemma FittingInteger(val: Int64, w: nat)
    requires 0 < w <= 64 && Fits(val, w)
    ensures SignedValue(LowBitsOf(val, w)) == val
  {
    var v, c := ToWord(val), LowBitsOf(val, w);
    assert c == LowBits(v, w) by { LowBitsSuffix(v, 64, w); }
    LowBitsValue(v, w);
    FirstBitOfLow(v, w);
    FittingWord(val, w);
  }

  lemma FittingWord(val: Int64, w: nat)
    requires 0 < w <= 64 && Fits(val, w)
    ensures Pow(2, w) == 2 * Pow(2, w - 1)
    ensures ToWord(val) % Pow(2, w) == if val >= 0 then val else Pow(2, w) + val
  {
    var p, q := Pow(2, w), Pow(2, 64 - w);
    assert q * p == TWO64 by { TwoTo64(); PowAdd(2, 64 - w, w); }
    WrappedMod(val, p, q);
  }

  lemma WrappedMod(val: Int64, p: nat, q: nat)
    requires q * p == TWO64 && 0 - p <= 2 * val && 2 * val < p
    ensures ToWord(val) % p == if val >= 0 then val else p + val
  {
    if val >= 0 {
      QuotientOfSmall(val, p);
    } else {
      assert (q - 1) * p == TWO64 - p;
      assert ToWord(val) == TWO64 + val;
      DivModUnique(TWO64 + val, p, q - 1, p + val);
    }
  }

  lemma FirstBitOfLow(v: nat, w: nat)
    requires w > 0
    ensures LowBits(v, w)[0] == 1 <==> v % Pow(2, w) >= Pow(2, w - 1)
  {
    var c := LowBits(v, w);
    LowBitsValue(v, w);
    assert c == [c[0]] + c[1..];
    FromDigitsConcat([c[0]], c[1..], 2);
    FromDigitsSnoc([], c[0], 2);
    assert [] + [c[0]] == [c[0]];
    ValueBound(c[1..]);
  }

  /** What goes in as a w-bit integer comes out of the last w bits, whatever the size of the array. */
  lemma IntRoundTrip(bitLen: Word, val: Int64, w: nat)
    requires 0 < w <= 64 && w <= bitLen && Fits(val, w)
    ensures SignedValue(LastBits(MadeBits(bitLen, val, w), w)) == val
  {
    var c := LowBitsOf(val, w);
    assert LastBits(SignExtended(c, bitLen), w) == c;
    FittingInteger(val, w);
  }
}
