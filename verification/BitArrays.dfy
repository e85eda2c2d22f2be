/** Bit strings of any length packed into words, and the plain sequence of bits they stand for. */
module BitArrays {
  import opened Words
  import opened Machine

  const ONES: Word := TWO64 - 1

  /** The bit at position p of a word slice, counting from the top of the first word. */
  function BitAt(words: seq<Word>, p: nat): Bit
    requires p < 64 * |words|
  {
    Bits(words[p / 64])[p % 64]
  }

  lemma BitAtWord(words: seq<Word>, j: nat, i: nat)
    requires j < |words| && i < 64
    ensures BitAt(words, 64 * j + i) == Bits(words[j])[i]
  {}

  function ZeroWords(n: nat): (s: seq<Word>)
    ensures |s| == n && forall i :: 0 <= i < n ==> s[i] == 0
  {
    seq(n, _ => 0)
  }

  lemma ZeroBitAt(words: seq<Word>, p: nat)
    requires p < 64 * |words| && words[p / 64] == 0
    ensures BitAt(words, p) == 0
  {
    ZeroWordBits();
  }

  /**
   The words in use, the words of the backing array between its length and its capacity, and the
   number of bits of the last word that belong to the value.
   */
  datatype BitArray = BitArray(words: seq<Word>, spare: seq<Word>, lastBitsUsed: nat) {
    function BitLen(): nat {
      if words == [] then 0 else 64 * (|words| - 1) + lastBitsUsed
    }

    /**
     Unused bits are zero, in the last word and in the spare words: widening a bit array inside its
     capacity relies on both.
     */
    ghost predicate Valid() {
      && (words == [] ==> lastBitsUsed == 0)
      && (words != [] ==> 1 <= lastBitsUsed <= 64)
      && (forall p :: BitLen() <= p < 64 * |words| ==> BitAt(words, p) == 0)
      && (forall i :: 0 <= i < |spare| ==> spare[i] == 0)
    }

    ghost function Contents(): (c: seq<Bit>)
      requires Valid()
      ensures |c| == BitLen() <= 64 * |words|
      ensures forall p :: 0 <= p < BitLen() ==> c[p] == BitAt(words, p)
    {
      seq(BitLen(), p requires 0 <= p < BitLen() => BitAt(words, p))
    }
  }

  const EMPTY: BitArray := BitArray([], [], 0)

  /** The bit string c, padded with zeros, read at position p. */
  function Padded(c: seq<Bit>, p: nat): Bit {
    if p < |c| then c[p] else 0
  }

  /** Every bit of the words is the padded bit of c. */
  ghost predicate Represents(words: seq<Word>, c: seq<Bit>) {
    forall p :: 0 <= p < 64 * |words| ==> BitAt(words, p) == Padded(c, p)
  }

  /** An array whose every bit is the padded bit of c is valid and stands for c. */
  lemma Built(words: seq<Word>, spare: seq<Word>, lastBitsUsed: nat, c: seq<Bit>)
    requires words != [] && 1 <= lastBitsUsed <= 64 && forall i :: 0 <= i < |spare| ==> spare[i] == 0
    requires |c| == 64 * (|words| - 1) + lastBitsUsed
    requires Represents(words, c)
    ensures BitArray(words, spare, lastBitsUsed).Valid()
    ensures BitArray(words, spare, lastBitsUsed).Contents() == c
  {}

  lemma PaddedContents(d: BitArray, p: nat)
    requires d.Valid() && p < 64 * |d.words|
    ensures BitAt(d.words, p) == Padded(d.Contents(), p)
  {}

  /** SizesForBitLen: the number of words and the bits used in the last one. */
  function SizesForBitLen(bitLen: nat): (r: (nat, nat))
    ensures bitLen > 0 ==> r.0 > 0 && 1 <= r.1 <= 64 && bitLen == 64 * (r.0 - 1) + r.1
  {
    ((bitLen + 63) / 64, if bitLen % 64 == 0 then 64 else bitLen % 64)
  }

  lemma ZeroWordsContents(n: nat, last: nat)
    requires n > 0 && 1 <= last <= 64
    ensures BitArray(ZeroWords(n), [], last).Valid()
    ensures BitArray(ZeroWords(n), [], last).Contents() == ZeroBits(64 * (n - 1) + last)
  {
    forall p | 0 <= p < 64 * n ensures BitAt(ZeroWords(n), p) == 0 {
      ZeroBitAt(ZeroWords(n), p);
    }
    Built(ZeroWords(n), [], last, ZeroBits(64 * (n - 1) + last));
  }

  function MakeZeroBitArray(bitLen: nat): (d: BitArray)
    ensures d.Valid() && d.Contents() == ZeroBits(bitLen) && d.spare == []
    ensures bitLen > 0 ==> d.words == ZeroWords(SizesForBitLen(bitLen).0) && d.lastBitsUsed == SizesForBitLen(bitLen).1
  {
    if bitLen == 0 then EMPTY
    else
      var (n, last) := SizesForBitLen(bitLen);
      ZeroWordsContents(n, last);
      BitArray(ZeroWords(n), [], last)
  }

  /** The mask that keeps the leftmost bits of a word. */
  function KeepMask(keep: nat): Word
    requires keep <= 64
  {
    Shl(ONES, 64 - keep)
  }

  lemma MaskBit(w: Word, keep: nat, i: nat)
    requires keep <= 64 && i < 64
    ensures Bits(And(w, KeepMask(keep)))[i] == if i < keep then Bits(w)[i] else 0
  {
    LogicBits(w, KeepMask(keep), i);
    ShlBit(ONES, 64 - keep, i);
    if i < keep { OnesBit(i + (64 - keep)); }
  }

  /** Masking the last word clears the bits behind position 64 * (n - 1) + last. */
  lemma MaskedLast(words: seq<Word>, masked: seq<Word>, last: nat, p: nat)
    requires words != [] && last <= 64 && p < 64 * |words|
    requires masked == words[|words| - 1 := And(words[|words| - 1], KeepMask(last))]
    ensures BitAt(masked, p) == if p < 64 * (|words| - 1) + last then BitAt(words, p) else 0
  {
    if p / 64 == |words| - 1 { MaskBit(words[p / 64], last, p % 64); }
  }

  /** Two neighbouring words read as one: drop s bits of the first, take s bits of the second. */
  function Funnel(v: Word, w: Word, s: nat): Word
    requires s <= 64
  {
    Or(Shl(v, s), Shr(w, 64 - s))
  }

  lemma FunnelBit(v: Word, w: Word, s: nat, i: nat)
    requires s <= 64 && i < 64
    ensures Bits(Funnel(v, w, s))[i] == if i + s < 64 then Bits(v)[i + s] else Bits(w)[i + s - 64]
  {
    LogicBits(Shl(v, s), Shr(w, 64 - s), i);
    ShlBit(v, s, i);
    ShrBit(w, 64 - s, i);
  }
}
