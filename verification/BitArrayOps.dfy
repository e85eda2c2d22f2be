/** Concatenation, shifts, widening, logic and comparison of packed bit strings. */
module BitArrayOps {
  import opened Words
  import opened BitArrays
  import opened Machine

  /** Word j of a concatenation whose left side uses s bits of its last word. */
  function JoinedWord(lw: seq<Word>, rw: seq<Word>, s: nat, j: nat): Word
    requires lw != [] && rw != [] && 0 < s < 64 && j < |lw| + |rw|
  {
    var k := j - (|lw| - 1);
    if k < 0 then lw[j]
    else Or(Pending(lw, rw, s, k), if k < |rw| then Shr(rw[k], s) else 0)
  }

  /** The bits left over when k words of the right side have been placed. */
  function Pending(lw: seq<Word>, rw: seq<Word>, s: nat, k: nat): Word
    requires lw != [] && rw != [] && 0 < s < 64 && k <= |rw|
  {
    if k == 0 then lw[|lw| - 1] else Shl(rw[k - 1], 64 - s)
  }

  /** The bits of a joined word at or after the left side's last word. */
  lemma JoinedWordBit(lw: seq<Word>, rw: seq<Word>, s: nat, k: nat, i: nat)
    requires lw != [] && rw != [] && 0 < s < 64 && k <= |rw| && i < 64
    requires i >= s ==> Bits(lw[|lw| - 1])[i] == 0
    ensures Bits(JoinedWord(lw, rw, s, |lw| - 1 + k))[i]
            == if i >= s then (if k < |rw| then Bits(rw[k])[i - s] else 0)
               else if k == 0 then Bits(lw[|lw| - 1])[i]
               else Bits(rw[k - 1])[i + (64 - s)]
  {
    var pending, next := Pending(lw, rw, s, k), if k < |rw| then Shr(rw[k], s) else 0;
    assert Bits(pending)[i]
           == if i >= s then 0 else if k == 0 then Bits(lw[|lw| - 1])[i] else Bits(rw[k - 1])[i + (64 - s)] by {
      if k > 0 { ShlBit(rw[k - 1], 64 - s, i); }
    }
    assert Bits(next)[i] == if k < |rw| && i >= s then Bits(rw[k])[i - s] else 0 by {
      if k < |rw| { ShrBit(rw[k], s, i); } else { ZeroWordBits(); }
    }
    LogicBits(pending, next, i);
  }

  /** Every bit of the joined words is the bit of the concatenation at its position. */
  lemma JoinedBit(lhs: BitArray, rhs: BitArray, p: nat)
    requires lhs.Valid() && rhs.Valid() && 0 < lhs.lastBitsUsed < 64 && rhs.words != []
    requires p < 64 * (|lhs.words| + |rhs.words|)
    ensures Bits(JoinedWord(lhs.words, rhs.words, lhs.lastBitsUsed, p / 64))[p % 64]
            == Padded(lhs.Contents() + rhs.Contents(), p)
  {
    var k := p / 64 - (|lhs.words| - 1);
    if k < 0 {
      assert p < lhs.BitLen();
    } else {
      JoinedBehind(lhs, rhs, k, p % 64);
    }
  }

  lemma JoinedBehind(lhs: BitArray, rhs: BitArray, k: nat, i: nat)
    requires lhs.Valid() && rhs.Valid() && 0 < lhs.lastBitsUsed < 64 && rhs.words != []
    requires k <= |rhs.words| && i < 64
    ensures Bits(JoinedWord(lhs.words, rhs.words, lhs.lastBitsUsed, |lhs.words| - 1 + k))[i]
            == Padded(lhs.Contents() + rhs.Contents(), 64 * (|lhs.words| - 1 + k) + i)
  {
    if i >= lhs.lastBitsUsed { BitAtWord(lhs.words, |lhs.words| - 1, i); }
    JoinedWordBit(lhs.words, rhs.words, lhs.lastBitsUsed, k, i);
    ConcatenatedBit(lhs, rhs, k, i);
  }

  lemma ConcatenatedBit(lhs: BitArray, rhs: BitArray, k: nat, i: nat)
    requires lhs.Valid() && rhs.Valid() && 0 < lhs.lastBitsUsed < 64 && rhs.words != []
    requires k <= |rhs.words| && i < 64
    ensures Padded(lhs.Contents() + rhs.Contents(), 64 * (|lhs.words| - 1 + k) + i)
            == if i >= lhs.lastBitsUsed
               then (if k < |rhs.words| then Bits(rhs.words[k])[i - lhs.lastBitsUsed] else 0)
               else if k == 0 then Bits(lhs.words[|lhs.words| - 1])[i]
               else Bits(rhs.words[k - 1])[i + (64 - lhs.lastBitsUsed)]
  {
    var s, n := lhs.lastBitsUsed, |lhs.words| - 1;
    if i >= s {
      RightPart(lhs, rhs, 64 * (n + k) + i, k, i - s);
    } else if k > 0 {
      RightPart(lhs, rhs, 64 * (n + k) + i, k - 1, i + (64 - s));
    } else {
      LeftPart(lhs, rhs, n, i);
    }
  }

  lemma LeftPart(lhs: BitArray, rhs: BitArray, n: nat, i: nat)
    requires lhs.Valid() && rhs.Valid() && i < 64 && n < |lhs.words| && 64 * n + i < lhs.BitLen()
    ensures Padded(lhs.Contents() + rhs.Contents(), 64 * n + i) == Bits(lhs.words[n])[i]
  {
    BitAtWord(lhs.words, n, i);
  }

  lemma RightPart(lhs: BitArray, rhs: BitArray, p: nat, q: nat, r: nat)
    requires lhs.Valid() && rhs.Valid() && r < 64 && p == lhs.BitLen() + 64 * q + r
    ensures Padded(lhs.Contents() + rhs.Contents(), p) == if q < |rhs.words| then Bits(rhs.words[q])[r] else 0
  {
    if q < |rhs.words| {
      BitAtWord(rhs.words, q, r);
      PaddedContents(rhs, 64 * q + r);
    }
  }

  /** Packed concatenation is concatenation of the bit strings. */
  method Concat(lhs: BitArray, rhs: BitArray) returns (r: BitArray)
    requires lhs.Valid() && rhs.Valid()
    ensures r.Valid() && r.Contents() == lhs.Contents() + rhs.Contents()
  {
    if lhs.lastBitsUsed == 0 {
      assert lhs.Contents() == [];
      return rhs;
    }
    if rhs.lastBitsUsed == 0 {
      assert rhs.Contents() == [];
      return lhs;
    }
    var words := new Word[(lhs.BitLen() + rhs.BitLen() + 63) / 64](i => 0);
    var last: nat;
    if lhs.lastBitsUsed == 64 {
      forall i | 0 <= i < |lhs.words| { words[i] := lhs.words[i]; }
      forall i | 0 <= i < |rhs.words| { words[|lhs.words| + i] := rhs.words[i]; }
      last := rhs.lastBitsUsed;
      AlignedBits(lhs, rhs, words[..]);
    } else {
      ConcatShifted(lhs, rhs, words);
      last := lhs.lastBitsUsed + rhs.lastBitsUsed;
      last := last % 64;
      if last == 0 { last := 64; }
    }
    Built(words[..], [], last, lhs.Contents() + rhs.Contents());
    r := BitArray(words[..], [], last);
  }

  lemma AlignedBits(lhs: BitArray, rhs: BitArray, words: seq<Word>)
    requires lhs.Valid() && rhs.Valid() && lhs.lastBitsUsed == 64
    requires words == lhs.words + rhs.words
    ensures Represents(words, lhs.Contents() + rhs.Contents())
  {
    forall p | 0 <= p < 64 * |words| ensures BitAt(words, p) == Padded(lhs.Contents() + rhs.Contents(), p) {
      if p >= 64 * |lhs.words| { PaddedContents(rhs, p - 64 * |lhs.words|); }
    }
  }

  method ConcatShifted(lhs: BitArray, rhs: BitArray, words: array<Word>)
    requires lhs.Valid() && rhs.Valid() && 0 < lhs.lastBitsUsed < 64 && rhs.words != []
    requires words.Length == (lhs.BitLen() + rhs.BitLen() + 63) / 64
    modifies words
    ensures Represents(words[..], lhs.Contents() + rhs.Contents())
  {
    forall i | 0 <= i < |lhs.words| { words[i] := lhs.words[i]; }
    JoinedStart(lhs.words, rhs.words, lhs.lastBitsUsed, words[..]);
    PlaceRight(lhs.words, rhs.words, lhs.lastBitsUsed, rhs.lastBitsUsed, words);
    JoinedBits(lhs, rhs, words[..]);
  }

  /** The first n words are those of the concatenation. */
  ghost predicate Joined(lw: seq<Word>, rw: seq<Word>, s: nat, words: seq<Word>, n: nat)
    requires lw != [] && rw != [] && 0 < s < 64
  {
    n <= |words| && n <= |lw| + |rw| && forall j :: 0 <= j < n ==> words[j] == JoinedWord(lw, rw, s, j)
  }

  lemma JoinedStart(lw: seq<Word>, rw: seq<Word>, s: nat, words: seq<Word>)
    requires lw != [] && rw != [] && 0 < s < 64 && |lw| - 1 <= |words|
    requires forall j :: 0 <= j < |lw| - 1 ==> words[j] == lw[j]
    ensures Joined(lw, rw, s, words, |lw| - 1)
  {}

  lemma JoinedNext(lw: seq<Word>, rw: seq<Word>, s: nat, words: seq<Word>, k: nat, w: Word)
    requires lw != [] && rw != [] && 0 < s < 64 && k <= |rw| && |lw| - 1 + k < |words|
    requires Joined(lw, rw, s, words, |lw| - 1 + k)
    requires w == Or(Pending(lw, rw, s, k), if k < |rw| then Shr(rw[k], s) else 0)
    ensures Joined(lw, rw, s, words[|lw| - 1 + k := w], |lw| + k)
  {}

  lemma JoinedLast(lw: seq<Word>, rw: seq<Word>, s: nat, words: seq<Word>, w: Word)
    requires lw != [] && rw != [] && 0 < s < 64 && |lw| - 1 + |rw| < |words|
    requires Joined(lw, rw, s, words, |lw| - 1 + |rw|) && w == Pending(lw, rw, s, |rw|)
    ensures Joined(lw, rw, s, words[|lw| - 1 + |rw| := w], |lw| + |rw|)
  {
    OrZero(w);
    JoinedNext(lw, rw, s, words, |rw|, w);
  }

  /** The loop of Concat: every right word is split over two words of the result. */
  method PlaceRight(lw: seq<Word>, rw: seq<Word>, shift: nat, rhsLast: nat, words: array<Word>)
    requires lw != [] && rw != [] && 0 < shift < 64 && rhsLast <= 64
    requires words.Length == |lw| + |rw| - (if shift + rhsLast > 64 then 0 else 1)
    requires Joined(lw, rw, shift, words[..], |lw| - 1) && words[|lw| - 1] == lw[|lw| - 1]
    modifies words
    ensures Joined(lw, rw, shift, words[..], words.Length)
  {
    var target: nat := |lw| - 1;
    var trailing := words[target];
    for k := 0 to |rw|
      invariant target == |lw| - 1 + k <= words.Length
      invariant trailing == Pending(lw, rw, shift, k)
      invariant Joined(lw, rw, shift, words[..], target)
    {
      trailing := PlaceWord(lw, rw, shift, k, trailing, words);
      target := target + 1;
    }
    if shift + rhsLast > 64 {
      JoinedLast(lw, rw, shift, words[..], trailing);
      words[target] := trailing;
    }
  }

  /** One round of it: the heading bits are stored, the trailing ones are kept for the next word. */
  method PlaceWord(lw: seq<Word>, rw: seq<Word>, shift: nat, k: nat, before: Word, words: array<Word>)
    returns (trailing: Word)
    requires lw != [] && 0 < shift < 64 && k < |rw| && |lw| - 1 + k < words.Length
    requires before == Pending(lw, rw, shift, k) && Joined(lw, rw, shift, words[..], |lw| - 1 + k)
    modifies words
    ensures trailing == Pending(lw, rw, shift, k + 1) && Joined(lw, rw, shift, words[..], |lw| + k)
  {
    var w := rw[k];
    var headingBits := Shr(w, shift);
    JoinedNext(lw, rw, shift, words[..], k, Or(before, headingBits));
    words[|lw| - 1 + k] := Or(before, headingBits);
    trailing := Shl(w, 64 - shift);
  }

  lemma JoinedBits(lhs: BitArray, rhs: BitArray, words: seq<Word>)
    requires lhs.Valid() && rhs.Valid() && 0 < lhs.lastBitsUsed < 64 && rhs.words != []
    requires Joined(lhs.words, rhs.words, lhs.lastBitsUsed, words, |words|)
    ensures Represents(words, lhs.Contents() + rhs.Contents())
  {
    forall p | 0 <= p < 64 * |words| ensures BitAt(words, p) == Padded(lhs.Contents() + rhs.Contents(), p) {
      JoinedBit(lhs, rhs, p);
    }
  }

  lemma OrZero(w: Word)
    ensures Or(w, 0) == w && Or(0, w) == w
  {
    ZeroWordBits();
    forall i | 0 <= i < 64 ensures Bits(Or(w, 0))[i] == Bits(w)[i] && Bits(Or(0, w))[i] == Bits(w)[i] {
      LogicBits(w, 0, i);
      LogicBits(0, w, i);
    }
    SameBits(Or(w, 0), w);
    SameBits(Or(0, w), w);
  }

  /** The shift the operation promises: zeros come in, the length stays. */
  function Shifted(c: seq<Bit>, n: int): (s: seq<Bit>)
    ensures |s| == |c|
  {
    seq(|c|, p requires 0 <= p < |c| => if 0 <= p + n < |c| then c[p + n] else 0)
  }

  lemma ShiftedOut(c: seq<Bit>, n: int)
    requires n >= |c| || 0 - n >= |c|
    ensures Shifted(c, n) == ZeroBits(|c|)
  {}

  /** Go's negation of an int64, which leaves the smallest one unchanged. */
  function Negate(n: Int64): Int64 {
    if n == MIN_INT then n else 0 - n
  }

  lemma NegateMagnitude(n: Int64)
    requires n < 0
    ensures ToWord(Negate(n)) == 0 - n
  {}

  /** Shifting by any count, the smallest int64 included, is the shift of the bit string. */
  method LeftShiftAny(d: BitArray, n: Int64) returns (r: BitArray)
    requires d.Valid() && d.BitLen() <= MAX_INT
    ensures r.Valid() && r.Contents() == Shifted(d.Contents(), n)
  {
    var bitlen := d.BitLen();
    if n == 0 || bitlen == 0 {
      return d;
    }
    r := MakeZeroBitArray(bitlen);
    if (n > 0 && n > bitlen) || (n < 0 && Negate(n) > bitlen) {
      ShiftedOut(d.Contents(), n);
      return r;
    }
    var words := new Word[|d.words|](i => 0);
    if n > 0 {
      ShiftLeft(d, n, words);
    } else {
      NegateMagnitude(n);
      ShiftRight(d, ToWord(Negate(n)), words);
    }
    Built(words[..], [], d.lastBitsUsed, Shifted(d.Contents(), n));
    r := BitArray(words[..], [], d.lastBitsUsed);
  }

  /** Word k of a slice, and zero around it. */
  function WordOr0(ws: seq<Word>, k: int): Word {
    if 0 <= k < |ws| then ws[k] else 0
  }

  lemma ShiftedLeftAt(c: seq<Bit>, n: nat, p: nat)
    ensures Padded(Shifted(c, n), p) == Padded(c, p + n)
  {}

  /** A funnel over two neighbouring words reads the bits further on. */
  lemma LeftBit(d: BitArray, n: nat, src: nat, s: nat, p: nat, w: nat, i: nat)
    requires d.Valid() && w < |d.words| && i < 64 && s < 64 && n == 64 * src + s && p == 64 * w + i
    ensures Bits(Funnel(WordOr0(d.words, w + src), WordOr0(d.words, w + src + 1), s))[i]
            == Padded(Shifted(d.Contents(), n), p)
  {
    FunnelBit(WordOr0(d.words, w + src), WordOr0(d.words, w + src + 1), s, i);
    ShiftedLeftAt(d.Contents(), n, p);
    if i + s < 64 {
      WordOr0Bit(d, w + src, i + s);
    } else {
      WordOr0Bit(d, w + src + 1, i + s - 64);
    }
  }

  lemma WordOr0Bit(d: BitArray, q: nat, r: nat)
    requires d.Valid() && r < 64
    ensures Bits(WordOr0(d.words, q))[r] == Padded(d.Contents(), 64 * q + r)
  {
    if q < |d.words| {
      BitAtWord(d.words, q, r);
      PaddedContents(d, 64 * q + r);
    } else {
      ZeroWordBits();
    }
  }

  method ShiftLeft(d: BitArray, n: nat, words: array<Word>)
    requires d.Valid() && d.words != [] && n <= d.BitLen()
    requires words.Length == |d.words| && forall j :: 0 <= j < words.Length ==> words[j] == 0
    modifies words
    ensures Represents(words[..], Shifted(d.Contents(), n))
  {
    ShiftLeftBy(d, n, n / 64, n % 64, words);
  }

  method ShiftLeftBy(d: BitArray, n: nat, src: nat, s: nat, words: array<Word>)
    requires d.Valid() && d.words != [] && src <= |d.words| && s < 64 && n == 64 * src + s
    requires words.Length == |d.words| && forall j :: 0 <= j < words.Length ==> words[j] == 0
    modifies words
    ensures Represents(words[..], Shifted(d.Contents(), n))
  {
    FunnelLeft(d.words, src, s, words);
    LeftBits(d, n, src, s, words[..]);
  }

  /** What the two loops of the left shift have written. */
  ghost predicate MovedLeft(dw: seq<Word>, src: nat, s: nat, words: seq<Word>)
    requires |words| == |dw| && s < 64
  {
    && (forall j {:trigger words[j]} :: 0 <= j < |dw| - src - 1 ==> words[j] == Funnel(dw[src + j], dw[src + j + 1], s))
    && (src < |dw| ==> words[|dw| - src - 1] == Shl(dw[|dw| - 1], s))
    && (forall j :: 0 <= j < |dw| && |dw| - src <= j ==> words[j] == 0)
  }

  /** Every word is a funnel over two words further on. */
  ghost predicate FunnelledLeft(dw: seq<Word>, src: nat, s: nat, words: seq<Word>)
    requires s < 64
  {
    forall j :: 0 <= j < |words| ==> words[j] == Funnel(WordOr0(dw, j + src), WordOr0(dw, j + src + 1), s)
  }

  /** Both loops of the left shift. */
  method FunnelLeft(dw: seq<Word>, src: nat, s: nat, words: array<Word>)
    requires src <= |dw| && s < 64 && words.Length == |dw| && forall j :: 0 <= j < words.Length ==> words[j] == 0
    modifies words
    ensures FunnelledLeft(dw, src, s, words[..])
  {
    MoveLeft(dw, src, s, words);
    if src < |dw| { CarryLeft(dw, src, s, words); }
    LeftWords(dw, src, s, words[..]);
  }

  lemma LeftWords(dw: seq<Word>, src: nat, s: nat, words: seq<Word>)
    requires |words| == |dw| && s < 64 && MovedLeft(dw, src, s, words)
    ensures FunnelledLeft(dw, src, s, words)
  {
    FunnelZero(s);
    if src < |dw| { FunnelNoCarry(dw[|dw| - 1], s); }
  }

  lemma LeftBits(d: BitArray, n: nat, src: nat, s: nat, words: seq<Word>)
    requires d.Valid() && |words| == |d.words| && s < 64 && n == 64 * src + s
    requires FunnelledLeft(d.words, src, s, words)
    ensures Represents(words, Shifted(d.Contents(), n))
  {
    forall p | 0 <= p < 64 * |words| ensures BitAt(words, p) == Padded(Shifted(d.Contents(), n), p) {
      LeftBit(d, n, src, s, p, p / 64, p % 64);
    }
  }

  /** The first loop of the left shift. */
  method MoveLeft(dw: seq<Word>, src: nat, s: nat, words: array<Word>)
    requires src <= |dw| == words.Length && forall j :: 0 <= j < words.Length ==> words[j] == 0
    modifies words
    ensures forall j :: 0 <= j < |dw| - src ==> words[j] == Shl(dw[src + j], s)
    ensures forall j :: |dw| - src <= j < |dw| ==> words[j] == 0
  {
    for i := src to |dw|
      invariant forall j :: 0 <= j < i - src ==> words[j] == Shl(dw[src + j], s)
      invariant forall j :: i - src <= j < |dw| ==> words[j] == 0
    {
      words[i - src] := Shl(dw[i], s);
    }
  }

  /** The second loop of the left shift. */
  method CarryLeft(dw: seq<Word>, src: nat, s: nat, words: array<Word>)
    requires src < |dw| == words.Length && s < 64
    requires forall j :: 0 <= j < |dw| - src ==> words[j] == Shl(dw[src + j], s)
    requires forall j :: |dw| - src <= j < |dw| ==> words[j] == 0
    modifies words
    ensures forall j {:trigger words[j]} :: 0 <= j < |dw| - src - 1 ==>
                     words[j] == Funnel(dw[src + j], dw[src + j + 1], s)
    ensures words[|dw| - src - 1] == Shl(dw[|dw| - 1], s)
    ensures forall j :: |dw| - src <= j < |dw| ==> words[j] == 0
  {
    for i := src + 1 to |dw|
      invariant forall j {:trigger words[j]} :: 0 <= j < i - src - 1 ==>
                         words[j] == Funnel(dw[src + j], dw[src + j + 1], s)
      invariant forall j :: i - src - 1 <= j < |dw| - src ==> words[j] == Shl(dw[src + j], s)
      invariant forall j :: |dw| - src <= j < |dw| ==> words[j] == 0
    {
      words[i - src - 1] := Or(words[i - src - 1], Shr(dw[i], 64 - s));
    }
  }

  lemma {:induction false} ShrZero(n: nat)
    ensures Shr(0, n) == 0 && Shl(0, n) == 0
  {
    if n > 0 { ShrZero(n - 1); }
  }

  lemma FunnelZero(s: nat)
    requires s <= 64
    ensures Funnel(0, 0, s) == 0
  {
    ShrZero(s);
    ShrZero(64 - s);
    OrZero(0);
  }

  lemma FunnelNoCarry(w: Word, s: nat)
    requires s <= 64
    ensures Funnel(w, 0, s) == Shl(w, s)
    ensures Funnel(0, w, s) == Shr(w, 64 - s)
  {
    ShrZero(s);
    ShrZero(64 - s);
    OrZero(Shl(w, s));
    OrZero(Shr(w, 64 - s));
  }

  /** Bit r of word q, where there is nothing before the first word. */
  lemma FarBit(d: BitArray, q: int, r: nat, p: int)
    requires d.Valid() && r < 64 && p == 64 * q + r
    ensures Bits(WordOr0(d.words, q))[r] == if p >= 0 then Padded(d.Contents(), p) else 0
  {
    if q >= 0 { WordOr0Bit(d, q, r); } else { ZeroWordBits(); }
  }

  lemma ShiftedRightAt(c: seq<Bit>, n: nat, p: nat)
    requires p < |c|
    ensures Shifted(c, 0 - n)[p] == if p - n >= 0 then Padded(c, p - n) else 0
  {}

  lemma FunnelBackBit(u: Word, v: Word, s: nat, i: nat)
    requires s < 64 && i < 64
    ensures Bits(Funnel(u, v, 64 - s))[i] == if i >= s then Bits(v)[i - s] else Bits(u)[i + (64 - s)]
  {
    FunnelBit(u, v, 64 - s, i);
  }

  /** A funnel over a word and the one before it reads the bits further back. */
  lemma RightBit(d: BitArray, n: nat, dst: nat, s: nat, p: nat, w: nat, i: nat)
    requires d.Valid() && i < 64 && s < 64 && n == 64 * dst + s && p == 64 * w + i && p < d.BitLen()
    ensures Bits(Funnel(WordOr0(d.words, w - dst - 1), WordOr0(d.words, w - dst), 64 - s))[i]
            == Shifted(d.Contents(), 0 - n)[p]
  {
    FunnelBackBit(WordOr0(d.words, w - dst - 1), WordOr0(d.words, w - dst), s, i);
    ShiftedRightAt(d.Contents(), n, p);
    if i >= s {
      FarBit(d, w - dst, i - s, p - n);
    } else {
      FarBit(d, w - dst - 1, i + (64 - s), p - n);
    }
  }

  method ShiftRight(d: BitArray, n: nat, words: array<Word>)
    requires d.Valid() && d.words != [] && n > 0
    requires words.Length == |d.words| && forall j :: 0 <= j < words.Length ==> words[j] == 0
    modifies words
    ensures Represents(words[..], Shifted(d.Contents(), 0 - n))
  {
    ShiftRightBy(d, n, n / 64, n % 64, words);
  }

  method ShiftRightBy(d: BitArray, n: nat, dst: nat, s: nat, words: array<Word>)
    requires d.Valid() && d.words != [] && s < 64 && n == 64 * dst + s
    requires words.Length == |d.words| && forall j :: 0 <= j < words.Length ==> words[j] == 0
    modifies words
    ensures Represents(words[..], Shifted(d.Contents(), 0 - n))
  {
    var len := |d.words|;
    FunnelRight(d.words, dst, s, words);
    ghost var unmasked := words[..];
    words[len - 1] := And(words[len - 1], KeepMask(d.lastBitsUsed));
    MaskedRight(d, n, dst, s, unmasked, words[..]);
  }

  /** Every word is a funnel over two words further back. */
  ghost predicate FunnelledRight(dw: seq<Word>, dst: nat, s: nat, words: seq<Word>)
    requires s < 64
  {
    forall k :: 0 <= k < |words| ==> words[k] == Funnel(WordOr0(dw, k - dst - 1), WordOr0(dw, k - dst), 64 - s)
  }

  /** Both loops of the right shift. */
  method FunnelRight(dw: seq<Word>, dst: nat, s: nat, words: array<Word>)
    requires dw != [] && s < 64 && words.Length == |dw| && forall j :: 0 <= j < words.Length ==> words[j] == 0
    modifies words
    ensures FunnelledRight(dw, dst, s, words[..])
  {
    if dst < |dw| {
      MoveRight(dw, dst, s, words);
      CarryRight(dw, dst, s, words);
    }
    RightWords(dw, dst, s, words[..]);
  }

  lemma RightWords(dw: seq<Word>, dst: nat, s: nat, words: seq<Word>)
    requires |words| == |dw| && s < 64
    requires forall k :: 0 <= k < dst && k < |words| ==> words[k] == 0
    requires dst < |dw| ==> words[dst] == Shr(dw[0], s)
    requires forall k {:trigger words[k]} :: dst < k < |words| ==>
                      words[k] == Funnel(dw[k - dst - 1], dw[k - dst], 64 - s)
    ensures FunnelledRight(dw, dst, s, words)
  {
    FunnelZero(64 - s);
    if dst < |dw| { FunnelNoCarry(dw[0], 64 - s); }
  }

  lemma MaskedRight(d: BitArray, n: nat, dst: nat, s: nat, unmasked: seq<Word>, masked: seq<Word>)
    requires d.Valid() && d.words != [] && |unmasked| == |d.words| && s < 64 && n == 64 * dst + s
    requires FunnelledRight(d.words, dst, s, unmasked)
    requires masked == unmasked[|unmasked| - 1 := And(unmasked[|unmasked| - 1], KeepMask(d.lastBitsUsed))]
    ensures Represents(masked, Shifted(d.Contents(), 0 - n))
  {
    forall p | 0 <= p < 64 * |masked|
      ensures BitAt(masked, p) == Padded(Shifted(d.Contents(), 0 - n), p)
    {
      MaskedLast(unmasked, masked, d.lastBitsUsed, p);
      if p < d.BitLen() { UnmaskedRight(d, n, dst, s, p, p / 64, p % 64, unmasked); }
    }
  }

  lemma UnmaskedRight(d: BitArray, n: nat, dst: nat, s: nat, p: nat, w: nat, i: nat, words: seq<Word>)
    requires d.Valid() && i < 64 && s < 64 && n == 64 * dst + s && p == 64 * w + i && p < d.BitLen() && w < |words|
    requires FunnelledRight(d.words, dst, s, words)
    ensures BitAt(words, p) == Shifted(d.Contents(), 0 - n)[p]
  {
    BitAtWord(words, w, i);
    RightBit(d, n, dst, s, p, w, i);
  }

  /** The first loop of the right shift. */
  method MoveRight(dw: seq<Word>, dst: nat, s: nat, words: array<Word>)
    requires dst < |dw| == words.Length && forall j :: 0 <= j < words.Length ==> words[j] == 0
    modifies words
    ensures forall k :: 0 <= k < dst ==> words[k] == 0
    ensures forall k :: dst <= k < words.Length ==> words[k] == Shr(dw[k - dst], s)
  {
    for j := dst to |dw|
      invariant forall k :: dst <= k < j ==> words[k] == Shr(dw[k - dst], s)
      invariant forall k :: 0 <= k < dst ==> words[k] == 0
    {
      words[j] := Shr(dw[j - dst], s);
    }
  }

  /** The second loop of the right shift. */
  method CarryRight(dw: seq<Word>, dst: nat, s: nat, words: array<Word>)
    requires dst < |dw| == words.Length && s < 64
    requires forall k :: 0 <= k < dst ==> words[k] == 0
    requires forall k :: dst <= k < words.Length ==> words[k] == Shr(dw[k - dst], s)
    modifies words
    ensures forall k :: 0 <= k < dst ==> words[k] == 0
    ensures words[dst] == Shr(dw[0], s)
    ensures forall k {:trigger words[k]} :: dst < k < words.Length ==>
                     words[k] == Funnel(dw[k - dst - 1], dw[k - dst], 64 - s)
  {
    for j := dst + 1 to |dw|
      invariant forall k {:trigger words[k]} :: dst < k < j ==> words[k] == Funnel(dw[k - dst - 1], dw[k - dst], 64 - s)
      invariant words[dst] == Shr(dw[0], s)
      invariant forall k :: j <= k < words.Length ==> words[k] == Shr(dw[k - dst], s)
      invariant forall k :: 0 <= k < dst ==> words[k] == 0
    {
      OrCommutes(words[j], Shl(dw[j - dst - 1], 64 - s));
      words[j] := Or(words[j], Shl(dw[j - dst - 1], 64 - s));
    }
  }

  /** ToWidth: truncates on the right, or adds zero bits, inside the capacity when there is room. */
  method ToWidth(d: BitArray, desiredLen: nat) returns (r: BitArray)
    requires d.Valid()
    ensures r.Valid()
    ensures r.Contents() == if desiredLen <= d.BitLen() then d.Contents()[..desiredLen]
                            else d.Contents() + ZeroBits(desiredLen - d.BitLen())
  {
    var bitlen := d.BitLen();
    if bitlen == desiredLen { return d; }
    if desiredLen == 0 { return EMPTY; }
    var (numWords, last) := SizesForBitLen(desiredLen);
    if desiredLen < bitlen {
      var words := d.words[..numWords];
      words := words[numWords - 1 := And(words[numWords - 1], KeepMask(last))];
      TruncatedBits(d, desiredLen, numWords, last, words);
      Built(words, [], last, d.Contents()[..desiredLen]);
      return BitArray(words, [], last);
    }
    if numWords <= |d.words| + |d.spare| {
      var backing := d.words + d.spare;
      WidenedBits(d, desiredLen, backing[..numWords]);
      Built(backing[..numWords], backing[numWords..], last, d.Contents() + ZeroBits(desiredLen - bitlen));
      return BitArray(backing[..numWords], backing[numWords..], last);
    } else {
      var words := d.words + ZeroWords(numWords - |d.words|);
      WidenedBits(d, desiredLen, words);
      Built(words, [], last, d.Contents() + ZeroBits(desiredLen - bitlen));
      return BitArray(words, [], last);
    }
  }

  lemma TruncatedBits(d: BitArray, len: nat, n: nat, last: nat, words: seq<Word>)
    requires d.Valid() && 0 < len < d.BitLen() && 0 < n <= |d.words| && len == 64 * (n - 1) + last && 1 <= last <= 64
    requires words == d.words[..n][n - 1 := And(d.words[n - 1], KeepMask(last))]
    ensures Represents(words, d.Contents()[..len])
  {
    forall p | 0 <= p < 64 * |words| ensures BitAt(words, p) == Padded(d.Contents()[..len], p) {
      MaskedLast(d.words[..n], words, last, p);
    }
  }

  lemma WidenedBits(d: BitArray, len: nat, words: seq<Word>)
    requires d.Valid() && d.BitLen() <= len && |d.words| <= |words|
    requires forall j :: 0 <= j < |words| ==> words[j] == WordOr0(d.words, j)
    ensures Represents(words, d.Contents() + ZeroBits(len - d.BitLen()))
  {
    forall p | 0 <= p < 64 * |words| ensures BitAt(words, p) == Padded(d.Contents() + ZeroBits(len - d.BitLen()), p) {
      WordOr0Bit(d, p / 64, p % 64);
    }
  }

  /** The complement of every bit; the unused bits stay zero. */
  method Complemented(d: BitArray) returns (r: BitArray)
    requires d.Valid()
    ensures r.Valid() && |r.Contents()| == |d.Contents()|
    ensures forall p :: 0 <= p < |d.Contents()| ==> r.Contents()[p] == 1 - d.Contents()[p]
  {
    if d.words == [] { return EMPTY; }
    var words := new Word[|d.words|](i requires 0 <= i < |d.words| => d.words[i]);
    for i := 0 to words.Length
      invariant forall j :: 0 <= j < i ==> words[j] == Not(d.words[j])
      invariant forall j :: i <= j < words.Length ==> words[j] == d.words[j]
    {
      words[i] := Not(words[i]);
    }
    ghost var unmasked := words[..];
    var lastWord := words.Length - 1;
    words[lastWord] := And(words[lastWord], KeepMask(d.lastBitsUsed));
    ghost var c := seq(d.BitLen(), p requires 0 <= p < d.BitLen() => 1 - d.Contents()[p]);
    ComplementedBits(d, unmasked, words[..], c);
    Built(words[..], [], d.lastBitsUsed, c);
    r := BitArray(words[..], [], d.lastBitsUsed);
  }

  lemma ComplementedBits(d: BitArray, unmasked: seq<Word>, words: seq<Word>, c: seq<Bit>)
    requires d.Valid() && d.words != [] && |unmasked| == |d.words| == |words|
    requires forall j :: 0 <= j < |unmasked| ==> unmasked[j] == Not(d.words[j])
    requires words == unmasked[|unmasked| - 1 := And(unmasked[|unmasked| - 1], KeepMask(d.lastBitsUsed))]
    requires |c| == d.BitLen() && forall p :: 0 <= p < |c| ==> c[p] == 1 - d.Contents()[p]
    ensures Represents(words, c)
  {
    forall p | 0 <= p < 64 * |words| ensures BitAt(words, p) == Padded(c, p) {
      MaskedLast(unmasked, words, d.lastBitsUsed, p);
      NotBits(d.words[p / 64], p % 64);
    }
  }

  datatype Logic = Conjunction | Disjunction | ExclusiveOr {
    function OnWords(v: Word, w: Word): Word {
      match this
      case Conjunction => And(v, w)
      case Disjunction => Or(v, w)
      case ExclusiveOr => Xor(v, w)
    }

    /** The lesser bit, the greater one, or the parity. */
    function OnBits(b: Bit, c: Bit): (r: Bit)
      ensures (Conjunction? ==> r == Min(b, c)) && (Disjunction? ==> r == Max(b, c))
      ensures ExclusiveOr? ==> r == (b + c) % 2
    {
      match this
      case Conjunction => if b == 1 && c == 1 then 1 else 0
      case Disjunction => if b == 1 || c == 1 then 1 else 0
      case ExclusiveOr => if b != c then 1 else 0
    }
  }

  /** And, Or and Xor of bit arrays of the same size, one word at a time. */
  method Combine(op: Logic, lhs: BitArray, rhs: BitArray) returns (r: BitArray)
    requires lhs.Valid() && rhs.Valid() && lhs.BitLen() == rhs.BitLen()
    ensures r.Valid() && |r.Contents()| == |lhs.Contents()|
    ensures forall p :: 0 <= p < |lhs.Contents()| ==> r.Contents()[p] == op.OnBits(lhs.Contents()[p], rhs.Contents()[p])
  {
    if lhs.words == [] { return EMPTY; }
    var words := new Word[|lhs.words|](i requires 0 <= i < |lhs.words| => lhs.words[i]);
    for i := 0 to |rhs.words|
      invariant forall j :: 0 <= j < i ==> words[j] == op.OnWords(lhs.words[j], rhs.words[j])
      invariant forall j :: i <= j < words.Length ==> words[j] == lhs.words[j]
    {
      words[i] := op.OnWords(words[i], rhs.words[i]);
    }
    ghost var c := seq(lhs.BitLen(), p requires 0 <= p < lhs.BitLen() =>
                         op.OnBits(lhs.Contents()[p], rhs.Contents()[p]));
    CombinedBits(op, lhs, rhs, words[..], c);
    Built(words[..], [], lhs.lastBitsUsed, c);
    r := BitArray(words[..], [], lhs.lastBitsUsed);
  }

  lemma CombinedBits(op: Logic, lhs: BitArray, rhs: BitArray, words: seq<Word>, c: seq<Bit>)
    requires lhs.Valid() && rhs.Valid() && lhs.BitLen() == rhs.BitLen() && |words| == |lhs.words| == |rhs.words|
    requires forall j :: 0 <= j < |words| ==> words[j] == op.OnWords(lhs.words[j], rhs.words[j])
    requires |c| == lhs.BitLen() && forall p :: 0 <= p < |c| ==> c[p] == op.OnBits(lhs.Contents()[p], rhs.Contents()[p])
    ensures Represents(words, c)
  {
    forall p | 0 <= p < 64 * |words| ensures BitAt(words, p) == Padded(c, p) {
      LogicBits(lhs.words[p / 64], rhs.words[p / 64], p % 64);
      PaddedContents(lhs, p);
      PaddedContents(rhs, p);
    }
  }
}
