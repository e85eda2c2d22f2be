/** The bit operations of the generated varint code, as arithmetic. */
module VarintWords {
  import opened Digits
  import opened Machine
  import opened Words
  import opened Base128

  lemma LowSeven(v: Word)
    ensures And(v, 0x7f) == v % 128
  {
    LowMask(7);
    assert Pow(2, 7) == 128;
    AndLowMask(v, 7);
    LowBitsSuffix(v, 64, 7);
    LowBitsValue(v, 7);
  }

  lemma ShiftSeven(v: Word)
    ensures Shr(v, 7) == v / 128
  {
    ShrDivides(v, 7);
    assert Pow(2, 7) == 128;
  }

  /** Or-ing a number below 2 to the n with one shifted by n is adding them. */
  lemma DisjointOr(w: Word, b: Word, n: nat)
    requires n <= 64 && w < Pow(2, n)
    ensures Or(w, Shl(b, n)) == w + Shl(b, n)
  {
    var x := Shl(b, n);
    var o, h := Bits(Or(w, x)), 64 - n;
    ShlBits(b, n);
    forall i | 0 <= i < 64 ensures o[i] == if i < h then Bits(x)[i] else Bits(w)[i] {
      LogicBits(w, x, i);
      ShortBits(w, n, i);
    }
    assert o[..h] == Bits(x)[..h] && o[h..] == Bits(w)[h..];
    HighIsZero(w, n);
    SplitValue(Or(w, x), h);
    SplitValue(w, h);
    SplitValue(x, h);
    assert Bits(x)[h..] == ZeroBits(n);
    ZeroBitsValue(n);
  }

  lemma HighIsZero(w: Word, n: nat)
    requires n <= 64 && w < Pow(2, n)
    ensures Value(Bits(w)[..64 - n]) == 0
  {
    forall i | 0 <= i < 64 - n ensures Bits(w)[i] == 0 { ShortBits(w, n, i); }
    assert Bits(w)[..64 - n] == ZeroBits(64 - n);
    ZeroBitsValue(64 - n);
  }

  lemma HighBit()
    ensures Shl(1, 7) == 0x80 && Pow(2, 7) == 128
  {
    assert Pow(2, 7) == 128;
    assert Shl(1, 7) == Pow(2, 7) % TWO64 by { ShlMultiplies(1, 7); }
  }

  lemma SetHighBit(x: Word)
    requires x < 128
    ensures Or(x, 0x80) == x + 128
  {
    HighBit();
    DisjointOr(x, 1, 7);
  }

  lemma ContinuationByte(v: Word)
    ensures Or(And(v, 0x7f), 0x80) == 128 + v % 128
  {
    LowSeven(v);
    SetHighBit(And(v, 0x7f));
  }

  /** Or-ing the next seven bits into what has been read: the last group loses what does not fit. */
  lemma AccumulateBits(exact: Word, b: nat, shift: nat)
    requires shift < 64 && exact < Pow(2, shift) && b < 256
    ensures Or(exact, Shl(And(b, 0x7f), shift)) == ToWord(exact + b % 128 * Pow(2, shift))
  {
    LowSeven(b);
    OrShifted(exact, And(b, 0x7f), shift);
  }

  lemma OrShifted(exact: Word, low: Word, shift: nat)
    requires shift < 64 && exact < Pow(2, shift)
    ensures Or(exact, Shl(low, shift)) == ToWord(exact + low * Pow(2, shift))
  {
    MulMonotone(0, low, Pow(2, shift));
    ShlMultiplies(low, shift);
    OrMoved(exact, low, shift, low * Pow(2, shift));
  }

  lemma OrMoved(exact: Word, low: Word, shift: nat, moved: nat)
    requires shift < 64 && exact < Pow(2, shift) && Shl(low, shift) == moved % TWO64
    ensures Or(exact, Shl(low, shift)) == ToWord(exact + moved)
  {
    DisjointOr(exact, low, shift);
    SumMod(exact, moved);
  }

  lemma SumMod(x: nat, y: nat)
    requires x + y % TWO64 < TWO64
    ensures ToWord(x + y) == x + y % TWO64
  {}

  lemma Doubled(h: Word)
    requires 2 * h < TWO64
    ensures Shl(h, 1) == 2 * h && Or(1, Shl(h, 1)) == 2 * h + 1
  {
    assert Shl(h, 1) == h * 2 % TWO64;
    assert Pow(2, 1) == 2;
    DisjointOr(1, h, 1);
  }

  /** Or-ing one sets the lowest bit. */
  lemma OrOne(x: Word)
    ensures Or(x, 1) == if x % 2 == 0 then x + 1 else x
  {
    Doubled(x / 2);
    if x % 2 == 0 {
      OrCommutes(x, 1);
    } else {
      OrTwice(x, Shl(x / 2, 1));
    }
  }

  lemma OrTwice(x: Word, y: Word)
    requires x == Or(1, y)
    ensures Or(x, 1) == x
  {
    forall i | 0 <= i < 64 ensures Bits(Or(x, 1))[i] == Bits(x)[i] {
      LogicBits(x, 1, i);
      LogicBits(1, y, i);
    }
    SameBits(Or(x, 1), x);
  }

  /** bits.Len64 */
  function Len64(w: Word): nat {
    64 - LeadingZeros(w)
  }

  /** The length of a word is the number of bits its value needs. */
  lemma LengthBounds(w: Word)
    requires w > 0
    ensures 0 < Len64(w) <= 64 && Pow(2, Len64(w) - 1) <= w < Pow(2, Len64(w))
  {
    assert LeadingZeros(w) < 64 by { ZeroWord(w); }
    BehindZeros(w, LeadingZeros(w));
    FromDigitsBounds(Bits(w)[LeadingZeros(w)..], 2);
  }

  lemma BehindZeros(w: Word, n: nat)
    requires n == LeadingZeros(w) < 64
    ensures w == Value(Bits(w)[n..]) && Bits(w)[n..][0] == 1
  {
    SplitValue(w, n);
    assert Bits(w)[..n] == ZeroBits(n);
    ZeroBitsValue(n);
  }

  /** sov: the size of a varint. */
  function Sov(x: Word): nat {
    (Len64(Or(x, 1)) + 6) / 7
  }

  lemma LengthUnique(w: Word, n: nat, k: nat)
    requires w > 0 && Pow(2, n) <= w < Pow(2, k)
    ensures n < Len64(w) <= k
  {
    LengthBounds(w);
    if Len64(w) <= n { PowMonotone(2, Len64(w), n); }
    if k < Len64(w) { PowMonotone(2, k, Len64(w) - 1); }
  }

  /** A varint of k bytes holds the numbers below 2 to the 7k and not those that fit in fewer bytes. */
  lemma {:induction false} VarintSize(v: nat)
    ensures v < Pow(2, 7 * |PutUvarint(v)|)
    ensures v >= 128 ==> Pow(2, 7 * |PutUvarint(v)| - 7) <= v
    ensures v < 128 <==> |PutUvarint(v)| == 1
    decreases v
  {
    assert Pow(2, 7) == 128;
    if v >= 128 {
      VarintSize(v / 128);
      Pow128(7 * |PutUvarint(v)|);
      if v / 128 >= 128 { Pow128(7 * |PutUvarint(v)| - 7); }
    }
  }

  /** The size formula counts the bytes that are written. */
  lemma SovCounts(x: Word)
    ensures Sov(x) == |PutUvarint(x)| <= MAX_VARINT_LEN64
  {
    VarintSize(x);
    var n := |PutUvarint(x)|;
    OrOne(x);
    EvenPow(7 * n);
    if n == 1 {
      assert Pow(2, 0) == 1;
      LengthUnique(Or(x, 1), 0, 7);
    } else {
      LengthUnique(Or(x, 1), 7 * n - 7, 7 * n);
    }
  }

  lemma ShortVarint(x: Word)
    ensures |PutUvarint(x)| <= MAX_VARINT_LEN64
  {
    SovCounts(x);
  }

  lemma EvenPow(n: nat)
    requires n > 0
    ensures Pow(2, n) % 2 == 0
  {
    assert Pow(2, n) == 2 * Pow(2, n - 1);
  }
}
