/** 64-bit machine words as numbers, with Go's operators, and their bits from the top down. */
module Words {
  import opened Digits
  import opened Bytes
  import opened Machine

  type Bit = b: int | 0 <= b < 2

  /** The low k bits of v, most significant first. */
  function LowBits(v: nat, k: nat): (s: seq<Bit>)
    ensures |s| == k
  {
    if k == 0 then [] else LowBits(v / 2, k - 1) + [v % 2]
  }

  function ZeroBits(n: nat): (s: seq<Bit>)
    ensures |s| == n && forall i :: 0 <= i < n ==> s[i] == 0
  {
    seq(n, _ => 0)
  }

  /** The number that bits denote. */
  function Value(s: seq<Bit>): nat {
    FromDigits(s, 2)
  }

  lemma {:induction false} LowBitsValue(v: nat, k: nat)
    ensures Value(LowBits(v, k)) == v % Pow(2, k)
    decreases k
  {
    if k == 0 {
      assert Pow(2, 0) == 1;
    } else {
      LowBitsValue(v / 2, k - 1);
      FromDigitsSnoc(LowBits(v / 2, k - 1), v % 2, 2);
      HalfMod(v, v / 2, v % 2, Pow(2, k - 1));
    }
  }

  lemma HalfMod(v: nat, h: nat, b: nat, p: nat)
    requires p > 0 && v == 2 * h + b && b < 2
    ensures v % (2 * p) == h % p * 2 + b
  {
    DivModIdentity(h, p);
    var q, r := h / p, h % p;
    assert q * (2 * p) == 2 * (q * p);
    DivModUnique(v, 2 * p, q, 2 * r + b);
  }

  lemma {:induction false} LowBitsOfValue(s: seq<Bit>)
    ensures LowBits(Value(s), |s|) == s
    decreases |s|
  {
    if s != [] {
      LowBitsOfValue(s[..|s| - 1]);
      assert s == s[..|s| - 1] + [s[|s| - 1]];
    }
  }

  lemma ValueBound(s: seq<Bit>)
    ensures Value(s) < Pow(2, |s|)
  {
    FromDigitsBounds(s, 2);
  }

  lemma ZeroBitsValue(n: nat)
    ensures Value(ZeroBits(n)) == 0
  {
    FromZeros(n, 2);
    assert ZeroBits(n) == Zeros(n);
  }

  lemma TwoTo64()
    ensures Pow(2, 64) == TWO64
  {
    assert Pow(2, 8) == 256;
    PowAdd(2, 8, 8);
    PowAdd(2, 16, 16);
    PowAdd(2, 32, 32);
  }

  /** The 64 bits of a word, most significant first. */
  function Bits(w: Word): (s: seq<Bit>)
    ensures |s| == 64
  {
    LowBits(w, 64)
  }

  function FromBits(s: seq<Bit>): (w: Word)
    requires |s| == 64
    ensures Bits(w) == s
  {
    TwoTo64(); ValueBound(s); LowBitsOfValue(s);
    Value(s)
  }

  lemma BitsValue(w: Word)
    ensures Value(Bits(w)) == w
  {
    TwoTo64();
    LowBitsOfSmall(w, 64);
  }

  lemma LowBitsOfSmall(v: nat, k: nat)
    requires v < Pow(2, k)
    ensures Value(LowBits(v, k)) == v
  {
    LowBitsValue(v, k);
    QuotientOfSmall(v, Pow(2, k));
  }

  lemma SameBits(v: Word, w: Word)
    requires Bits(v) == Bits(w)
    ensures v == w
  {
    BitsValue(v);
    BitsValue(w);
  }

  /** Unsigned comparison of words is comparison of their bits from the left. */
  lemma BitsOrder(v: Word, w: Word)
    ensures v < w <==> Below(Bits(v), Bits(w))
  {
    BitsValue(v);
    BitsValue(w);
    NumeralOrder(Bits(v), Bits(w), 2);
  }

  // Go's operators on uint64. A shift by n is n shifts by one, which double or halve the word.

  function Shl(w: Word, n: nat): Word {
    if n == 0 then w else Shl(w, n - 1) * 2 % TWO64
  }

  function Shr(w: Word, n: nat): Word {
    if n == 0 then w else Shr(w, n - 1) / 2
  }

  /** Shifting left is multiplying by a power of two and keeping 64 bits. */
  lemma {:induction false} ShlMultiplies(w: Word, n: nat)
    ensures Shl(w, n) == w * Pow(2, n) % TWO64
  {
    if n == 0 {
      assert Pow(2, 0) == 1;
    } else {
      ShlMultiplies(w, n - 1);
      DoubleAgain(w, Pow(2, n - 1));
    }
  }

  lemma DoubleAgain(w: nat, p: nat)
    ensures w * (2 * p) % TWO64 == w * p % TWO64 * 2 % TWO64
  {
    assert w * (2 * p) == 2 * (w * p);
    TwiceMod(w * p);
  }

  lemma TwiceMod(x: nat)
    ensures 2 * x % TWO64 == x % TWO64 * 2 % TWO64
  {
    var q, r := x / TWO64, x % TWO64;
    var q', r' := 2 * r / TWO64, 2 * r % TWO64;
    DivModUnique(2 * x, TWO64, 2 * q + q', r');
  }

  /** Shifting right is dividing by a power of two, rounding down. */
  lemma {:induction false} ShrDivides(w: Word, n: nat)
    ensures Shr(w, n) == w / Pow(2, n)
  {
    if n == 0 {
      assert Pow(2, 0) == 1;
    } else {
      ShrDivides(w, n - 1);
      var p := Pow(2, n - 1);
      var q, r := w / p, w % p;
      DivModIdentity(w, p);
      assert w == q / 2 * (2 * p) + (q % 2 * p + r) by { Rearrange(q / 2, 2, q % 2, p); MulAssoc(q / 2, 2, p); }
      MulMonotone(q % 2, 1, p);
      DivModUnique(w, 2 * p, q / 2, q % 2 * p + r);
    }
  }

  function Not(w: Word): Word {
    TWO64 - 1 - w
  }

  function And(v: Word, w: Word): Word {
    FromBits(seq(64, i requires 0 <= i < 64 => if Bits(v)[i] == 1 && Bits(w)[i] == 1 then 1 else 0))
  }

  function Or(v: Word, w: Word): Word {
    FromBits(seq(64, i requires 0 <= i < 64 => if Bits(v)[i] == 1 || Bits(w)[i] == 1 then 1 else 0))
  }

  function Xor(v: Word, w: Word): Word {
    FromBits(seq(64, i requires 0 <= i < 64 => if Bits(v)[i] != Bits(w)[i] then 1 else 0))
  }

  function AndNot(v: Word, w: Word): Word {
    And(v, Not(w))
  }

  lemma LogicBits(v: Word, w: Word, i: nat)
    requires i < 64
    ensures Bits(And(v, w))[i] == (if Bits(v)[i] == 1 && Bits(w)[i] == 1 then 1 else 0)
    ensures Bits(Or(v, w))[i] == (if Bits(v)[i] == 1 || Bits(w)[i] == 1 then 1 else 0)
    ensures Bits(Xor(v, w))[i] == (if Bits(v)[i] != Bits(w)[i] then 1 else 0)
  {}

  lemma OrCommutes(v: Word, w: Word)
    ensures Or(v, w) == Or(w, v)
  {
    forall i | 0 <= i < 64 ensures Bits(Or(v, w))[i] == Bits(Or(w, v))[i] {
      LogicBits(v, w, i);
      LogicBits(w, v, i);
    }
    SameBits(Or(v, w), Or(w, v));
  }

  lemma DropHigh(a: nat, b: nat, p: nat, q: nat, m: nat)
    requires p * q == m && b * q < m
    ensures (a * p + b) * q % m == b * q
  {
    assert (a * p) * q == a * (p * q);
    DivModUnique((a * p + b) * q, m, a, b * q);
  }

  lemma SplitValue(w: Word, n: nat)
    requires n <= 64
    ensures w == Value(Bits(w)[..n]) * Pow(2, 64 - n) + Value(Bits(w)[n..])
  {
    BitsValue(w);
    assert Bits(w) == Bits(w)[..n] + Bits(w)[n..];
    FromDigitsConcat(Bits(w)[..n], Bits(w)[n..], 2);
  }

  lemma PadValue(s: seq<Bit>, n: nat)
    ensures Value(s + ZeroBits(n)) == Value(s) * Pow(2, n)
    ensures Value(ZeroBits(n) + s) == Value(s)
  {
    FromDigitsConcat(s, ZeroBits(n), 2);
    FromDigitsConcat(ZeroBits(n), s, 2);
    ZeroBitsValue(n);
  }

  /** A left shift drops bits on the left and brings in zeros on the right. */
  lemma ShlBits(w: Word, n: nat)
    requires n <= 64
    ensures Bits(Shl(w, n)) == Bits(w)[n..] + ZeroBits(n)
  {
    var t := Bits(w)[n..] + ZeroBits(n);
    assert Shl(w, n) == Value(t) by {
      ShlMultiplies(w, n);
      SplitValue(w, n);
      PadValue(Bits(w)[n..], n);
      ValueBound(t);
      TwoTo64();
      PowAdd(2, 64 - n, n);
      DropHigh(Value(Bits(w)[..n]), Value(Bits(w)[n..]), Pow(2, 64 - n), Pow(2, n), TWO64);
    }
    LowBitsOfValue(t);
  }

  /** A right shift drops bits on the right and brings in zeros on the left. */
  lemma ShrBits(w: Word, n: nat)
    requires n <= 64
    ensures Bits(Shr(w, n)) == ZeroBits(n) + Bits(w)[..64 - n]
  {
    var h, l := Bits(w)[..64 - n], Bits(w)[64 - n..];
    var t := ZeroBits(n) + h;
    assert Shr(w, n) == Value(t) by {
      ShrDivides(w, n);
      SplitValue(w, 64 - n);
      ValueBound(l);
      DivModUnique(w, Pow(2, n), Value(h), Value(l));
      PadValue(h, n);
    }
    LowBitsOfValue(t);
  }

  lemma ShlBit(w: Word, n: nat, i: nat)
    requires n <= 64 && i < 64
    ensures Bits(Shl(w, n))[i] == if i + n < 64 then Bits(w)[i + n] else 0
  {
    ShlBits(w, n);
  }

  lemma ShrBit(w: Word, n: nat, i: nat)
    requires n <= 64 && i < 64
    ensures Bits(Shr(w, n))[i] == if i >= n then Bits(w)[i - n] else 0
  {
    ShrBits(w, n);
  }

  lemma NotBits(w: Word, i: nat)
    requires i < 64
    ensures Bits(Not(w))[i] == 1 - Bits(w)[i]
  {
    TwoTo64();
    LowBitsComplement(w, 64, i);
  }

  lemma {:induction false} LowBitsComplement(v: nat, k: nat, i: nat)
    requires v < Pow(2, k) && i < k
    ensures LowBits(Pow(2, k) - 1 - v, k)[i] == 1 - LowBits(v, k)[i]
    decreases k
  {
    var p := Pow(2, k - 1);
    assert Pow(2, k) == 2 * p;
    assert (2 * p - 1 - v) / 2 == p - 1 - v / 2 && (2 * p - 1 - v) % 2 == 1 - v % 2;
    if i < k - 1 { LowBitsComplement(v / 2, k - 1, i); }
  }

  lemma ZeroWordBits()
    ensures Bits(0) == ZeroBits(64)
  {
    ZeroBitsValue(64);
    LowBitsOfValue(ZeroBits(64));
  }

  lemma OnesBit(i: nat)
    requires i < 64
    ensures Bits(TWO64 - 1)[i] == 1
  {
    ZeroWordBits();
    NotBits(0, i);
  }

  lemma {:induction false} LowBitsSuffix(v: nat, n: nat, k: nat)
    requires k <= n
    ensures LowBits(v, n)[n - k..] == LowBits(v, k)
    decreases n
  {
    if 0 < k < n {
      LowBitsSuffix(v / 2, n - 1, k - 1);
      assert LowBits(v, n)[n - k..] == LowBits(v / 2, n - 1)[n - k..] + [v % 2];
    }
  }

  /** The word whose low k bits are set. */
  lemma LowMask(k: nat)
    requires k <= 64
    ensures Shr(TWO64 - 1, 64 - k) == Pow(2, k) - 1
  {
    var p, q := Pow(2, k), Pow(2, 64 - k);
    TwoTo64();
    PowAdd(2, k, 64 - k);
    ShrDivides(TWO64 - 1, 64 - k);
    Rearrange(p - 1, 1, 1, q);
    DivModUnique(TWO64 - 1, q, p - 1, q - 1);
  }

  /** Keeping the low k bits of a word gives the number its last k bits denote. */
  lemma AndLowMask(v: Word, k: nat)
    requires k <= 64
    ensures And(v, Shr(TWO64 - 1, 64 - k)) == Value(Bits(v)[64 - k..])
    ensures Bits(And(v, Shr(TWO64 - 1, 64 - k))) == ZeroBits(64 - k) + Bits(v)[64 - k..]
  {
    var m := Shr(TWO64 - 1, 64 - k);
    var masked, kept := Bits(And(v, m)), ZeroBits(64 - k) + Bits(v)[64 - k..];
    forall i | 0 <= i < 64 ensures masked[i] == kept[i] {
      LogicBits(v, m, i);
      ShrBit(TWO64 - 1, 64 - k, i);
      if i >= 64 - k { OnesBit(i - (64 - k)); }
    }
    assert masked == kept;
    BitsValue(And(v, m));
    PadValue(Bits(v)[64 - k..], 64 - k);
  }

  /** A number of at most k bits, as a word, is k bits behind zeros. */
  lemma ShortBits(v: nat, k: nat, i: nat)
    requires k <= 64 && v < Pow(2, k) && i < 64
    ensures v < TWO64
    ensures Bits(v)[i] == if i < 64 - k then 0 else LowBits(v, k)[i - (64 - k)]
  {
    ShortIsWord(v, k);
    ShortValue(v, k);
    LowBitsOfValue(ZeroBits(64 - k) + LowBits(v, k));
  }

  lemma ShortIsWord(v: nat, k: nat)
    requires k <= 64 && v < Pow(2, k)
    ensures v < TWO64
  {
    TwoTo64();
    PowMonotone(2, k, 64);
  }

  lemma ShortValue(v: nat, k: nat)
    requires k <= 64 && v < Pow(2, k)
    ensures Value(ZeroBits(64 - k) + LowBits(v, k)) == v
  {
    LowBitsOfSmall(v, k);
    PadValue(LowBits(v, k), 64 - k);
  }

  lemma QuotientOfSmall(v: nat, p: nat)
    requires v < p
    ensures v % p == v
  {
    DivModUnique(v, p, 0, v);
  }

  /** The word with the single bit 1 << n. */
  lemma OneShifted(n: nat, i: nat)
    requires n < 64 && i < 64
    ensures Bits(Shl(1, n))[i] == if i == 63 - n then 1 else 0
  {
    ShlBit(1, n, i);
    if i + n < 64 { OneBits(i + n); }
  }

  lemma OneBits(i: nat)
    requires i < 64
    ensures Bits(1)[i] == if i == 63 then 1 else 0
  {
    assert Pow(2, 1) == 2;
    ShortBits(1, 1, i);
  }

  /** A word is zero when all its bits are. */
  lemma ZeroWord(w: Word)
    ensures w == 0 <==> forall i :: 0 <= i < 64 ==> Bits(w)[i] == 0
  {
    ZeroWordBits();
    if forall i :: 0 <= i < 64 ==> Bits(w)[i] == 0 {
      assert Bits(w) == Bits(0);
      SameBits(w, 0);
    }
  }

  // The bit-counting functions of Go's math/bits. Bits are numbered from the low end here.

  predicate Lsb(w: Word, i: nat)
    requires i < 64
  {
    Bits(w)[63 - i] == 1
  }

  /** Bit i is the parity of what shifting by i leaves. */
  lemma LsbParity(w: Word, i: nat)
    requires i < 64
    ensures Lsb(w, i) <==> w / Pow(2, i) % 2 == 1
  {
    ShrDivides(w, i);
    ShrBit(w, i, 63);
    assert Bits(Shr(w, i))[63] == Shr(w, i) % 2;
  }

  function TrailingZerosFrom(w: Word, k: nat): (n: nat)
    requires k <= 64
    ensures k <= n <= 64 && (n < 64 ==> Lsb(w, n))
    ensures forall i :: k <= i < n ==> !Lsb(w, i)
    decreases 64 - k
  {
    if k == 64 || Lsb(w, k) then k else TrailingZerosFrom(w, k + 1)
  }

  /** The number of zero bits below the lowest set bit; 64 for zero. */
  function TrailingZeros(w: Word): (n: nat)
    ensures n <= 64 && (n < 64 ==> Lsb(w, n))
    ensures forall i :: 0 <= i < n ==> !Lsb(w, i)
  {
    TrailingZerosFrom(w, 0)
  }

  function LeadingZerosFrom(w: Word, k: nat): (n: nat)
    requires k <= 64
    ensures k <= n <= 64 && (n < 64 ==> Bits(w)[n] == 1)
    ensures forall i :: k <= i < n ==> Bits(w)[i] == 0
    decreases 64 - k
  {
    if k == 64 || Bits(w)[k] == 1 then k else LeadingZerosFrom(w, k + 1)
  }

  /** The number of zero bits above the highest set bit; 64 for zero. */
  function LeadingZeros(w: Word): (n: nat)
    ensures n <= 64 && (n < 64 ==> Bits(w)[n] == 1)
    ensures forall i :: 0 <= i < n ==> Bits(w)[i] == 0
  {
    LeadingZerosFrom(w, 0)
  }

  function OnesBelow(w: Word, k: nat): (n: nat)
    requires k <= 64
    ensures n <= k
  {
    if k == 0 then 0 else OnesBelow(w, k - 1) + if Lsb(w, k - 1) then 1 else 0
  }

  /** The number of set bits. */
  function OnesCount(w: Word): (n: nat)
    ensures n <= 64
  {
    OnesBelow(w, 64)
  }

  lemma LsbSet(w: Word, n: nat, i: nat)
    requires n < 64 && i < 64
    ensures Lsb(Or(w, Shl(1, n)), i) <==> Lsb(w, i) || i == n
  {
    OneShifted(n, 63 - i);
    LogicBits(w, Shl(1, n), 63 - i);
  }

  lemma LsbClear(w: Word, n: nat, i: nat)
    requires n < 64 && i < 64
    ensures Lsb(AndNot(w, Shl(1, n)), i) <==> Lsb(w, i) && i != n
  {
    OneShifted(n, 63 - i);
    NotBits(Shl(1, n), 63 - i);
    LogicBits(w, Not(Shl(1, n)), 63 - i);
  }

  /** Masking with 1 << n tests bit n. */
  lemma LsbTest(w: Word, n: nat)
    requires n < 64
    ensures And(w, Shl(1, n)) != 0 <==> Lsb(w, n)
  {
    var m := And(w, Shl(1, n));
    ZeroWord(m);
    forall i | 0 <= i < 64 ensures Bits(m)[i] == if i == 63 - n then Bits(w)[i] else 0 {
      LogicBits(w, Shl(1, n), i);
      OneShifted(n, i);
    }
    assert Bits(m)[63 - n] == Bits(w)[63 - n];
  }

  lemma LsbShr(w: Word, n: nat, i: nat)
    requires n <= 64 && i < 64
    ensures Lsb(Shr(w, n), i) <==> i + n < 64 && Lsb(w, i + n)
  {
    ShrBit(w, n, 63 - i);
  }

  /** 1 << n minus one, in 64 bits, also for n = 64. */
  function LowOnes(n: nat): Word
    requires n <= 64
  {
    (Shl(1, n) - 1) % TWO64
  }

  lemma LowOnesBit(n: nat, i: nat)
    requires n <= 64 && i < 64
    ensures Lsb(LowOnes(n), i) <==> i < n
  {
    assert LowOnes(n) == Shr(TWO64 - 1, 64 - n) by { LowOnesIsMask(n); }
    ShrBit(TWO64 - 1, 64 - n, 63 - i);
    if i < n { OnesBit(63 - i - (64 - n)); }
  }

  lemma LowOnesIsMask(n: nat)
    requires n <= 64
    ensures LowOnes(n) == Shr(TWO64 - 1, 64 - n)
  {
    LowMask(n);
    assert Shl(1, n) == Pow(2, n) % TWO64 by { ShlMultiplies(1, n); }
    LessOneMod(Pow(2, n)) by { TwoTo64(); PowMonotone(2, n, 64); }
  }

  lemma LessOneMod(p: nat)
    requires 0 < p <= TWO64
    ensures (p % TWO64 - 1) % TWO64 == p - 1
  {}
}
