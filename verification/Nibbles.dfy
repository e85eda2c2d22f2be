/** Words read as sixteen groups of four bits, the small form of a FastIntMap. */
module Nibbles {
  import opened Digits
  import opened Words
  import opened Machine

  const MASK: Word := 15

  /** Masks the low bit of each group. */
  const GROUP_LOW_BIT_MASK: Word := 0x1111_1111_1111_1111

  function BitNumber(w: Word, i: nat): nat
    requires i < 64
  {
    if Lsb(w, i) then 1 else 0
  }

  /** The value of group p, counted from the low end. */
  function Nibble(w: Word, p: nat): (n: nat)
    requires p < 16
    ensures n < 16
    ensures n == 0 <==> !Lsb(w, 4 * p) && !Lsb(w, 4 * p + 1) && !Lsb(w, 4 * p + 2) && !Lsb(w, 4 * p + 3)
  {
    BitNumber(w, 4 * p) + 2 * BitNumber(w, 4 * p + 1) + 4 * BitNumber(w, 4 * p + 2) + 8 * BitNumber(w, 4 * p + 3)
  }

  /** getSmallVal's shift and mask, before the offset of one. */
  function GetGroup(w: Word, pos: nat): Word
    requires pos <= 64
  {
    And(Shr(w, pos), MASK)
  }

  /** setSmallVal's clearing mask followed by the shifted value. */
  function PutGroup(w: Word, pos: nat, v: Word): Word
    requires pos <= 64
  {
    Or(And(w, Not(Shl(MASK, pos))), Shl(v, pos))
  }

  lemma FourBits(s: seq<Bit>)
    requires |s| == 4
    ensures Value(s) == 8 * (s[0] as int) + 4 * (s[1] as int) + 2 * (s[2] as int) + (s[3] as int)
  {
    FromDigitsSnoc([], s[0], 2);
    FromDigitsSnoc(s[..1], s[1], 2);
    FromDigitsSnoc(s[..2], s[2], 2);
    FromDigitsSnoc(s[..3], s[3], 2);
    assert s[..1] == [] + [s[0]] && s[..2] == s[..1] + [s[1]];
    assert s[..3] == s[..2] + [s[2]] && s == s[..3] + [s[3]];
    assert FromDigits([], 2) == 0;
  }

  lemma MaskIsLow()
    ensures MASK == Shr(TWO64 - 1, 60)
  {
    LowMask(4);
    assert Pow(2, 4) == 16;
  }

  lemma LowNibble(w: Word)
    ensures And(w, MASK) == Nibble(w, 0)
  {
    MaskIsLow();
    AndLowMask(w, 4);
    FourBits(Bits(w)[60..]);
  }

  lemma GetGroupIsNibble(w: Word, p: nat)
    requires p < 16
    ensures GetGroup(w, 4 * p) == Nibble(w, p)
  {
    LowNibble(Shr(w, 4 * p));
    LsbShr(w, 4 * p, 0);
    LsbShr(w, 4 * p, 1);
    LsbShr(w, 4 * p, 2);
    LsbShr(w, 4 * p, 3);
  }

  /** A value below 16 is its own lowest group and has no higher bits. */
  lemma SmallNibble(v: nat, i: nat)
    requires v < 16 && i < 64
    ensures Nibble(v, 0) == v
    ensures i >= 4 ==> !Lsb(v, i)
  {
    assert Pow(2, 4) == 16;
    ShortBits(v, 4, 63 - i);
    OwnValue(v);
    FourBits(Bits(v)[60..]);
  }

  lemma OwnValue(v: nat)
    requires v < 16
    ensures Value(Bits(v)[60..]) == v
  {
    assert Bits(v)[60..] == LowBits(v, 4) by { LowBitsSuffix(v, 64, 4); }
    LowBitsValue(v, 4);
    assert Pow(2, 4) == 16;
    QuotientOfSmall(v, 16);
  }

  lemma ShiftedLsb(v: Word, n: nat, i: nat)
    requires n <= 64 && i < 64
    ensures Lsb(Shl(v, n), i) <==> i >= n && Lsb(v, i - n)
  {
    ShlBit(v, n, 63 - i);
  }

  lemma MaskLsb(i: nat)
    requires i < 64
    ensures Lsb(MASK, i) <==> i < 4
  {
    LowOnesBit(4, i);
    LowOnesIsMask(4);
    MaskIsLow();
  }

  lemma PutGroupBit(w: Word, p: nat, v: nat, i: nat)
    requires p < 16 && v < 16 && i < 64
    ensures Lsb(PutGroup(w, 4 * p, v), i) <==> if 4 * p <= i < 4 * p + 4 then Lsb(v, i - 4 * p) else Lsb(w, i)
  {
    var m := Shl(MASK, 4 * p);
    assert Lsb(m, i) <==> 4 * p <= i < 4 * p + 4 by {
      ShiftedLsb(MASK, 4 * p, i);
      if i >= 4 * p { MaskLsb(i - 4 * p); }
    }
    ShiftedLsb(v, 4 * p, i);
    if i >= 4 * p { SmallNibble(v, i - 4 * p); }
    ClearedBit(w, m, Shl(v, 4 * p), i);
  }

  lemma ClearedBit(w: Word, m: Word, v: Word, i: nat)
    requires i < 64
    ensures Lsb(Or(And(w, Not(m)), v), i) <==> (Lsb(w, i) && !Lsb(m, i)) || Lsb(v, i)
  {
    LogicBits(And(w, Not(m)), v, 63 - i);
    LogicBits(w, Not(m), 63 - i);
    NotBits(m, 63 - i);
  }

  /** Writing a group changes that group alone. */
  lemma PutGroupNibble(w: Word, p: nat, v: nat, q: nat)
    requires p < 16 && q < 16 && v < 16
    ensures Nibble(PutGroup(w, 4 * p, v), q) == if q == p then v else Nibble(w, q)
  {
    var r := PutGroup(w, 4 * p, v);
    forall j | 0 <= j < 4
      ensures BitNumber(r, 4 * q + j) == if q == p then BitNumber(v, j) else BitNumber(w, 4 * q + j)
    {
      PutGroupBit(w, p, v, 4 * q + j);
    }
    assert BitNumber(r, 4 * q + 0) == if q == p then BitNumber(v, 0) else BitNumber(w, 4 * q + 0);
    SmallNibble(v, 0);
  }

  lemma ZeroNibbles(w: Word)
    ensures w == 0 <==> forall p :: 0 <= p < 16 ==> Nibble(w, p) == 0
  {
    ZeroWord(w);
    if forall p :: 0 <= p < 16 ==> Nibble(w, p) == 0 {
      forall i | 0 <= i < 64 ensures Bits(w)[i] == 0 {
        var k := 63 - i;
        assert Nibble(w, k / 4) == 0;
        assert k == 4 * (k / 4) || k == 4 * (k / 4) + 1 || k == 4 * (k / 4) + 2 || k == 4 * (k / 4) + 3;
      }
    }
    if w == 0 {
      forall p | 0 <= p < 16 ensures Nibble(w, p) == 0 {
        assert !Lsb(w, 4 * p) && !Lsb(w, 4 * p + 1) && !Lsb(w, 4 * p + 2) && !Lsb(w, 4 * p + 3);
      }
    }
  }

  /** The leading zeros of a word give its highest non-zero group. */
  lemma HighestNibble(w: Word, q: nat)
    requires w != 0 && q < 16
    ensures var pos := 15 - LeadingZeros(w) / 4;
            0 <= pos < 16 && Nibble(w, pos) != 0 && (q > pos ==> Nibble(w, q) == 0)
  {
    var n := LeadingZeros(w);
    ZeroWord(w);
    assert n < 64;
    var k, pos := 63 - n, 15 - n / 4;
    assert Lsb(w, k);
    assert k == 4 * pos || k == 4 * pos + 1 || k == 4 * pos + 2 || k == 4 * pos + 3;
    if q > pos {
      assert !Lsb(w, 4 * q) && !Lsb(w, 4 * q + 1) && !Lsb(w, 4 * q + 2) && !Lsb(w, 4 * q + 3);
    }
  }

  ghost predicate IsHighestNibble(w: Word, pos: int) {
    0 <= pos < 16 && Nibble(w, pos) != 0 && forall q :: pos < q < 16 ==> Nibble(w, q) == 0
  }

  lemma LeadingZerosGiveHighest(w: Word)
    requires w != 0
    ensures IsHighestNibble(w, 15 - LeadingZeros(w) / 4)
  {
    HighestNibble(w, 0);
    forall q | 0 <= q < 16 ensures q > 15 - LeadingZeros(w) / 4 ==> Nibble(w, q) == 0 { HighestNibble(w, q); }
  }

  /** One step of the fold: every bit or-ed with the one i places above it. */
  function Fold(v: Word, i: nat): Word
    requires i <= 64
  {
    Or(v, Shr(v, i))
  }

  lemma FoldBit(v: Word, n: nat, i: nat)
    requires n <= 64 && i < 64
    ensures Lsb(Fold(v, n), i) <==> Lsb(v, i) || (i + n < 64 && Lsb(v, i + n))
  {
    LogicBits(v, Shr(v, n), 63 - i);
    LsbShr(v, n, i);
  }

  /** After folding by two and by one, the low bit of a group says whether the group is used. */
  lemma FoldedGroup(w: Word, p: nat)
    requires p < 16
    ensures Lsb(Fold(Fold(w, 2), 1), 4 * p) <==> Nibble(w, p) != 0
  {
    FoldBit(Fold(w, 2), 1, 4 * p);
    FoldBit(w, 2, 4 * p);
    FoldBit(w, 2, 4 * p + 1);
  }

  /** The number with n hexadecimal digits 1. */
  function Repunit(n: nat): nat {
    if n == 0 then 0 else 16 * Repunit(n - 1) + 1
  }

  lemma {:induction false} RepunitBits(n: nat, i: nat)
    requires i < 4 * n
    ensures LowBits(Repunit(n), 4 * n)[4 * n - 1 - i] == if i % 4 == 0 then 1 else 0
    decreases n
  {
    var r, k := Repunit(n - 1), 4 * n;
    var v := Repunit(n);
    assert v / 2 == 8 * r && v / 2 / 2 == 4 * r && v / 2 / 2 / 2 == 2 * r && v / 2 / 2 / 2 / 2 == r;
    assert LowBits(v, k) == LowBits(8 * r, k - 1) + [1];
    assert LowBits(8 * r, k - 1) == LowBits(4 * r, k - 2) + [0];
    assert LowBits(4 * r, k - 2) == LowBits(2 * r, k - 3) + [0];
    assert LowBits(2 * r, k - 3) == LowBits(r, k - 4) + [0];
    if i >= 4 { RepunitBits(n - 1, i - 4); }
  }

  lemma GroupMaskBit(i: nat)
    requires i < 64
    ensures Lsb(GROUP_LOW_BIT_MASK, i) <==> i % 4 == 0
  {
    assert Repunit(4) == 0x1111;
    assert Repunit(8) == 0x1111_1111;
    assert Repunit(12) == 0x1111_1111_1111;
    assert Repunit(16) == GROUP_LOW_BIT_MASK;
    RepunitBits(16, i);
  }

  /** The number of groups in use among the first p. */
  function UsedBelow(w: Word, p: nat): nat
    requires p <= 16
  {
    if p == 0 then 0 else UsedBelow(w, p - 1) + if Nibble(w, p - 1) != 0 then 1 else 0
  }

  lemma MaskedFoldBit(w: Word, q: nat, r: nat, i: nat)
    requires q < 16 && r < 4 && i == 4 * q + r
    ensures Lsb(And(Fold(Fold(w, 2), 1), GROUP_LOW_BIT_MASK), i) <==> r == 0 && Nibble(w, q) != 0
  {
    LogicBits(Fold(Fold(w, 2), 1), GROUP_LOW_BIT_MASK, 63 - i);
    assert Lsb(GROUP_LOW_BIT_MASK, i) <==> r == 0 by { GroupMaskBit(i); DivModUnique(i, 4, q, r); }
    if r == 0 { FoldedGroup(w, q); }
  }

  lemma FourBelow(v: Word, i: nat)
    requires i + 4 <= 64 && !Lsb(v, i + 1) && !Lsb(v, i + 2) && !Lsb(v, i + 3)
    ensures OnesBelow(v, i + 4) == OnesBelow(v, i) + if Lsb(v, i) then 1 else 0
  {
    assert OnesBelow(v, i + 4) == OnesBelow(v, i + 3);
    assert OnesBelow(v, i + 3) == OnesBelow(v, i + 2);
    assert OnesBelow(v, i + 2) == OnesBelow(v, i + 1);
  }

  /** The low bit of group q of v says whether group q of w is used; its other bits are clear. */
  ghost predicate Tells(v: Word, w: Word, q: nat)
    requires q < 16
  {
    && (Lsb(v, 4 * q) <==> Nibble(w, q) != 0)
    && !Lsb(v, 4 * q + 1) && !Lsb(v, 4 * q + 2) && !Lsb(v, 4 * q + 3)
  }

  lemma FoldedTells(w: Word, q: nat)
    requires q < 16
    ensures Tells(And(Fold(Fold(w, 2), 1), GROUP_LOW_BIT_MASK), w, q)
  {
    MaskedFoldBit(w, q, 0, 4 * q);
    MaskedFoldBit(w, q, 1, 4 * q + 1);
    MaskedFoldBit(w, q, 2, 4 * q + 2);
    MaskedFoldBit(w, q, 3, 4 * q + 3);
  }

  lemma {:induction false} CountGroups(v: Word, w: Word, p: nat)
    requires p <= 16 && forall q :: 0 <= q < 16 ==> Tells(v, w, q)
    ensures OnesBelow(v, 4 * p) == UsedBelow(w, p)
  {
    if p > 0 {
      CountGroups(v, w, p - 1);
      assert Tells(v, w, p - 1);
      FourBelow(v, 4 * (p - 1));
    }
  }

  /** Fold, mask and popcount give the number of groups in use. */
  lemma PopcountOfGroups(w: Word)
    ensures OnesCount(And(Fold(Fold(w, 2), 1), GROUP_LOW_BIT_MASK)) == UsedBelow(w, 16)
  {
    var v := And(Fold(Fold(w, 2), 1), GROUP_LOW_BIT_MASK);
    forall q | 0 <= q < 16 ensures Tells(v, w, q) { FoldedTells(w, q); }
    CountGroups(v, w, 16);
  }
}
