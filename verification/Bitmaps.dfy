/** The 128-bit bitmap of fast_int_set.go and the set of small integers it stands for. */
module Bitmaps {
  import opened Words
  import opened Machine

  const SMALL_CUTOFF := 128

  datatype Bitmap = Bitmap(lo: Word, hi: Word) {
    /** Bit i of the pair of words. */
    predicate Has(i: int) {
      0 <= i < 128 && if i < 64 then Lsb(lo, i) else Lsb(hi, i - 64)
    }

    function Elements(): (s: set<Int64>)
      ensures forall i: Int64 :: i in s <==> Has(i)
    {
      set i: Int64 | 0 <= i < 128 && Has(i)
    }

    predicate IsSet(i: nat)
      requires i < 128
    {
      And(if i >= 64 then hi else lo, Shl(1, i % 64)) != 0
    }

    function Set(i: nat): Bitmap
      requires i < 128
    {
      if i < 64 then Bitmap(Or(lo, Shl(1, i)), hi) else Bitmap(lo, Or(hi, Shl(1, i % 64)))
    }

    function Unset(i: nat): Bitmap
      requires i < 128
    {
      if i < 64 then Bitmap(AndNot(lo, Shl(1, i)), hi) else Bitmap(lo, AndNot(hi, Shl(1, i % 64)))
    }

    function SetRange(from: nat, to: nat): Bitmap
      requires from <= to < 128
    {
      if to < 64 then Bitmap(Or(lo, Mask(from, to)), hi)
      else if from >= 64 then Bitmap(lo, Or(hi, Mask(from % 64, to % 64)))
      else Bitmap(Or(lo, Mask(from, 63)), Or(hi, Mask(0, to % 64)))
    }

    function UnionWith(other: Bitmap): Bitmap {
      Bitmap(Or(lo, other.lo), Or(hi, other.hi))
    }

    function IntersectionWith(other: Bitmap): Bitmap {
      Bitmap(And(lo, other.lo), And(hi, other.hi))
    }

    function DifferenceWith(other: Bitmap): Bitmap {
      Bitmap(AndNot(lo, other.lo), AndNot(hi, other.hi))
    }

    predicate Intersects(other: Bitmap) {
      Or(And(lo, other.lo), And(hi, other.hi)) != 0
    }

    predicate SubsetOf(other: Bitmap) {
      And(lo, other.lo) == lo && And(hi, other.hi) == hi
    }

    function Count(): nat {
      OnesCount(lo) + OnesCount(hi)
    }

    /** The first element from start on, or -1 and false. */
    function Next(start: nat): (int, bool)
      requires start < 128
    {
      var low := if start < 64 then TrailingZeros(Shr(lo, start)) else 64;
      if low < 64 then (start + low, true)
      else
        var from := if start < 64 then 64 else start;
        var high := TrailingZeros(Shr(hi, from % 64));
        if high < 64 then (from + high, true) else (-1, false)
    }
  }

  const NO_BITS := Bitmap(0, 0)

  /** The bits from..to of a word. */
  function Mask(from: nat, to: nat): Word
    requires from <= to < 64
  {
    Shl(LowOnes(to - from + 1), from)
  }

  lemma MaskBit(from: nat, to: nat, i: nat)
    requires from <= to < 64 && i < 64
    ensures Lsb(Mask(from, to), i) <==> from <= i <= to
  {
    ShlBit(LowOnes(to - from + 1), from, 63 - i);
    if i >= from { LowOnesBit(to - from + 1, i - from); }
  }

  lemma ElementsOfNone()
    ensures NO_BITS.Elements() == {}
  {
    ZeroWordBits();
  }

  lemma EmptyIsZero(b: Bitmap)
    ensures b.Elements() == {} <==> b == NO_BITS
  {
    ZeroWord(b.lo);
    ZeroWord(b.hi);
    if b.Elements() == {} {
      forall i | 0 <= i < 64 ensures Bits(b.lo)[i] == 0 && Bits(b.hi)[i] == 0 {
        assert !b.Has(63 - i) && !b.Has(127 - i);
      }
    }
  }

  lemma IsSetHas(b: Bitmap, i: nat)
    requires i < 128
    ensures b.IsSet(i) <==> b.Has(i)
  {
    var w, n := if i >= 64 then b.hi else b.lo, i % 64;
    assert n == if i >= 64 then i - 64 else i;
    LsbTest(w, n);
    assert b.Has(i) <==> Lsb(w, n);
  }

  lemma IsSetElements(b: Bitmap, i: nat)
    requires i < 128
    ensures b.IsSet(i) <==> i in b.Elements()
  {
    IsSetHas(b, i);
  }

  lemma SetHas(b: Bitmap, i: nat, x: int)
    requires i < 128
    ensures b.Set(i).Has(x) <==> b.Has(x) || x == i
    ensures b.Unset(i).Has(x) <==> b.Has(x) && x != i
  {
    if i < 64 {
      if 0 <= x < 64 { LsbSet(b.lo, i, x); LsbClear(b.lo, i, x); }
    } else {
      assert i % 64 == i - 64;
      if 64 <= x < 128 { LsbSet(b.hi, i - 64, x - 64); LsbClear(b.hi, i - 64, x - 64); }
    }
  }

  lemma SetElements(b: Bitmap, i: nat)
    requires i < 128
    ensures b.Set(i).Elements() == b.Elements() + {i}
    ensures b.Unset(i).Elements() == b.Elements() - {i}
  {
    forall x: Int64
      ensures b.Set(i).Has(x) <==> b.Has(x) || x == i
      ensures b.Unset(i).Has(x) <==> b.Has(x) && x != i
    {
      SetHas(b, i, x);
    }
  }

  lemma OrBit(v: Word, w: Word, i: nat)
    requires i < 64
    ensures Lsb(Or(v, w), i) <==> Lsb(v, i) || Lsb(w, i)
    ensures Lsb(And(v, w), i) <==> Lsb(v, i) && Lsb(w, i)
    ensures Lsb(AndNot(v, w), i) <==> Lsb(v, i) && !Lsb(w, i)
  {
    LogicBits(v, w, 63 - i);
    NotBits(w, 63 - i);
    LogicBits(v, Not(w), 63 - i);
  }

  /** Or-ing a mask into a word adds its bits. */
  lemma MaskedIn(w: Word, from: nat, to: nat, i: nat)
    requires from <= to < 64 && i < 64
    ensures Lsb(Or(w, Mask(from, to)), i) <==> Lsb(w, i) || from <= i <= to
  {
    MaskBit(from, to, i);
    OrBit(w, Mask(from, to), i);
  }

  lemma SetRangeHas(b: Bitmap, from: nat, to: nat, x: int)
    requires from <= to < 128
    ensures b.SetRange(from, to).Has(x) <==> b.Has(x) || from <= x <= to
  {
    if to < 64 {
      if 0 <= x < 64 { MaskedIn(b.lo, from, to, x); }
    } else if from >= 64 {
      assert from % 64 == from - 64 && to % 64 == to - 64;
      if 64 <= x < 128 { MaskedIn(b.hi, from - 64, to - 64, x - 64); }
    } else {
      assert to % 64 == to - 64;
      if 0 <= x < 64 { MaskedIn(b.lo, from, 63, x); }
      if 64 <= x < 128 { MaskedIn(b.hi, 0, to - 64, x - 64); }
    }
  }

  lemma SetRangeElements(b: Bitmap, from: nat, to: nat)
    requires from <= to < 128
    ensures forall x: Int64 :: x in b.SetRange(from, to).Elements() <==> x in b.Elements() || from <= x <= to
  {
    forall x: Int64 ensures b.SetRange(from, to).Has(x) <==> b.Has(x) || from <= x <= to {
      SetRangeHas(b, from, to, x);
    }
  }

  lemma CombinedHas(a: Bitmap, b: Bitmap, x: int)
    ensures a.UnionWith(b).Has(x) <==> a.Has(x) || b.Has(x)
    ensures a.IntersectionWith(b).Has(x) <==> a.Has(x) && b.Has(x)
    ensures a.DifferenceWith(b).Has(x) <==> a.Has(x) && !b.Has(x)
  {
    if 0 <= x < 64 { OrBit(a.lo, b.lo, x); }
    if 64 <= x < 128 { OrBit(a.hi, b.hi, x - 64); }
  }

  lemma CombinedElements(a: Bitmap, b: Bitmap)
    ensures a.UnionWith(b).Elements() == a.Elements() + b.Elements()
    ensures a.IntersectionWith(b).Elements() == a.Elements() * b.Elements()
    ensures a.DifferenceWith(b).Elements() == a.Elements() - b.Elements()
  {
    forall x: Int64
      ensures a.UnionWith(b).Has(x) <==> a.Has(x) || b.Has(x)
      ensures a.IntersectionWith(b).Has(x) <==> a.Has(x) && b.Has(x)
      ensures a.DifferenceWith(b).Has(x) <==> a.Has(x) && !b.Has(x)
    {
      CombinedHas(a, b, x);
    }
  }

  lemma OrZero(v: Word, w: Word)
    ensures Or(v, w) == 0 <==> v == 0 && w == 0
  {
    ZeroWord(v);
    ZeroWord(w);
    ZeroWord(Or(v, w));
    forall i | 0 <= i < 64 ensures Bits(Or(v, w))[i] == 0 <==> Bits(v)[i] == 0 && Bits(w)[i] == 0 {
      LogicBits(v, w, i);
    }
  }

  lemma IntersectsElements(a: Bitmap, b: Bitmap)
    ensures a.Intersects(b) <==> a.Elements() * b.Elements() != {}
  {
    OrZero(And(a.lo, b.lo), And(a.hi, b.hi));
    CombinedElements(a, b);
    EmptyIsZero(a.IntersectionWith(b));
  }

  /** Bitmaps with the same elements are the same. */
  lemma SameElements(a: Bitmap, b: Bitmap)
    ensures a == b <==> a.Elements() == b.Elements()
  {
    if a.Elements() == b.Elements() {
      forall i | 0 <= i < 64 ensures Bits(a.lo)[i] == Bits(b.lo)[i] && Bits(a.hi)[i] == Bits(b.hi)[i] {
        assert a.Has(63 - i) == b.Has(63 - i) by { assert 63 - i in a.Elements() <==> 63 - i in b.Elements(); }
        assert a.Has(127 - i) == b.Has(127 - i) by { assert 127 - i in a.Elements() <==> 127 - i in b.Elements(); }
      }
      SameBits(a.lo, b.lo);
      SameBits(a.hi, b.hi);
    }
  }

  lemma SubsetOfElements(a: Bitmap, b: Bitmap)
    ensures a.SubsetOf(b) <==> a.Elements() <= b.Elements()
  {
    CombinedElements(a, b);
    SameElements(a.IntersectionWith(b), a);
    assert a.Elements() * b.Elements() == a.Elements() <==> a.Elements() <= b.Elements();
  }

  /** Counting zeros from bit start on finds the next set bit, or that there is none. */
  lemma NextInWord(w: Word, start: nat, i: nat)
    requires start < 64 && start <= i < 64
    ensures var n := TrailingZeros(Shr(w, start));
            (n < 64 ==> start + n < 64 && Lsb(w, start + n)) && (n == 64 || i < start + n ==> !Lsb(w, i))
  {
    var n := TrailingZeros(Shr(w, start));
    LsbShr(w, start, i - start);
    if n < 64 { LsbShr(w, start, n); }
  }

  /** Next is the least element from start on: i is one that it may have skipped. */
  ghost predicate SkipsNone(b: Bitmap, start: nat, i: nat)
    requires start < 128
  {
    var (r, ok) := b.Next(start);
    && (ok ==> start <= r < 128 && b.Has(r))
    && (!ok || i < r ==> !b.Has(i))
  }

  lemma NextElement(b: Bitmap, start: nat, i: nat)
    requires start < 128 && start <= i < 128
    ensures SkipsNone(b, start, i)
  {
    if start < 64 { NextFromLow(b, start, i); } else { NextFromHigh(b, start, i); }
  }

  lemma NextFromLow(b: Bitmap, start: nat, i: nat)
    requires start < 64 && start <= i < 128
    ensures SkipsNone(b, start, i)
  {
    NextInWord(b.lo, start, if i < 64 then i else start);
    if TrailingZeros(Shr(b.lo, start)) == 64 { NextInWord(b.hi, 0, if i < 64 then 0 else i - 64); }
  }

  lemma NextFromHigh(b: Bitmap, start: nat, i: nat)
    requires 64 <= start < 128 && start <= i < 128
    ensures SkipsNone(b, start, i)
  {
    assert start % 64 == start - 64;
    NextInWord(b.hi, start - 64, i - 64);
  }

  function ElementsBelow(b: Bitmap, k: nat): set<Int64>
    requires k <= 128
  {
    set i: Int64 | 0 <= i < k && b.Has(i)
  }

  lemma OneMoreBelow(b: Bitmap, k: nat)
    requires k < 128
    ensures |ElementsBelow(b, k + 1)| == |ElementsBelow(b, k)| + if b.Has(k) then 1 else 0
  {
    if b.Has(k) {
      assert ElementsBelow(b, k + 1) == ElementsBelow(b, k) + {k};
    } else {
      assert ElementsBelow(b, k + 1) == ElementsBelow(b, k);
    }
  }

  lemma {:induction false} CountBelow(b: Bitmap, k: nat)
    requires k <= 128
    ensures |ElementsBelow(b, k)| == if k <= 64 then OnesBelow(b.lo, k) else OnesCount(b.lo) + OnesBelow(b.hi, k - 64)
  {
    if k > 0 {
      CountBelow(b, k - 1);
      OneMoreBelow(b, k - 1);
    } else {
      assert ElementsBelow(b, 0) == {};
    }
  }

  /** The population counts add up to the number of elements. */
  lemma CountElements(b: Bitmap)
    ensures b.Count() == |b.Elements()|
  {
    CountBelow(b, 128);
    assert ElementsBelow(b, 128) == b.Elements();
  }
}
