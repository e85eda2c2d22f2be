/** fast_int_set.go: a bitmap for the elements below 128 beside a sparse set for all of them. */
module FastIntSets {
  import opened Bytes
  import opened Slices
  import opened Words
  import opened Bitmaps
  import opened IntSets
  import opened Base128
  import opened IntSetCodec
  import opened Machine

  /** The small elements are in the bitmap; the large set, when present, has all elements. */
  ghost predicate Consistent(small: Bitmap, large: Option<set<Int64>>) {
    large.Some? ==> forall x: Int64 :: x in small.Elements() <==> x in large.value && 0 <= x < 128
  }

  ghost function ElementsOf(small: Bitmap, large: Option<set<Int64>>): set<Int64> {
    if large.Some? then large.value else small.Elements()
  }

  /** What Next answers: the least element from start on, except that MAX_INT is never reported. */
  ghost predicate IsNext(c: set<Int64>, start: Int64, r: Int64, ok: bool) {
    if ok then r in c && start <= r < MAX_INT && forall y: Int64 :: y in c && start <= y ==> r <= y
    else r == MAX_INT && forall y: Int64 :: y in c && start <= y ==> y == MAX_INT
  }

  class FastIntSet {
    var small: Bitmap
    var large: Option<set<Int64>>

    ghost predicate Valid()
      reads this
    {
      Consistent(small, large)
    }

    ghost function Contents(): set<Int64>
      reads this
    {
      ElementsOf(small, large)
    }

    constructor ()
      ensures Valid() && Contents() == {} && large == None
    {
      small, large := NO_BITS, None;
      ElementsOfNone();
    }

    /** Next with no large set looks at the bitmap alone. */
    method Next(startVal: Int64) returns (r: Int64, ok: bool)
      requires Valid()
      ensures IsNext(Contents(), startVal, r, ok)
    {
      var start := startVal;
      if start < 0 && large == None { start := 0; }
      if 0 <= start < SMALL_CUTOFF {
        var (v, found) := small.Next(start);
        NextElements(small, start);
        if found { return v, true; }
      }
      if large.Some? {
        var res := LowerBound(large.value, start);
        return res, res != MAX_INT;
      }
      return MAX_INT, false;
    }

    method ToLarge() returns (l: set<Int64>)
      ensures l == Contents()
    {
      if large.Some? { return large.value; }
      ghost var c := Contents();
      l := {};
      var i, ok := Next(0);
      while ok
        invariant ok ==> IsNext(c, i, i, ok)
        invariant forall x: Int64 :: x in l <==> x in c && (ok ==> x < i)
        decreases if ok then MAX_INT - i else 0
      {
        l := l + {i};
        i, ok := Next(i + 1);
      }
    }

    method FitsInSmall() returns (r: bool)
      requires Valid()
      ensures r <==> forall x: Int64 :: x in Contents() ==> 0 <= x < 128
      ensures r <==> Contents() == small.Elements()
    {
      r := large == None || (MinOf(large.value) >= 0 && MaxOf(large.value) < SMALL_CUTOFF);
      FitsMeansSame(small, large);
      if large.Some? {
        SpanOf(large.value);
        assert Contents() == large.value;
      } else {
        assert Contents() == small.Elements();
      }
    }

    method Add(i: Int64)
      requires Valid()
      modifies this
      ensures Valid() && Contents() == old(Contents()) + {i}
      ensures large == None <==> old(large) == None && 0 <= i < 128
    {
      var withinSmallBounds := 0 <= i < SMALL_CUTOFF;
      if withinSmallBounds {
        SetElements(small, i);
        small := small.Set(i);
      }
      if !withinSmallBounds && large == None {
        var l := ToLarge();
        large := Some(l);
      }
      if large.Some? { large := Some(large.value + {i}); }
    }

    /** Not ok is the panic for an empty range. For a range up to MAX_INT the loop does not end: RangeEnds. */
    method AddRange(from: Int64, to: Int64) returns (ok: bool)
      requires Valid() && (from <= to ==> to < MAX_INT)
      modifies this
      ensures Valid() && ok == (from <= to) && (!ok ==> unchanged(this))
      ensures forall x: Int64 :: x in Contents() <==> x in old(Contents()) || from <= x <= to
    {
      if to < from { return false; }
      if large == None && from >= 0 && to < SMALL_CUTOFF {
        SetRangeElements(small, from, to);
        small := small.SetRange(from, to);
      } else {
        var i: Int64 := from;
        while i <= to
          invariant from <= i <= to + 1 && Valid()
          invariant forall x: Int64 :: x in Contents() <==> x in old(Contents()) || from <= x < i
        {
          Add(i);
          i := i + 1;
        }
      }
      ok := true;
    }

    method Remove(i: Int64)
      requires Valid()
      modifies this
      ensures Valid() && Contents() == old(Contents()) - {i}
    {
      if 0 <= i < SMALL_CUTOFF {
        SetElements(small, i);
        small := small.Unset(i);
      }
      if large.Some? { large := Some(large.value - {i}); }
    }

    /** On a consistent set this is membership; otherwise the bitmap decides below 128. */
    method Contains(i: Int64) returns (r: bool)
      ensures r <==> i in if 0 <= i < 128 then small.Elements() else Contents()
      ensures Valid() ==> (r <==> i in Contents())
    {
      if 0 <= i < SMALL_CUTOFF {
        IsSetElements(small, i);
        return small.IsSet(i);
      }
      return large.Some? && i in large.value;
    }

    method Empty() returns (r: bool)
      requires Valid()
      ensures r <==> Contents() == {}
    {
      EmptyIsZero(small);
      r := small == NO_BITS && (large == None || large.value == {});
      if large.Some? && large.value == {} {
        assert forall x: Int64 :: x !in small.Elements();
        assert small.Elements() == {};
      }
    }

    method Len() returns (n: nat)
      ensures n == |Contents()|
    {
      CountElements(small);
      n := if large == None then small.Count() else |large.value|;
    }

    /** The elements handed to the callback, in order. */
    method ForEach() returns (visited: seq<Int64>)
      requires Valid()
      ensures visited == Ascending(Without(Contents(), MAX_INT))
    {
      var fits := FitsInSmall();
      if !fits {
        visited := VisitLarge(large.value);
        return;
      }
      assert Without(Contents(), MAX_INT) == small.Elements();
      visited := VisitWords(small);
    }

    method Ordered() returns (result: seq<Int64>)
      requires Valid()
      ensures result == Ascending(Contents())
    {
      var empty := Empty();
      if empty { return []; }
      if large.Some? { return Ascending(large.value); }
      assert Without(Contents(), MAX_INT) == Contents();
      result := ForEach();
    }

    method Copy() returns (c: FastIntSet)
      ensures fresh(c) && c.small == small && c.large == large
      ensures Valid() ==> c.Valid() && c.Contents() == Contents()
    {
      c := new FastIntSet();
      c.small := small;
      if large.Some? { c.large := Some(large.value); }
    }

    /**
     CopyFrom clears a large set it cannot use instead of dropping it. The receiver is left
     consistent exactly when it had no large set, or gets one, or gets nothing at all.
     */
    method CopyFrom(other: FastIntSet)
      requires other.Valid()
      modifies this
      ensures small == old(other.small)
      ensures Valid() <==> (old(large) == None || old(other.large).Some? || old(other.Contents()) == {})
      ensures Valid() ==> Contents() == old(other.Contents())
      ensures !Valid() ==> Contents() == {}
    {
      small := other.small;
      if other.large.Some? {
        if large == None { large := Some({}); }
        large := Some(other.large.value);
      } else {
        if large.Some? { large := Some({}); }
      }
    }

    method UnionWith(rhs: FastIntSet)
      requires Valid() && rhs.Valid()
      modifies this
      ensures Valid() && Contents() == old(Contents()) + old(rhs.Contents())
    {
      CombinedElements(small, rhs.small);
      ghost var d := rhs.Contents();
      small := small.UnionWith(rhs.small);
      if large == None && rhs.large == None { return; }
      if large == None {
        var l := ToLarge();
        large := Some(l);
      }
      if rhs.large == None {
        ghost var base := large.value;
        var i, ok := rhs.Next(0);
        while ok
          invariant rhs != this && rhs.Valid() && rhs.Contents() == d && rhs.large == None
          invariant ok ==> IsNext(d, i, i, ok)
          invariant large.Some? && small == old(small).UnionWith(rhs.small)
          invariant forall x: Int64 :: x in large.value <==> x in base || (x in d && (ok ==> x < i))
          decreases if ok then MAX_INT - i else 0
        {
          large := Some(large.value + {i});
          i, ok := rhs.Next(i + 1);
        }
      } else {
        large := Some(large.value + rhs.large.value);
      }
    }

    method IntersectionWith(rhs: FastIntSet)
      requires Valid() && rhs.Valid()
      modifies this
      ensures Valid() && Contents() == old(Contents()) * old(rhs.Contents())
    {
      CombinedElements(small, rhs.small);
      var rhsLarge := rhs.large;
      small := small.IntersectionWith(rhs.small);
      if rhsLarge == None { large := None; }
      if large == None { return; }
      var l := rhs.ToLarge();
      large := Some(large.value * l);
    }

    method Intersects(rhs: FastIntSet) returns (r: bool)
      requires Valid() && rhs.Valid()
      ensures r <==> Contents() * rhs.Contents() != {}
    {
      IntersectsElements(small, rhs.small);
      if small.Intersects(rhs.small) {
        CommonElement(small, large, rhs.small, rhs.large);
        return true;
      }
      if large == None || rhs.large == None { return false; }
      var l := rhs.ToLarge();
      r := large.value * l != {};
    }

    method DifferenceWith(rhs: FastIntSet)
      requires Valid() && rhs.Valid()
      modifies this
      ensures Valid() && Contents() == old(Contents()) - old(rhs.Contents())
    {
      CombinedElements(small, rhs.small);
      ghost var d := rhs.Contents();
      small := small.DifferenceWith(rhs.small);
      if large == None { return; }
      var l := rhs.ToLarge();
      large := Some(large.value - l);
    }

    method Union(rhs: FastIntSet) returns (r: FastIntSet)
      requires Valid() && rhs.Valid()
      ensures fresh(r) && r.Valid() && r.Contents() == Contents() + rhs.Contents()
    {
      r := Copy();
      r.UnionWith(rhs);
    }

    method Intersection(rhs: FastIntSet) returns (r: FastIntSet)
      requires Valid() && rhs.Valid()
      ensures fresh(r) && r.Valid() && r.Contents() == Contents() * rhs.Contents()
    {
      r := Copy();
      r.IntersectionWith(rhs);
    }

    method Difference(rhs: FastIntSet) returns (r: FastIntSet)
      requires Valid() && rhs.Valid()
      ensures fresh(r) && r.Valid() && r.Contents() == Contents() - rhs.Contents()
    {
      r := Copy();
      r.DifferenceWith(rhs);
    }

    method Equals(rhs: FastIntSet) returns (r: bool)
      requires Valid() && rhs.Valid()
      ensures r <==> Contents() == rhs.Contents()
    {
      SmallParts(small, large, rhs.small, rhs.large);
      if small != rhs.small { return false; }
      var fits := FitsInSmall();
      var rhsFits := rhs.FitsInSmall();
      if fits { return rhsFits; }
      r := rhs.large.Some? && large.value == rhs.large.value;
    }

    method SubsetOf(rhs: FastIntSet) returns (r: bool)
      requires Valid() && rhs.Valid()
      ensures r <==> Contents() <= rhs.Contents()
    {
      SubsetOfElements(small, rhs.small);
      var fits := FitsInSmall();
      if fits { return small.SubsetOf(rhs.small); }
      var rhsFits := rhs.FitsInSmall();
      if rhsFits { return false; }
      r := large.value <= rhs.large.value;
    }

    /** What is appended to the buffer, unless the set has a negative element. */
    method Encode() returns (ok: bool, out: seq<Byte>)
      requires Valid()
      ensures ok <==> forall x: Int64 :: x in Contents() ==> x >= 0
      ensures ok ==> Encodes(Contents(), out)
      ensures !ok ==> out == []
    {
      if large.Some? && MinOf(large.value) < 0 {
        assert MinOf(large.value) in Contents();
        return false, [];
      }
      assert forall x: Int64 :: x in Contents() ==> x >= 0;
      var fits := FitsInSmall();
      if small.hi == 0 && fits {
        LowOnly(small.lo);
        assert Bitmap(small.lo, 0) == small;
        return true, PutUvarint(0) + PutUvarint(small.lo);
      }
      NotLow(small, large);
      var n := Len();
      var body := EncodeElements();
      return true, PutUvarint(n) + body;
    }

    method EncodeElements() returns (out: seq<Byte>)
      requires Valid() && forall x: Int64 :: x in Contents() ==> x >= 0
      ensures out == PutAll(Ascending(Without(Contents(), MAX_INT)))
    {
      out := [];
      ghost var c := Contents();
      ghost var left := Without(c, MAX_INT);
      ghost var all := PutAll(Ascending(left));
      var i, ok := Next(0);
      while ok
        invariant out + PutAll(Ascending(left)) == all
        invariant ok ==> i >= 0 && IsNext(c, i, i, ok) && Left(c, i, left)
        invariant !ok ==> left == {}
        decreases |left|
      {
        PutNext(c, i, left, out);
        left := Without(left, i);
        ghost var before := i;
        out := out + PutUvarint(i);
        i, ok := Next(i + 1);
        StillLeft(c, before, i, ok, left);
      }
    }

    /** Reads a set from the front of the input and returns what follows it. */
    method Decode(input: seq<Byte>) returns (r: Result<seq<Byte>, ReadError>)
      requires Valid()
      modifies this
      ensures Valid()
      ensures match Decoded(input)
              case Ok((c, rest)) => r == Ok(rest) && Contents() == c
              case Err(e) => r == Err(e) && Contents() == if ReadUvarint(input, 0).Err? then old(Contents()) else {}
    {
      var length := ReadUvarint(input, 0);
      if length.Err? { return Err(length.error); }
      var rest := length.value.1;
      small, large := NO_BITS, None;
      ElementsOfNone();
      if length.value.0 == 0 {
        var val := ReadUvarint(rest, 0);
        if val.Err? { return Err(val.error); }
        ReadWordBounds(rest);
        small := Bitmap(val.value.0, small.hi);
        return Ok(val.value.1);
      }
      ReadWordBounds(input);
      var n: int := ToInt64(length.value.0);
      var i := 0;
      while i < n
        invariant 0 <= i && Valid()
        invariant Decoded(input) == DecodeEach(if i < n then n - i else 0, Contents(), rest)
      {
        var elem := ReadUvarint(rest, 0);
        if elem.Err? {
          small, large := NO_BITS, None;
          ElementsOfNone();
          return Err(elem.error);
        }
        ReadWordBounds(rest);
        Add(ToInt64(elem.value.0));
        rest := elem.value.1;
        i := i + 1;
      }
      return Ok(rest);
    }
  }

  /** The counter of AddRange after n increments of an int. */
  function Counter(from: Int64, n: nat): Int64 {
    Wrap(from + n)
  }

  /** Counting up passes the end of the range exactly when the end is not the greatest int. */
  lemma RangeEnds(from: Int64, to: Int64)
    requires from <= to
    ensures (exists n :: Counter(from, n) > to) <==> to < MAX_INT
  {
    if to < MAX_INT {
      assert Counter(from, to + 1 - from) == to + 1;
    }
  }

  /** The elements still to come when a loop stands at x. */
  ghost predicate Left(s: set<Int64>, x: Int64, left: set<Int64>) {
    forall y: Int64 :: y in left <==> y in s && x <= y < MAX_INT
  }

  lemma NextIsLeast(c: set<Int64>, i: Int64, left: set<Int64>)
    requires i >= 0 && IsNext(c, i, i, true) && Left(c, i, left)
    ensures i in left && Ascending(left) == [i] + Ascending(Without(left, i))
    ensures PutAll(Ascending(left)) == PutUvarint(i) + PutAll(Ascending(Without(left, i)))
  {
    assert IsLeast(left, i);
    AscendingStep(left, i, Without(left, i));
  }

  /** Writing the next element leaves the others to be written. */
  lemma PutNext(c: set<Int64>, i: Int64, left: set<Int64>, out: seq<Byte>)
    requires i >= 0 && IsNext(c, i, i, true) && Left(c, i, left)
    ensures i in left
    ensures out + PutAll(Ascending(left)) == out + PutUvarint(i) + PutAll(Ascending(Without(left, i)))
  {
    NextIsLeast(c, i, left);
    Associate(out, PutUvarint(i), PutAll(Ascending(Without(left, i))));
  }

  lemma StillLeft(c: set<Int64>, before: Int64, i: Int64, ok: bool, left: set<Int64>)
    requires before < MAX_INT && IsNext(c, before + 1, i, ok)
    requires forall y: Int64 :: y in left <==> y in c && before < y < MAX_INT
    ensures if ok then IsNext(c, i, i, ok) && Left(c, i, left) else left == {}
  {
    if !ok { assert forall y: Int64 :: y !in left; }
  }

  lemma NotLow(small: Bitmap, large: Option<set<Int64>>)
    requires Consistent(small, large)
    requires small.hi != 0 || exists x: Int64 :: x in ElementsOf(small, large) && !(0 <= x < 128)
    ensures exists x: Int64 :: x in ElementsOf(small, large) && !(0 <= x < 64)
  {
    if small.hi != 0 {
      NonZeroTrailing(small.hi);
      var i := TrailingZeros(small.hi);
      var x: Int64 := 64 + i;
      assert small.Has(x);
      assert x in ElementsOf(small, large);
    }
  }

  lemma NextElements(b: Bitmap, start: nat)
    requires start < 128
    ensures var (r, ok) := b.Next(start);
            && (ok ==> r in b.Elements() && start <= r < 128)
            && forall x: Int64 :: x in b.Elements() && start <= x ==> ok && r <= x
  {
    NextElement(b, start, start);
    forall x: Int64 | x in b.Elements() && start <= x ensures b.Next(start).1 && b.Next(start).0 <= x {
      NextElement(b, start, x);
    }
  }

  lemma SpanOf(s: set<Int64>)
    ensures (MinOf(s) >= 0 && MaxOf(s) < SMALL_CUTOFF) <==> forall x: Int64 :: x in s ==> 0 <= x < 128
  {}

  lemma FitsMeansSame(small: Bitmap, large: Option<set<Int64>>)
    requires Consistent(small, large)
    ensures (forall x: Int64 :: x in ElementsOf(small, large) ==> 0 <= x < 128)
       <==> ElementsOf(small, large) == small.Elements()
  {
    var c := ElementsOf(small, large);
    if forall x: Int64 :: x in c ==> 0 <= x < 128 {
      assert forall x: Int64 :: x in c <==> x in small.Elements();
    }
  }

  /** Equal sets have equal bitmaps. */
  lemma SmallParts(a: Bitmap, la: Option<set<Int64>>, b: Bitmap, lb: Option<set<Int64>>)
    requires Consistent(a, la) && Consistent(b, lb)
    ensures ElementsOf(a, la) == ElementsOf(b, lb) ==> a == b
  {
    if ElementsOf(a, la) == ElementsOf(b, lb) {
      assert forall x: Int64 :: x in a.Elements() <==> x in ElementsOf(a, la) && 0 <= x < 128;
      assert forall x: Int64 :: x in b.Elements() <==> x in ElementsOf(b, lb) && 0 <= x < 128;
      SameElements(a, b);
    }
  }

  lemma CommonElement(a: Bitmap, la: Option<set<Int64>>, b: Bitmap, lb: Option<set<Int64>>)
    requires Consistent(a, la) && Consistent(b, lb) && a.Elements() * b.Elements() != {}
    ensures ElementsOf(a, la) * ElementsOf(b, lb) != {}
  {
    var x :| x in a.Elements() * b.Elements();
    assert x in ElementsOf(a, la) * ElementsOf(b, lb);
  }

  lemma VisitStep(s: set<Int64>, x: Int64, left: set<Int64>)
    requires Left(s, x, left) && x in s && x != MAX_INT
    ensures var t := Without(left, x);
            var next := LowerBound(s, x + 1);
            && Ascending(left) == [x] + Ascending(t) && |t| < |left|
            && Left(s, next, t) && (next != MAX_INT ==> next in s)
  {
    assert IsLeast(left, x);
    AscendingStep(left, x, Without(left, x));
  }

  /** The loop over the elements of a sparse set stops at MAX_INT, element or not. */
  method VisitLarge(s: set<Int64>) returns (visited: seq<Int64>)
    ensures visited == Ascending(Without(s, MAX_INT))
  {
    visited := [];
    var x := MinOf(s);
    ghost var left := Without(s, MAX_INT);
    while x != MAX_INT
      invariant visited + Ascending(left) == Ascending(Without(s, MAX_INT))
      invariant Left(s, x, left) && (x != MAX_INT ==> x in s)
      decreases |left|
    {
      VisitStep(s, x, left);
      Associate(visited, [x], Ascending(Without(left, x)));
      visited := visited + [x];
      left := Without(left, x);
      x := LowerBound(s, x + 1);
    }
    assert left == {};
  }

  method VisitWords(b: Bitmap) returns (visited: seq<Int64>)
    ensures visited == Ascending(b.Elements())
  {
    visited := VisitLow(b);
    var rest := VisitHigh(b.hi);
    visited := visited + rest;
  }

  method VisitLow(b: Bitmap) returns (visited: seq<Int64>)
    ensures visited + Ascending(Bitmap(0, b.hi).Elements()) == Ascending(b.Elements())
  {
    visited := [];
    var v := b.lo;
    while v != 0
      invariant visited + Ascending(Bitmap(v, b.hi).Elements()) == Ascending(b.Elements())
      decreases |Bitmap(v, b.hi).Elements()|
    {
      var i := TrailingZeros(v);
      LowestElement(v, b.hi);
      Associate(visited, [i], Ascending(Bitmap(AndNot(v, Shl(1, i)), b.hi).Elements()));
      visited := visited + [i];
      v := AndNot(v, Shl(1, i));
    }
  }

  /** The elements of the high word v. */
  ghost predicate HighElements(v: Word, s: set<Int64>) {
    s == Bitmap(0, v).Elements()
  }

  method VisitHigh(hi: Word) returns (visited: seq<Int64>)
    ensures visited == Ascending(Bitmap(0, hi).Elements())
  {
    visited := [];
    var v := hi;
    ghost var left := Bitmap(0, hi).Elements();
    ghost var all := Ascending(left);
    while v != 0
      invariant HighElements(v, left) && visited + Ascending(left) == all
      decreases |left|
    {
      v, visited, left := VisitBit(v, visited, left, all);
    }
    NothingLeft(left);
  }

  /** Visits the lowest bit and clears it. */
  method VisitBit(v: Word, visited: seq<Int64>, ghost left: set<Int64>, ghost all: seq<Int64>)
    returns (v': Word, visited': seq<Int64>, ghost left': set<Int64>)
    requires v != 0 && HighElements(v, left) && visited + Ascending(left) == all
    ensures HighElements(v', left') && visited' + Ascending(left') == all && |left'| < |left|
  {
    var i := TrailingZeros(v);
    left' := TakeLowest(v, visited, left, all);
    visited' := visited + [64 + i];
    v' := AndNot(v, Shl(1, i));
  }

  lemma NothingLeft(left: set<Int64>)
    requires HighElements(0, left)
    ensures left == {} && Ascending(left) == []
  {
    ElementsOfNone();
  }

  lemma TakeLowest(v: Word, visited: seq<Int64>, left: set<Int64>, all: seq<Int64>) returns (rest: set<Int64>)
    requires v != 0 && HighElements(v, left) && visited + Ascending(left) == all
    ensures TrailingZeros(v) < 64 && HighElements(AndNot(v, Shl(1, TrailingZeros(v))), rest)
    ensures visited + [64 + TrailingZeros(v)] + Ascending(rest) == all && |rest| < |left|
  {
    rest := Bitmap(0, AndNot(v, Shl(1, TrailingZeros(v)))).Elements();
    LowestHighElement(v);
    PopVisit(visited, left, 64 + TrailingZeros(v), rest, all);
  }

  lemma PopVisit(visited: seq<Int64>, s: set<Int64>, m: Int64, t: set<Int64>, all: seq<Int64>)
    requires Pops(s, m, t) && visited + Ascending(s) == all
    ensures visited + [m] + Ascending(t) == all && |t| < |s|
  {
    Associate(visited, [m], Ascending(t));
  }

  /** t is s without its least element m. */
  ghost predicate Pops(s: set<Int64>, m: Int64, t: set<Int64>) {
    Ascending(s) == [m] + Ascending(t) && |t| < |s|
  }

  lemma PopLeast(s: set<Int64>, m: Int64, t: set<Int64>)
    requires IsLeast(s, m) && forall x: Int64 :: x in t <==> x in s && x != m
    ensures Pops(s, m, t)
  {
    assert t == Without(s, m);
    AscendingStep(s, m, t);
  }

  /** The trailing zeros of a non-zero low word give the least element; clearing the bit removes it. */
  lemma LowestElement(v: Word, hi: Word)
    requires v != 0
    ensures var i := TrailingZeros(v);
            i < 64 && Pops(Bitmap(v, hi).Elements(), i, Bitmap(AndNot(v, Shl(1, i)), hi).Elements())
  {
    var i := TrailingZeros(v);
    NonZeroTrailing(v);
    assert Bitmap(v, hi).Has(i);
    assert Bitmap(v, hi).Unset(i) == Bitmap(AndNot(v, Shl(1, i)), hi);
    SetElements(Bitmap(v, hi), i);
    PopLeast(Bitmap(v, hi).Elements(), i, Bitmap(AndNot(v, Shl(1, i)), hi).Elements());
  }

  lemma NonZeroTrailing(v: Word)
    ensures v != 0 ==> TrailingZeros(v) < 64
  {
    ZeroWord(v);
    if TrailingZeros(v) == 64 {
      forall k | 0 <= k < 64 ensures Bits(v)[k] == 0 { assert !Lsb(v, 63 - k); }
    }
  }

  lemma LowestHighElement(v: Word)
    requires v != 0
    ensures var i := TrailingZeros(v);
            i < 64 && Pops(Bitmap(0, v).Elements(), 64 + i, Bitmap(0, AndNot(v, Shl(1, i))).Elements())
  {
    var i := TrailingZeros(v);
    NonZeroTrailing(v);
    assert Bitmap(0, v).Has(64 + i);
    ZeroWordBits();
    assert (64 + i) % 64 == i;
    assert Bitmap(0, v).Unset(64 + i) == Bitmap(0, AndNot(v, Shl(1, i)));
    SetElements(Bitmap(0, v), 64 + i);
    PopLeast(Bitmap(0, v).Elements(), 64 + i, Bitmap(0, AndNot(v, Shl(1, i))).Elements());
  }

  /** A run of four calls after which a set claims to be empty and yet contains 1. */
  method CopyFromForgets() returns (length: nat, contains: bool)
    ensures length == 0 && contains
  {
    var s := new FastIntSet();
    var other := new FastIntSet();
    s.Add(200);
    other.Add(1);
    s.CopyFrom(other);
    length := s.Len();
    contains := s.Contains(1);
  }
}
