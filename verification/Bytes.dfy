/** Byte strings and the order in which a key-value store sorts them. */
module Bytes {
  import opened Digits

  type Byte = b: int | 0 <= b < 256

  datatype Option<+T> = None | Some(value: T)

  datatype Result<+T, +E> = Ok(value: T) | Err(error: E)

  /**
   a sorts before b at some position where both have an element. Unlike plain lexicographic order a
   proper prefix is not below its extension, so the relation survives any suffixes.
   */
  ghost predicate Below(a: seq<int>, b: seq<int>) {
    exists k :: BelowAt(a, b, k)
  }

  ghost predicate BelowAt(a: seq<int>, b: seq<int>, k: nat) {
    k < |a| && k < |b| && a[k] < b[k] && forall i :: 0 <= i < k ==> a[i] == b[i]
  }

  /** Lexicographic order, the order of Go's bytes.Compare: a proper prefix comes first. */
  predicate LexLess(a: seq<int>, b: seq<int>) {
    b != [] && (a == [] || a[0] < b[0] || (a[0] == b[0] && LexLess(a[1..], b[1..])))
  }

  lemma {:induction false} LexLessIrreflexive(a: seq<int>)
    ensures !LexLess(a, a)
  {
    if a != [] { LexLessIrreflexive(a[1..]); }
  }

  lemma {:induction false} LexLessAsymmetric(a: seq<int>, b: seq<int>)
    requires LexLess(a, b)
    ensures !LexLess(b, a)
  {
    if a != [] && a[0] == b[0] { LexLessAsymmetric(a[1..], b[1..]); }
  }

  lemma {:induction false} LexLessTotal(a: seq<int>, b: seq<int>)
    ensures LexLess(a, b) || a == b || LexLess(b, a)
  {
    if a != [] && b != [] && a[0] == b[0] {
      LexLessTotal(a[1..], b[1..]);
      if a[1..] == b[1..] { assert a == [a[0]] + a[1..] == [b[0]] + b[1..] == b; }
    }
  }

  /** Being below decides the order of all extensions. */
  lemma {:induction false} BelowIsOrderOfExtensions(a: seq<int>, b: seq<int>, s: seq<int>, t: seq<int>)
    requires Below(a, b)
    ensures LexLess(a + s, b + t)
    ensures !(a <= b) && !(b <= a)
  {
    var k: nat :| BelowAt(a, b, k);
    if k == 0 {
      assert (a + s)[0] < (b + t)[0];
    } else {
      assert BelowAt(a[1..], b[1..], k - 1);
      BelowIsOrderOfExtensions(a[1..], b[1..], s, t);
      assert (a + s)[1..] == a[1..] + s && (b + t)[1..] == b[1..] + t;
    }
  }

  lemma BelowExtends(a: seq<int>, b: seq<int>, s: seq<int>, t: seq<int>)
    requires Below(a, b)
    ensures Below(a + s, b + t)
  {
    var k: nat :| BelowAt(a, b, k);
    assert BelowAt(a + s, b + t, k);
  }

  lemma BelowPrefixed(p: seq<int>, a: seq<int>, b: seq<int>)
    requires Below(a, b)
    ensures Below(p + a, p + b)
  {
    var k: nat :| BelowAt(a, b, k);
    assert BelowAt(p + a, p + b, |p| + k);
  }

  lemma BelowHead(a: seq<int>, b: seq<int>)
    requires a != [] && b != [] && a[0] < b[0]
    ensures Below(a, b)
  {
    assert BelowAt(a, b, 0);
  }

  /** Two numerals of the same length compare, digit by digit, as the numbers they denote. */
  lemma {:induction false} NumeralOrder(a: seq<nat>, b: seq<nat>, base: nat)
    requires base > 1 && AllBelow(a, base) && AllBelow(b, base) && |a| == |b|
    ensures FromDigits(a, base) < FromDigits(b, base) <==> Below(a, b)
    ensures FromDigits(a, base) == FromDigits(b, base) <==> a == b
    decreases |a|
  {
    if a != b {
      var k := FirstDifference(a, b);
      if a[k] < b[k] {
        assert BelowAt(a, b, k);
        NumeralBelow(a, b, base, k);
      } else {
        NumeralBelow(b, a, base, k);
        assert forall j: nat :: BelowAt(a, b, j) ==> j == k;
      }
    } else {
      assert forall j: nat :: !BelowAt(a, b, j);
    }
  }

  lemma {:induction false} FirstDifference(a: seq<int>, b: seq<int>) returns (k: nat)
    requires |a| == |b| && a != b
    ensures k < |a| && a[k] != b[k] && forall i :: 0 <= i < k ==> a[i] == b[i]
  {
    if a[0] != b[0] {
      k := 0;
    } else {
      assert a == [a[0]] + a[1..] && b == [b[0]] + b[1..];
      var j := FirstDifference(a[1..], b[1..]);
      k := j + 1;
    }
  }

  lemma HeadDecides(p: nat, x: nat, y: nat, w: nat, s: nat, t: nat)
    requires x < y && s < w
    ensures (p + x) * w + s < (p + y) * w + t
  {
    MulMonotone(p + x + 1, p + y, w);
  }

  lemma NumeralBelow(a: seq<nat>, b: seq<nat>, base: nat, k: nat)
    requires base > 1 && AllBelow(a, base) && |a| == |b|
    requires BelowAt(a, b, k)
    ensures FromDigits(a, base) < FromDigits(b, base)
  {
    assert a[..k] == b[..k];
    var h := FromDigits(a[..k], base) * base;
    var s := SplitAt(a, base, k, h);
    var t := SplitAt(b, base, k, h);
    assert s < Pow(base, |a| - k - 1) by { FromDigitsBounds(a[k + 1..], base); }
    HeadDecides(h, a[k], b[k], Pow(base, |a| - k - 1), s, t);
  }

  /** The digits before k make up h, those behind it s. */
  lemma SplitAt(a: seq<nat>, base: nat, k: nat, h: nat) returns (s: nat)
    requires base > 1 && k < |a| && h == FromDigits(a[..k], base) * base
    ensures s == FromDigits(a[k + 1..], base)
    ensures FromDigits(a, base) == (h + a[k]) * Pow(base, |a| - k - 1) + s
  {
    s := FromDigits(a[k + 1..], base);
    assert a == (a[..k] + [a[k]]) + a[k + 1..];
    FromDigitsConcat(a[..k] + [a[k]], a[k + 1..], base);
    FromDigitsSnoc(a[..k], a[k], base);
  }

  /** The bitwise complement of a byte string. */
  function Complement(s: seq<Byte>): (c: seq<Byte>)
    ensures |c| == |s| && forall i :: 0 <= i < |s| ==> c[i] == 255 - s[i]
  {
    seq(|s|, i requires 0 <= i < |s| => 255 - s[i])
  }

  lemma ComplementReverses(a: seq<Byte>, b: seq<Byte>)
    requires Below(a, b)
    ensures Below(Complement(b), Complement(a))
  {
    var k: nat :| BelowAt(a, b, k);
    assert BelowAt(Complement(b), Complement(a), k);
  }

  lemma ComplementInvolutive(s: seq<Byte>)
    ensures Complement(Complement(s)) == s
  {}
}
