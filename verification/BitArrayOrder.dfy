/** Comparison of bit arrays is lexicographic order of bit strings, and Next is the next one. */
module BitArrayOrder {
  import opened Bytes
  import opened Words
  import opened BitArrays
  import opened Machine

  lemma {:induction false} PrefixLess(a: seq<Bit>, b: seq<Bit>)
    requires |a| < |b| && forall q :: 0 <= q < |a| ==> a[q] == b[q]
    ensures LexLess(a, b)
    decreases |a|
  {
    if a != [] { PrefixLess(a[1..], b[1..]); }
  }

  /** The first position where the padded strings differ decides: zero padding never outranks a bit. */
  lemma PaddedOrder(a: seq<Bit>, b: seq<Bit>, p: nat)
    requires Padded(a, p) < Padded(b, p)
    requires forall q :: 0 <= q < p ==> Padded(a, q) == Padded(b, q)
    ensures LexLess(a, b)
  {
    if p < |a| {
      assert BelowAt(a, b, p) by {
        forall q | 0 <= q < p ensures a[q] == b[q] { assert Padded(a, q) == Padded(b, q); }
      }
      BelowIsOrderOfExtensions(a, b, [], []);
      assert a + [] == a && b + [] == b;
    } else {
      forall q | 0 <= q < |a| ensures a[q] == b[q] { assert Padded(a, q) == Padded(b, q); }
      PrefixLess(a, b);
    }
  }

  lemma SameBefore(lhs: BitArray, rhs: BitArray, i: nat, k: nat, q: nat)
    requires lhs.Valid() && rhs.Valid() && i < |lhs.words| && i < |rhs.words| && k < 64 && q < 64 * i + k
    requires forall j :: 0 <= j < i ==> lhs.words[j] == rhs.words[j]
    requires forall j :: 0 <= j < k ==> Bits(lhs.words[i])[j] == Bits(rhs.words[i])[j]
    ensures Padded(lhs.Contents(), q) == Padded(rhs.Contents(), q)
  {
    PaddedContents(lhs, q);
    PaddedContents(rhs, q);
    if q / 64 == i { assert q % 64 < k; }
  }

  /** Equal words before i and a smaller word at i order the contents. */
  lemma WordOrder(lhs: BitArray, rhs: BitArray, i: nat)
    requires lhs.Valid() && rhs.Valid() && i < |lhs.words| && i < |rhs.words|
    requires forall j :: 0 <= j < i ==> lhs.words[j] == rhs.words[j]
    requires lhs.words[i] < rhs.words[i]
    ensures LexLess(lhs.Contents(), rhs.Contents())
  {
    var v, w := lhs.words[i], rhs.words[i];
    BitsOrder(v, w);
    var k: nat :| BelowAt(Bits(v), Bits(w), k);
    var p := 64 * i + k;
    BitAtWord(lhs.words, i, k);
    BitAtWord(rhs.words, i, k);
    PaddedContents(lhs, p);
    PaddedContents(rhs, p);
    forall q | 0 <= q < p ensures Padded(lhs.Contents(), q) == Padded(rhs.Contents(), q) {
      SameBefore(lhs, rhs, i, k, q);
    }
    PaddedOrder(lhs.Contents(), rhs.Contents(), p);
  }

  /** With all common words equal, the shorter bit string is a prefix of the longer. */
  lemma PrefixOrder(lhs: BitArray, rhs: BitArray)
    requires lhs.Valid() && rhs.Valid() && |lhs.words| <= |rhs.words| && lhs.BitLen() <= rhs.BitLen()
    requires forall j :: 0 <= j < |lhs.words| ==> lhs.words[j] == rhs.words[j]
    ensures lhs.BitLen() < rhs.BitLen() ==> LexLess(lhs.Contents(), rhs.Contents())
    ensures lhs.BitLen() == rhs.BitLen() ==> lhs.Contents() == rhs.Contents()
  {
    assert forall q :: 0 <= q < lhs.BitLen() ==> BitAt(lhs.words, q) == BitAt(rhs.words, q);
    if lhs.BitLen() < rhs.BitLen() { PrefixLess(lhs.Contents(), rhs.Contents()); }
  }

  ghost predicate IsOrder(c: int, a: seq<Bit>, b: seq<Bit>) {
    && c in {-1, 0, 1}
    && (c == -1 <==> LexLess(a, b))
    && (c == 1 <==> LexLess(b, a))
    && (c == 0 <==> a == b)
  }

  lemma Decides(c: int, a: seq<Bit>, b: seq<Bit>)
    requires (c == -1 && LexLess(a, b)) || (c == 1 && LexLess(b, a)) || (c == 0 && a == b)
    ensures IsOrder(c, a, b)
  {
    LexLessIrreflexive(a);
    if LexLess(a, b) { LexLessAsymmetric(a, b); }
    if LexLess(b, a) { LexLessAsymmetric(b, a); }
  }

  /** Word-wise comparison is exactly lexicographic comparison, whatever the two sizes. */
  method Compare(lhs: BitArray, rhs: BitArray) returns (c: int)
    requires lhs.Valid() && rhs.Valid()
    ensures IsOrder(c, lhs.Contents(), rhs.Contents())
  {
    c := CompareWords(lhs, rhs);
    Decides(c, lhs.Contents(), rhs.Contents());
  }

  method CompareWords(lhs: BitArray, rhs: BitArray) returns (c: int)
    requires lhs.Valid() && rhs.Valid()
    ensures var a, b := lhs.Contents(), rhs.Contents();
            (c == -1 && LexLess(a, b)) || (c == 1 && LexLess(b, a)) || (c == 0 && a == b)
  {
    var n := |lhs.words|;
    if n > |rhs.words| { n := |rhs.words|; }
    var i := 0;
    while i < n
      invariant 0 <= i <= n
      invariant forall j :: 0 <= j < i ==> lhs.words[j] == rhs.words[j]
    {
      var lw := lhs.words[i];
      var rw := rhs.words[i];
      if lw < rw {
        WordOrder(lhs, rhs, i);
        return -1;
      }
      if lw > rw {
        WordOrder(rhs, lhs, i);
        return 1;
      }
      i := i + 1;
    }
    if i < |rhs.words| {
      PrefixOrder(lhs, rhs);
      return -1;
    }
    if i < |lhs.words| {
      PrefixOrder(rhs, lhs);
      return 1;
    }
    if lhs.lastBitsUsed < rhs.lastBitsUsed {
      PrefixOrder(lhs, rhs);
      return -1;
    }
    if lhs.lastBitsUsed > rhs.lastBitsUsed {
      PrefixOrder(rhs, lhs);
      return 1;
    }
    PrefixOrder(lhs, rhs);
    return 0;
  }

  /** Next appends a zero bit, sharing the words when the last one has room. */
  method Next(d: BitArray) returns (r: BitArray)
    requires d.Valid()
    ensures r.Valid() && r.Contents() == d.Contents() + [0]
  {
    if d.lastBitsUsed == 0 {
      Extended(d, [0], 1);
      return BitArray([0], [], 1);
    }
    if d.lastBitsUsed < 64 {
      Extended(d, d.words, d.lastBitsUsed + 1);
      Built(d.words, d.spare, d.lastBitsUsed + 1, d.Contents() + [0]);
      return d.(lastBitsUsed := d.lastBitsUsed + 1);
    }
    Extended(d, d.words + [0], 1);
    return BitArray(d.words + [0], [], 1);
  }

  lemma Extended(d: BitArray, words: seq<Word>, last: nat)
    requires d.Valid() && words != [] && 1 <= last <= 64 && |d.words| <= |words|
    requires forall j :: 0 <= j < |d.words| ==> words[j] == d.words[j]
    requires forall j :: |d.words| <= j < |words| ==> words[j] == 0
    requires 64 * (|words| - 1) + last == d.BitLen() + 1
    ensures Represents(words, d.Contents() + [0])
    ensures BitArray(words, [], last).Valid() && BitArray(words, [], last).Contents() == d.Contents() + [0]
  {
    forall p | 0 <= p < 64 * |words| ensures BitAt(words, p) == Padded(d.Contents() + [0], p) {
      if p < 64 * |d.words| { PaddedContents(d, p); } else { ZeroBitAt(words, p); }
    }
    Built(words, [], last, d.Contents() + [0]);
  }

  /** No bit string lies strictly between c and c followed by a zero. */
  lemma {:induction false} ImmediateSuccessor(c: seq<Bit>, s: seq<Bit>)
    ensures LexLess(c, c + [0])
    ensures LexLess(c, s) ==> s == c + [0] || LexLess(c + [0], s)
    decreases |c|
  {
    if c != [] {
      ImmediateSuccessor(c[1..], if s == [] then [] else s[1..]);
      assert (c + [0])[1..] == c[1..] + [0];
      if s != [] { assert s == [s[0]] + s[1..]; }
      assert c + [0] == [c[0]] + (c[1..] + [0]);
    } else if s != [] {
      assert s == [s[0]] + s[1..];
    }
  }
}
