/** The byte format of a FastIntSet and why decoding undoes encoding. */
module IntSetCodec {
  import opened Bytes
  import opened Slices
  import opened Words
  import opened Bitmaps
  import opened IntSets
  import opened Base128
  import opened Machine

  function PutAll(xs: seq<Int64>): seq<Byte> {
    if xs == [] then [] else PutUvarint(if xs[0] < 0 then xs[0] + TWO64 else xs[0]) + PutAll(xs[1..])
  }

  ghost predicate AllLow(c: set<Int64>) {
    forall x: Int64 :: x in c ==> 0 <= x < 64
  }

  /** A set below 64 is a zero and its bitmap; another one is its size and its elements but MAX_INT. */
  ghost predicate Encodes(c: set<Int64>, out: seq<Byte>) {
    if AllLow(c) then exists lo: Word :: Bitmap(lo, 0).Elements() == c && out == PutUvarint(0) + PutUvarint(lo)
    else out == PutUvarint(|c|) + PutAll(Ascending(Without(c, MAX_INT)))
  }

  function DecodeEach(n: nat, acc: set<Int64>, s: seq<Byte>): Result<(set<Int64>, seq<Byte>), ReadError> {
    if n == 0 then Ok((acc, s)) else
      match ReadUvarint(s, 0)
      case Err(e) => Err(e)
      case Ok((v, rest)) => ReadWordBounds(s); DecodeEach(n - 1, acc + {ToInt64(v)}, rest)
  }

  function Decoded(s: seq<Byte>): Result<(set<Int64>, seq<Byte>), ReadError> {
    match ReadUvarint(s, 0)
    case Err(e) => Err(e)
    case Ok((n, rest)) =>
      ReadWordBounds(s);
      if n == 0 then
        match ReadUvarint(rest, 0)
        case Err(e) => Err(e)
        case Ok((lo, rest')) => ReadWordBounds(rest); Ok((Bitmap(lo, 0).Elements(), rest'))
      else DecodeEach(if ToInt64(n) < 0 then 0 else ToInt64(n), {}, rest)
  }

  lemma LowOnly(lo: Word)
    ensures AllLow(Bitmap(lo, 0).Elements())
  {
    ZeroWordBits();
  }

  function MembersOf(xs: seq<Int64>): set<Int64> {
    if xs == [] then {} else {xs[0]} + MembersOf(xs[1..])
  }

  lemma {:induction false} MembersOfAscending(s: set<Int64>)
    ensures MembersOf(Ascending(s)) == s
    decreases |s|
  {
    if s != {} {
      var m := Least(s);
      MembersOfAscending(Without(s, m));
      assert Ascending(s)[1..] == Ascending(Without(s, m));
      assert s == {m} + Without(s, m);
    }
  }

  lemma DecodeOne(x: Int64, n: nat, acc: set<Int64>, tail: seq<Byte>)
    requires x >= 0
    ensures DecodeEach(n + 1, acc, PutUvarint(x) + tail) == DecodeEach(n, acc + {x}, tail)
  {
    ReadPutWord(x, tail);
  }

  lemma DecodeFirst(xs: seq<Int64>, n: nat, acc: set<Int64>, rest: seq<Byte>)
    requires n > 0 && xs != [] && xs[0] >= 0
    ensures DecodeEach(n, acc, PutAll(xs) + rest) == DecodeEach(n - 1, acc + {xs[0]}, PutAll(xs[1..]) + rest)
  {
    Associate(PutUvarint(xs[0]), PutAll(xs[1..]), rest);
    DecodeOne(xs[0], n - 1, acc, PutAll(xs[1..]) + rest);
  }

  /** Decoding consumes exactly the elements that were written and then goes on with the rest. */
  lemma {:induction false} DecodeWritten(xs: seq<Int64>, n: nat, k: nat, acc: set<Int64>, rest: seq<Byte>)
    requires n == |xs| + k && forall i :: 0 <= i < |xs| ==> xs[i] >= 0
    ensures DecodeEach(n, acc, PutAll(xs) + rest) == DecodeEach(k, acc + MembersOf(xs), rest)
    decreases |xs|
  {
    if xs == [] {
      assert PutAll(xs) + rest == rest && acc + MembersOf(xs) == acc;
    } else {
      DecodeFirst(xs, n, acc, rest);
      DecodeWritten(xs[1..], n - 1, k, acc + {xs[0]}, rest);
      MoreMembers(acc, xs);
    }
  }

  lemma MoreMembers(acc: set<Int64>, xs: seq<Int64>)
    requires xs != []
    ensures acc + {xs[0]} + MembersOf(xs[1..]) == acc + MembersOf(xs)
  {}

  /** Reading at least one more element never leaves the whole input. */
  lemma {:induction false} DecodeConsumes(n: nat, acc: set<Int64>, s: seq<Byte>)
    requires DecodeEach(n, acc, s).Ok?
    ensures |DecodeEach(n, acc, s).value.1| <= |s|
    ensures n > 0 ==> |DecodeEach(n, acc, s).value.1| < |s|
    decreases n
  {
    if n > 0 {
      ReadWordBounds(s);
      var (v, rest) := ReadUvarint(s, 0).value;
      DecodeConsumes(n - 1, acc + {ToInt64(v)}, rest);
    }
  }

  /** Decode on Encode(s) followed by anything rebuilds the set, unless MAX_INT was an element. */
  lemma RoundTrip(c: set<Int64>, out: seq<Byte>, rest: seq<Byte>)
    requires (forall x: Int64 :: x in c ==> x >= 0) && Encodes(c, out)
    ensures Decoded(out + rest) == Ok((c, rest)) <==> MAX_INT !in c
  {
    if AllLow(c) {
      var lo: Word :| Bitmap(lo, 0).Elements() == c && out == PutUvarint(0) + PutUvarint(lo);
      Associate(PutUvarint(0), PutUvarint(lo), rest);
      ReadPutWord(0, PutUvarint(lo) + rest);
      ReadPutWord(lo, rest);
    } else {
      ElementsRoundTrip(c, Ascending(Without(c, MAX_INT)), out, rest);
    }
  }

  lemma SizeBound(c: set<Int64>)
    requires forall x: Int64 :: x in c ==> x >= 0
    ensures |c| == |Without(c, MAX_INT)| + (if MAX_INT in c then 1 else 0)
    ensures |Without(c, MAX_INT)| <= MAX_INT
  {
    CardinalityBound(Without(c, MAX_INT), MAX_INT);
    if MAX_INT in c { assert c == Without(c, MAX_INT) + {MAX_INT}; } else { assert c == Without(c, MAX_INT); }
  }

  lemma ElementsRoundTrip(c: set<Int64>, xs: seq<Int64>, out: seq<Byte>, rest: seq<Byte>)
    requires (forall x: Int64 :: x in c ==> x >= 0) && c != {}
    requires xs == Ascending(Without(c, MAX_INT)) && out == PutUvarint(|c|) + PutAll(xs)
    ensures Decoded(out + rest) == Ok((c, rest)) <==> MAX_INT !in c
  {
    SizeBound(c);
    DecodedLength(|c|, PutAll(xs), out, rest);
    var w, k := Without(c, MAX_INT), if MAX_INT in c then 1 else 0;
    forall i | 0 <= i < |xs| ensures xs[i] >= 0 { AscendingMembers(w, xs[i]); }
    assert MembersOf(xs) == w by { MembersOfAscending(w); }
    if |c| <= MAX_INT { DecodeSized(c, w, k, xs, rest); }
  }

  lemma DecodedLength(n: nat, body: seq<Byte>, out: seq<Byte>, rest: seq<Byte>)
    requires 0 < n < TWO64 && out == PutUvarint(n) + body
    ensures Decoded(out + rest) == DecodeEach(if n <= MAX_INT then n else 0, {}, body + rest)
  {
    Associate(PutUvarint(n), body, rest);
    ReadPutWord(n, body + rest);
  }

  lemma DecodeSized(c: set<Int64>, w: set<Int64>, k: nat, xs: seq<Int64>, rest: seq<Byte>)
    requires w == Without(c, MAX_INT) && k == (if MAX_INT in c then 1 else 0) && |c| == |xs| + k
    requires MembersOf(xs) == w && forall i :: 0 <= i < |xs| ==> xs[i] >= 0
    ensures DecodeEach(|c|, {}, PutAll(xs) + rest) == Ok((c, rest)) <==> MAX_INT !in c
  {
    DecodeWritten(xs, |c|, k, {}, rest);
    assert {} + w == w;
    if k == 0 {
      assert w == c;
    } else if DecodeEach(k, w, rest).Ok? {
      DecodeConsumes(k, w, rest);
    }
  }
}
