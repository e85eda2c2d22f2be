/** The base-128 unsigned varints of Go's encoding/binary, least significant group first. */
module Base128 {
  import opened Digits
  import opened Bytes
  import opened Words
  import opened Machine

  const MAX_VARINT_LEN64 := 10

  datatype ReadError = EndOfInput | Overflow

  function PutUvarint(v: nat): (s: seq<Byte>)
    ensures s != []
  {
    if v < 128 then [v] else [128 + v % 128] + PutUvarint(v / 128)
  }

  /** Reads one number of which i bytes have been read; what is left of the input comes with it. */
  function ReadUvarint(s: seq<Byte>, i: nat): (r: Result<(nat, seq<Byte>), ReadError>)
    requires i <= MAX_VARINT_LEN64
    decreases MAX_VARINT_LEN64 - i
  {
    if i == MAX_VARINT_LEN64 then Err(Overflow)
    else if s == [] then Err(EndOfInput)
    else if s[0] < 128 then
      if i == MAX_VARINT_LEN64 - 1 && s[0] > 1 then Err(Overflow) else Ok((s[0], s[1..]))
    else
      match ReadUvarint(s[1..], i + 1)
      case Err(e) => Err(e)
      case Ok((v, rest)) => Ok((s[0] - 128 + 128 * v, rest))
  }

  lemma Pow128(n: nat)
    requires n >= 7
    ensures Pow(2, n) == 128 * Pow(2, n - 7)
  {
    PowAdd(2, 7, n - 7);
    assert Pow(2, 7) == 128;
  }

  /** Reading undoes writing and leaves exactly what follows. */
  lemma {:induction false} ReadPut(v: nat, i: nat, rest: seq<Byte>)
    requires i < MAX_VARINT_LEN64 && v < Pow(2, 64 - 7 * i)
    ensures ReadUvarint(PutUvarint(v) + rest, i) == Ok((v, rest))
    decreases v
  {
    var s := PutUvarint(v) + rest;
    assert Pow(2, 1) == 2;
    if v < 128 {
      assert s[1..] == rest;
    } else {
      assert i < 9;
      Pow128(64 - 7 * i);
      ReadPut(v / 128, i + 1, rest);
      assert s[1..] == PutUvarint(v / 128) + rest;
    }
  }

  lemma ReadPutWord(v: Word, rest: seq<Byte>)
    ensures ReadUvarint(PutUvarint(v) + rest, 0) == Ok((v, rest))
  {
    TwoTo64();
    ReadPut(v, 0, rest);
  }

  /** What is read fits a word, and at least one byte is consumed. */
  lemma {:induction false} ReadBounds(s: seq<Byte>, i: nat)
    requires i < MAX_VARINT_LEN64 && ReadUvarint(s, i).Ok?
    ensures ReadUvarint(s, i).value.0 < Pow(2, 64 - 7 * i)
    ensures |ReadUvarint(s, i).value.1| < |s|
    decreases MAX_VARINT_LEN64 - i
  {
    if i == 9 {
      assert Pow(2, 1) == 2;
    } else {
      Pow128(64 - 7 * i);
      if s[0] >= 128 { ReadBounds(s[1..], i + 1); }
    }
  }

  lemma ReadWordBounds(s: seq<Byte>)
    requires ReadUvarint(s, 0).Ok?
    ensures ReadUvarint(s, 0).value.0 < TWO64
    ensures |ReadUvarint(s, 0).value.1| < |s|
  {
    TwoTo64();
    ReadBounds(s, 0);
  }
}
