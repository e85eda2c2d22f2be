/** The textual form of IP addresses: numbers, dotted octets, and groups with an ellipsis. */
module IpText {
  import opened Bytes
  import opened Slices
  import Chars = Octets

  const BIG := 0xFFFFFF

  // Numbers of either base.

  /** The value of a digit; None for any other character. */
  function DigitValue(c: char, base: nat): (d: Option<nat>)
    ensures d.Some? ==> d.value < base
  {
    if '0' <= c <= '9' && c as int - '0' as int < base then Some(c as int - '0' as int)
    else if base == 16 && 'a' <= c <= 'f' then Some(c as int - 'a' as int + 10)
    else if base == 16 && 'A' <= c <= 'F' then Some(c as int - 'A' as int + 10)
    else None
  }

  /** The value of a digit is its place in one of the tables. */
  lemma DigitTable(c: char, base: nat, v: nat)
    requires base == 10 || base == 16
    ensures DigitValue(c, base) == Some(v) <==> v < base && (c == Chars.HEX_LOWER[v] || c == Chars.HEX_UPPER[v])
  {
    if v < base { Chars.HexTable(v); }
  }

  predicate AllDigits(h: string, base: nat) {
    forall i :: 0 <= i < |h| ==> DigitValue(h[i], base).Some?
  }

  /** The number that digits denote, whatever their count. */
  function NumberOf(h: string, base: nat): nat
    requires AllDigits(h, base)
  {
    if h == [] then 0 else NumberOf(h[..|h| - 1], base) * base + DigitValue(h[|h| - 1], base).value
  }

  /** dtoi and xtoi from position i on, where the digits before it make up n. */
  function ScanNumber(s: string, base: nat, i: nat, n: nat): (r: Option<(nat, nat)>)
    requires i <= |s|
    ensures r.Some? ==> 0 < r.value.1 <= |s|
    decreases |s| - i
  {
    if i == |s| || DigitValue(s[i], base).None? then if i == 0 then None else Some((n, i))
    else
      var m := n * base + DigitValue(s[i], base).value;
      if m >= BIG then None else ScanNumber(s, base, i + 1, m)
  }

  function Scanned(s: string, base: nat): Option<(nat, nat)> {
    ScanNumber(s, base, 0, 0)
  }

  lemma {:induction false} NumberGrows(h: string, t: string, base: nat)
    requires base > 0 && AllDigits(h + t, base)
    ensures AllDigits(h, base) && NumberOf(h, base) <= NumberOf(h + t, base)
    decreases |t|
  {
    assert AllDigits(h, base) by { assert forall i :: 0 <= i < |h| ==> h[i] == (h + t)[i]; }
    if t == [] {
      assert h + t == h;
    } else {
      var u := t[..|t| - 1];
      assert (h + t)[..|h + t| - 1] == h + u;
      assert AllDigits(h + u, base) by { assert forall i :: 0 <= i < |h + u| ==> (h + u)[i] == (h + t)[i]; }
      NumberGrows(h, u, base);
      Increases(NumberOf(h + u, base), base);
    }
  }

  lemma Increases(n: nat, base: nat)
    requires base > 0
    ensures n <= n * base
  {}

  function TableDigit(d: nat, upper: bool): char
    requires d < 16
  {
    if upper then Chars.HEX_UPPER[d] else Chars.HEX_LOWER[d]
  }

  /** The numeral of a number, with the digits of the tables. */
  function Numeral(v: nat, base: nat, upper: bool): (h: string)
    requires base == 10 || base == 16
    ensures h != ""
  {
    (if v < base then "" else Numeral(v / base, base, upper)) + [TableDigit(v % base, upper)]
  }

  lemma {:induction false} NumeralDenotes(v: nat, base: nat, upper: bool)
    requires base == 10 || base == 16
    ensures AllDigits(Numeral(v, base, upper), base) && NumberOf(Numeral(v, base, upper), base) == v
    decreases v
  {
    if v >= base { NumeralDenotes(v / base, base, upper); }
    NumeralStep(v, base, upper, v / base, v % base);
  }

  lemma NumeralStep(v: nat, base: nat, upper: bool, q: nat, r: nat)
    requires (base == 10 || base == 16) && q == v / base && r == v % base
    requires v >= base ==> AllDigits(Numeral(q, base, upper), base) && NumberOf(Numeral(q, base, upper), base) == q
    ensures AllDigits(Numeral(v, base, upper), base) && NumberOf(Numeral(v, base, upper), base) == v
  {
    var high := if v < base then "" else Numeral(q, base, upper);
    TableDigitValue(r, base, upper);
    DigitAppended(high, TableDigit(r, upper), base, r);
    Divided(v, base);
  }

  lemma Divided(v: nat, base: nat)
    requires base == 10 || base == 16
    ensures v == v / base * base + v % base && (v < base ==> v / base == 0)
  {}

  lemma TableDigitValue(d: nat, base: nat, upper: bool)
    requires (base == 10 || base == 16) && d < base
    ensures DigitValue(TableDigit(d, upper), base) == Some(d)
  {
    DigitTable(TableDigit(d, upper), base, d);
  }

  lemma DigitAppended(high: string, c: char, base: nat, d: nat)
    requires AllDigits(high, base) && DigitValue(c, base) == Some(d)
    ensures AllDigits(high + [c], base) && NumberOf(high + [c], base) == NumberOf(high, base) * base + d
  {
    assert (high + [c])[..|high|] == high;
  }

  /** A character that ends a number, or the end of the text. */
  predicate Stops(rest: string, base: nat) {
    rest == [] || DigitValue(rest[0], base).None?
  }

  /** Digits of a value below the limit are read to their end. */
  lemma {:induction false} ScanComplete(s: string, base: nat, h: string, rest: string, i: nat, n: nat)
    requires base > 0 && s == h + rest && AllDigits(h, base) && h != [] && Stops(rest, base) && NumberOf(h, base) < BIG
    requires i <= |h| && AllDigits(h[..i], base) && n == NumberOf(h[..i], base)
    ensures ScanNumber(s, base, i, n) == Some((NumberOf(h, base), |h|))
    decreases |h| - i
  {
    if i == |h| {
      assert h[..i] == h;
      if rest != [] { assert s[i] == rest[0]; }
    } else {
      assert s[i] == h[i];
      assert h[..i + 1][..i] == h[..i];
      assert h == h[..i + 1] + h[i + 1..];
      NumberGrows(h[..i + 1], h[i + 1..], base);
      ScanComplete(s, base, h, rest, i + 1, NumberOf(h[..i + 1], base));
    }
  }

  lemma MoreDigits(s: string, i: nat, base: nat)
    requires i < |s| && AllDigits(s[..i], base) && DigitValue(s[i], base).Some?
    ensures AllDigits(s[..i + 1], base)
  {
    assert s[..i + 1] == s[..i] + [s[i]];
  }

  /** What is read are digits, and their value. */
  lemma {:induction false} ScanSound(s: string, base: nat, i: nat, n: nat)
    requires base > 0 && i <= |s| && AllDigits(s[..i], base) && n == NumberOf(s[..i], base)
    requires ScanNumber(s, base, i, n).Some?
    ensures var (v, c) := ScanNumber(s, base, i, n).value;
            i <= c && AllDigits(s[..c], base) && v == NumberOf(s[..c], base) && Stops(s[c..], base)
    decreases |s| - i
  {
    if i < |s| && DigitValue(s[i], base).Some? {
      assert s[..i + 1][..i] == s[..i];
      MoreDigits(s, i, base);
      ScanSound(s, base, i + 1, NumberOf(s[..i + 1], base));
    }
  }

  /** A number of the grammar: at least one digit, any number of leading zeros. */
  predicate IsNumber(h: string, base: nat, limit: nat) {
    h != [] && AllDigits(h, base) && NumberOf(h, base) <= limit
  }

  lemma ScanNumberText(h: string, rest: string, base: nat, limit: nat)
    requires base > 0 && IsNumber(h, base, limit) && limit < BIG && Stops(rest, base)
    ensures Scanned(h + rest, base) == Some((NumberOf(h, base), |h|))
  {
    assert h[..0] == [];
    ScanComplete(h + rest, base, h, rest, 0, 0);
  }

  lemma ScannedText(s: string, base: nat, limit: nat) returns (h: string)
    requires base > 0 && Scanned(s, base).Some? && Scanned(s, base).value.0 <= limit
    ensures IsNumber(h, base, limit) && |h| == Scanned(s, base).value.1 && s == h + s[|h|..]
    ensures NumberOf(h, base) == Scanned(s, base).value.0 && Stops(s[|h|..], base)
  {
    assert s[..0] == [];
    ScanSound(s, base, 0, 0);
    h := s[..Scanned(s, base).value.1];
  }

  // Dotted octets.

  /** parseIPv4 when i octets have been read. */
  function Octets(s: string, i: nat): (r: Option<seq<Byte>>)
    requires i <= 4
    ensures r.Some? ==> |r.value| == 4 - i
    decreases 4 - i
  {
    if i == 4 then if s == [] then Some([]) else None
    else if s == [] || (i > 0 && s[0] != '.') then None
    else
      var t := if i > 0 then s[1..] else s;
      match Scanned(t, 10)
      case None => None
      case Some((n, c)) =>
        if n > 0xFF then None
        else match Octets(t[c..], i + 1)
          case None => None
          case Some(rest) => Some([n] + rest)
  }

  predicate AllOctets(os: seq<string>) {
    forall k :: 0 <= k < |os| ==> IsNumber(os[k], 10, 0xFF)
  }

  /** Octets separated by dots, the first of them number i. */
  function Dotted(os: seq<string>, i: nat): string {
    if os == [] then "" else (if i > 0 then "." else "") + os[0] + Dotted(os[1..], i + 1)
  }

  function OctetBytes(os: seq<string>): (b: seq<Byte>)
    requires AllOctets(os)
    ensures |b| == |os|
  {
    if os == [] then [] else [NumberOf(os[0], 10)] + OctetBytes(os[1..])
  }

  lemma DotStops(os: seq<string>, i: nat)
    requires i > 0
    ensures Stops(Dotted(os, i), 10) && Stops(Dotted(os, i), 16)
    ensures os != [] ==> Dotted(os, i)[0] == '.'
  {}

  /** Dotted octets are accepted and denote their values. */
  lemma {:induction false} OctetsComplete(os: seq<string>, i: nat)
    requires i <= 4 && |os| == 4 - i && AllOctets(os)
    ensures Octets(Dotted(os, i), i) == Some(OctetBytes(os))
    decreases 4 - i
  {
    if os != [] {
      var s, rest := Dotted(os, i), Dotted(os[1..], i + 1);
      var t := if i > 0 then s[1..] else s;
      assert t == os[0] + rest;
      DotStops(os[1..], i + 1);
      ScanNumberText(os[0], rest, 10, 0xFF);
      assert t[|os[0]|..] == rest;
      OctetsComplete(os[1..], i + 1);
    }
  }

  lemma DottedStep(s: string, i: nat, h: string, rest: seq<string>)
    requires IsNumber(h, 10, 0xFF) && AllOctets(rest) && s == (if i > 0 then "." else "") + h + Dotted(rest, i + 1)
    ensures AllOctets([h] + rest) && Dotted([h] + rest, i) == s
    ensures OctetBytes([h] + rest) == [NumberOf(h, 10)] + OctetBytes(rest)
  {
    assert ([h] + rest)[1..] == rest;
  }

  /** What is accepted are dotted octets. */
  lemma {:induction false} OctetsSound(s: string, i: nat) returns (os: seq<string>)
    requires i <= 4 && Octets(s, i).Some?
    ensures |os| == 4 - i && AllOctets(os) && Dotted(os, i) == s && OctetBytes(os) == Octets(s, i).value
    decreases 4 - i
  {
    if i == 4 {
      os := [];
    } else {
      var t := if i > 0 then s[1..] else s;
      assert s == (if i > 0 then "." else "") + t;
      var h := ScannedText(t, 10, 0xFF);
      var u := t[|h|..];
      var rest := OctetsSound(u, i + 1);
      Associate(if i > 0 then "." else "", h, u);
      DottedStep(s, i, h, rest);
      os := [h] + rest;
    }
  }

  function Numerals(vs: seq<nat>, base: nat, upper: bool): (hs: seq<string>)
    requires base == 10 || base == 16
    ensures |hs| == |vs| && forall k :: 0 <= k < |vs| ==> hs[k] == Numeral(vs[k], base, upper)
  {
    seq(|vs|, k requires 0 <= k < |vs| => Numeral(vs[k], base, upper))
  }

  lemma NumeralsAreNumbers(vs: seq<nat>, base: nat, upper: bool, limit: nat)
    requires base == 10 || base == 16
    requires forall k :: 0 <= k < |vs| ==> vs[k] <= limit
    ensures var hs := Numerals(vs, base, upper);
            forall k :: 0 <= k < |vs| ==> IsNumber(hs[k], base, limit) && NumberOf(hs[k], base) == vs[k]
  {
    forall k | 0 <= k < |vs|
      ensures var h := Numerals(vs, base, upper)[k]; IsNumber(h, base, limit) && NumberOf(h, base) == vs[k]
    {
      NumeralDenotes(vs[k], base, upper);
    }
  }

  lemma {:induction false} OctetBytesAt(os: seq<string>, k: nat)
    requires AllOctets(os) && k < |os|
    ensures OctetBytes(os)[k] == NumberOf(os[k], 10)
    decreases |os|
  {
    if k > 0 { OctetBytesAt(os[1..], k - 1); }
  }

  /** Four printed octets are read back. */
  lemma DottedRoundTrip(vs: seq<nat>)
    requires |vs| == 4 && forall k :: 0 <= k < 4 ==> vs[k] <= 0xFF
    ensures Octets(Dotted(Numerals(vs, 10, false), 0), 0) == Some(vs)
  {
    var os := Numerals(vs, 10, false);
    NumeralsAreNumbers(vs, 10, false, 0xFF);
    OctetsComplete(os, 0);
    forall k | 0 <= k < 4 ensures OctetBytes(os)[k] == vs[k] { OctetBytesAt(os, k); }
    assert OctetBytes(os) == vs;
  }
}
