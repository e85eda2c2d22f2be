/** The numbers of scan.go: where a numeral ends, of which kind it is, and that it is the longest one. */
module Numerals {
  import opened Octets

  /** The first position from i on that holds no digit. */
  function DigitsEnd(s: Text, i: nat): (r: nat)
    requires i <= |s|
    ensures i <= r <= |s| && (r < |s| ==> !IsDigit(s[r])) && forall k :: i <= k < r ==> IsDigit(s[k])
    decreases |s| - i
  {
    if i < |s| && IsDigit(s[i]) then DigitsEnd(s, i + 1) else i
  }

  function HexEnd(s: Text, i: nat): (r: nat)
    requires i <= |s|
    ensures i <= r <= |s| && (r < |s| ==> !IsHexDigit(s[r])) && forall k :: i <= k < r ==> IsHexDigit(s[k])
    decreases |s| - i
  {
    if i < |s| && IsHexDigit(s[i]) then HexEnd(s, i + 1) else i
  }

  predicate XAt(s: Text, i: nat) {
    HasAt(s, i, 'x') || HasAt(s, i, 'X')
  }

  predicate EAt(s: Text, i: nat) {
    HasAt(s, i, 'e') || HasAt(s, i, 'E')
  }

  predicate DigitAt(s: Text, i: nat) {
    i < |s| && IsDigit(s[i])
  }

  function SignEnd(s: Text, i: nat): nat {
    if HasAt(s, i, '-') || HasAt(s, i, '+') then i + 1 else i
  }

  /** A digit, or a dot in front of one. */
  predicate StartsNumeral(s: Text, j: nat) {
    DigitAt(s, j) || (HasAt(s, j, '.') && DigitAt(s, j + 1))
  }

  /** The end of the digits around at most one dot, and whether there is one. Two dots are none. */
  function MantissaEnd(s: Text, j: nat): (r: (nat, bool))
    requires StartsNumeral(s, j)
    ensures j < r.0 <= |s|
  {
    if s[j] == '.' then (DigitsEnd(s, j + 1), true)
    else
      var d := DigitsEnd(s, j);
      if HasAt(s, d, '.') && !HasAt(s, d + 1, '.') then (DigitsEnd(s, d + 1), true) else (d, false)
  }

  /** What the scanner finds, and the position where it stops. */
  datatype Numeral = Int(end: nat) | Float(end: nat) | BadHex(end: nat) | BadExponent(end: nat)

  predicate IsHex(s: Text, j: nat) {
    HasAt(s, j, '0') && XAt(s, j + 1)
  }

  /** An x anywhere but behind a single zero is an error, and so is an exponent without digits. */
  function NumeralAt(s: Text, j: nat): (r: Numeral)
    requires StartsNumeral(s, j)
    ensures j < r.end <= |s|
  {
    if IsHex(s, j) then
      var h := HexEnd(s, j + 2);
      if XAt(s, h) || h == j + 2 then BadHex(h) else Int(h)
    else
      var (m, decimal) := MantissaEnd(s, j);
      if EAt(s, m) then
        var p := SignEnd(s, m + 1);
        if !DigitAt(s, p) then BadExponent(p)
        else if XAt(s, DigitsEnd(s, p)) then BadHex(DigitsEnd(s, p))
        else Float(DigitsEnd(s, p))
      else if XAt(s, m) then BadHex(m)
      else if decimal then Float(m)
      else Int(m)
  }

  // The grammar.

  predicate AllDigits(s: Text, i: nat, j: nat) {
    i <= j <= |s| && forall k :: i <= k < j ==> IsDigit(s[k])
  }

  /** Digits, or digits around a dot, from i to j. */
  predicate IsMantissa(s: Text, i: nat, dot: nat, j: nat) {
    AllDigits(s, i, dot) && if dot == j then i < j else i + 1 < j && AllDigits(s, dot + 1, j) && s[dot] == '.'
  }

  predicate IsExponent(s: Text, i: nat, j: nat) {
    EAt(s, i) && SignEnd(s, i + 1) < j && AllDigits(s, SignEnd(s, i + 1), j)
  }

  predicate IsHexInt(s: Text, i: nat, j: nat) {
    IsHex(s, i) && i + 2 < j <= |s| && forall k :: i + 2 <= k < j ==> IsHexDigit(s[k])
  }

  predicate IsInt(s: Text, i: nat, j: nat) {
    IsHexInt(s, i, j) || (i < j && AllDigits(s, i, j))
  }

  /** A dot or an exponent makes the difference. */
  ghost predicate IsFloat(s: Text, i: nat, j: nat) {
    exists dot: nat, m: nat :: IsMantissa(s, i, dot, m) && if m == j then dot < j else IsExponent(s, m, j)
  }

  lemma DigitsEndIs(s: Text, i: nat, r: nat)
    requires AllDigits(s, i, r)
    ensures DigitsEnd(s, i) >= r && (!DigitAt(s, r) ==> DigitsEnd(s, i) == r)
  {}

  /** No mantissa ends later, but for a dot in front of another one. */
  lemma LongestMantissa(s: Text, j: nat, dot: nat, m: nat)
    requires StartsNumeral(s, j) && IsMantissa(s, j, dot, m)
    ensures var (end, _) := MantissaEnd(s, j); m <= end || (m == end + 1 && TwoDots(s, end))
  {
    DigitsEndIs(s, j, dot);
    if dot < m { DigitsEndIs(s, dot + 1, m); }
  }

  predicate TwoDots(s: Text, i: nat) {
    HasAt(s, i, '.') && HasAt(s, i + 1, '.')
  }

  lemma MantissaIs(s: Text, j: nat) returns (dot: nat)
    requires StartsNumeral(s, j)
    ensures var (m, decimal) := MantissaEnd(s, j); IsMantissa(s, j, dot, m) && (decimal <==> dot < m)
  {
    dot := if s[j] == '.' then j else DigitsEnd(s, j);
  }

  /** What is found is a numeral of its kind. */
  lemma NumeralIs(s: Text, j: nat)
    requires StartsNumeral(s, j)
    ensures NumeralAt(s, j).Int? ==> IsInt(s, j, NumeralAt(s, j).end)
    ensures NumeralAt(s, j).Float? ==> IsFloat(s, j, NumeralAt(s, j).end)
  {
    if !IsHex(s, j) {
      var dot := MantissaIs(s, j);
      var (m, decimal) := MantissaEnd(s, j);
      if EAt(s, m) && DigitAt(s, SignEnd(s, m + 1)) {
        assert IsExponent(s, m, DigitsEnd(s, SignEnd(s, m + 1)));
      }
    }
  }

  /** A longer numeral, if there is one, ends with a dot in front of another one. */
  lemma Longest(s: Text, j: nat, end: nat)
    requires StartsNumeral(s, j) && (IsInt(s, j, end) || IsFloat(s, j, end))
    requires NumeralAt(s, j).Int? || NumeralAt(s, j).Float?
    ensures var e := NumeralAt(s, j).end; end <= e || (end == e + 1 && TwoDots(s, e))
  {
    if IsHex(s, j) {
      if IsFloat(s, j, end) { NoFloatWithX(s, j, end); } else { LongestHex(s, j, end); }
    } else if AllDigits(s, j, end) && j < end {
      LongestMantissa(s, j, end, end);
      NotBehindMantissa(s, j);
    } else {
      var dot: nat, m: nat :| IsMantissa(s, j, dot, m) && if m == end then dot < end else IsExponent(s, m, end);
      LongestMantissa(s, j, dot, m);
      NotBehindMantissa(s, j);
      if m != end { LongestExponent(s, j, dot, m, end); }
    }
  }

  lemma NoFloatWithX(s: Text, j: nat, end: nat)
    requires IsHex(s, j)
    ensures !IsFloat(s, j, end)
  {
    forall dot: nat, m: nat | IsMantissa(s, j, dot, m) ensures dot == m == j + 1 && !EAt(s, m) {}
  }

  lemma LongestHex(s: Text, j: nat, end: nat)
    requires StartsNumeral(s, j) && IsHex(s, j) && IsInt(s, j, end)
    ensures end <= NumeralAt(s, j).end
  {}

  lemma NotBehindMantissa(s: Text, j: nat)
    requires StartsNumeral(s, j) && !IsHex(s, j)
    ensures MantissaEnd(s, j).0 <= NumeralAt(s, j).end
    ensures TwoDots(s, MantissaEnd(s, j).0) ==> NumeralAt(s, j).end == MantissaEnd(s, j).0
  {}

  lemma LongestExponent(s: Text, j: nat, dot: nat, m: nat, end: nat)
    requires StartsNumeral(s, j) && !IsHex(s, j) && IsMantissa(s, j, dot, m) && IsExponent(s, m, end)
    ensures end <= NumeralAt(s, j).end
  {
    MantissaBeforeLetter(s, j, dot, m);
    DigitsEndIs(s, SignEnd(s, m + 1), end);
  }

  lemma MantissaBeforeLetter(s: Text, j: nat, dot: nat, m: nat)
    requires StartsNumeral(s, j) && IsMantissa(s, j, dot, m) && (EAt(s, m) || XAt(s, m))
    ensures MantissaEnd(s, j) == (m, dot < m)
  {
    DigitsEndIs(s, j, dot);
    if dot < m { DigitsEndIs(s, dot + 1, m); }
  }

  /** An exponent without digits is an error. */
  lemma WhenBadExponent(s: Text, j: nat, e: nat)
    requires StartsNumeral(s, j) && !IsHex(s, j)
    ensures NumeralAt(s, j) == BadExponent(e) <==>
      exists dot: nat, m: nat ::
        IsMantissa(s, j, dot, m) && EAt(s, m) && e == SignEnd(s, m + 1) && !DigitAt(s, SignEnd(s, m + 1))
  {
    if NumeralAt(s, j) == BadExponent(e) { var dot := MantissaIs(s, j); }
    forall dot: nat, m: nat | IsMantissa(s, j, dot, m) && EAt(s, m) ensures MantissaEnd(s, j).0 == m {
      MantissaBeforeLetter(s, j, dot, m);
    }
  }

  /** A numeral that runs into an x is an error. */
  lemma WhenBadHex(s: Text, j: nat, e: nat)
    requires StartsNumeral(s, j) && !IsHex(s, j)
    ensures NumeralAt(s, j) == BadHex(e) <==> XAt(s, e) && (IsInt(s, j, e) || IsFloat(s, j, e))
  {
    if NumeralAt(s, j) == BadHex(e) { IntoX(s, j); }
    if XAt(s, e) && IsInt(s, j, e) { MantissaBeforeLetter(s, j, e, e); }
    if XAt(s, e) && IsFloat(s, j, e) { FloatIntoX(s, j, e); }
  }

  lemma IntoX(s: Text, j: nat)
    requires StartsNumeral(s, j) && !IsHex(s, j) && NumeralAt(s, j).BadHex?
    ensures var e := NumeralAt(s, j).end; XAt(s, e) && (IsInt(s, j, e) || IsFloat(s, j, e))
  {
    var dot := MantissaIs(s, j);
    var (m, decimal) := MantissaEnd(s, j);
    if EAt(s, m) {
      assert IsExponent(s, m, NumeralAt(s, j).end);
    } else {
      assert dot == m ==> AllDigits(s, j, m);
    }
  }

  lemma FloatIntoX(s: Text, j: nat, e: nat)
    requires StartsNumeral(s, j) && !IsHex(s, j) && XAt(s, e) && IsFloat(s, j, e)
    ensures NumeralAt(s, j) == BadHex(e)
  {
    var dot: nat, m: nat :| IsMantissa(s, j, dot, m) && if m == e then dot < e else IsExponent(s, m, e);
    if m == e { MantissaBeforeLetter(s, j, dot, m); } else { ExponentIntoX(s, j, dot, m, e); }
  }

  lemma ExponentIntoX(s: Text, j: nat, dot: nat, m: nat, e: nat)
    requires StartsNumeral(s, j) && !IsHex(s, j) && IsMantissa(s, j, dot, m) && IsExponent(s, m, e) && XAt(s, e)
    ensures NumeralAt(s, j) == BadHex(e)
  {
    MantissaBeforeLetter(s, j, dot, m);
    DigitsEndIs(s, SignEnd(s, m + 1), e);
  }
}
