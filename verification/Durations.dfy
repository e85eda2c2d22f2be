/** Months, days and nanoseconds of duration.go, with int64 arithmetic that wraps around. */
module Durations {
  import opened Digits
  import opened Machine

  const DAYS_PER_MONTH := 30
  const NANOS_IN_DAY := 86_400_000_000_000
  const NANOS_IN_MONTH := DAYS_PER_MONTH * NANOS_IN_DAY

  /** Go's division: it rounds toward zero. */
  function Quotient(a: int, b: int): int
    requires b > 0
  {
    if a >= 0 then a / b else -(-a / b)
  }

  function Remainder(a: int, b: int): int
    requires b > 0
  {
    a - Quotient(a, b) * b
  }

  datatype Duration = Duration(months: Int64, days: Int64, nanos: Int64)

  /** The length for the purposes of comparison: 30 days to the month, 24 hours to the day. */
  function Total(d: Duration): int {
    d.months * NANOS_IN_MONTH + d.days * NANOS_IN_DAY + d.nanos
  }

  function MoveToMonths(d: Duration, n: Int64): Duration {
    Duration(Wrap(d.months + n), Wrap(d.days - Wrap(n * DAYS_PER_MONTH)), d.nanos)
  }

  function MoveToDays(d: Duration, n: Int64): Duration {
    Duration(d.months, Wrap(d.days + n), Wrap(d.nanos - Wrap(n * NANOS_IN_DAY)))
  }

  function ShiftPosDaysToMonths(d: Duration): Duration {
    var maxMonths := if d.months > 0 then Wrap(MAX_INT - d.months) else MAX_INT;
    MoveToMonths(d, Min(Wrap(Quotient(d.days, DAYS_PER_MONTH)), maxMonths))
  }

  function ShiftPosNanosToDays(d: Duration): Duration {
    var maxDays := if d.days > 0 then Wrap(MAX_INT - d.days) else MAX_INT;
    MoveToDays(d, Min(Wrap(Quotient(d.nanos, NANOS_IN_DAY)), maxDays))
  }

  function ShiftNegDaysToMonths(d: Duration): Duration {
    var minMonths := if d.months < 0 then Wrap(MIN_INT - d.months) else MIN_INT;
    MoveToMonths(d, Max(Wrap(Quotient(d.days, DAYS_PER_MONTH)), minMonths))
  }

  function ShiftNegNanosToDays(d: Duration): Duration {
    var minDays := if d.days < 0 then Wrap(MIN_INT - d.days) else MIN_INT;
    MoveToDays(d, Max(Wrap(Quotient(d.nanos, NANOS_IN_DAY)), minDays))
  }

  function ShiftDays(d: Duration): Duration {
    if d.days > 0 then ShiftPosDaysToMonths(d)
    else if d.days < 0 then ShiftNegDaysToMonths(d)
    else d
  }

  function ShiftNanos(d: Duration): Duration {
    if d.nanos > 0 then ShiftPosDaysToMonths(ShiftPosNanosToDays(d))
    else if d.nanos < 0 then ShiftNegDaysToMonths(ShiftNegNanosToDays(d))
    else d
  }

  function Normalize(d: Duration): Duration {
    ShiftNanos(ShiftDays(d))
  }

  function CompareFields(n: Duration, m: Duration): int {
    if n.months < m.months then -1
    else if n.months > m.months then 1
    else if n.days < m.days then -1
    else if n.days > m.days then 1
    else if n.nanos < m.nanos then -1
    else if n.nanos > m.nanos then 1
    else 0
  }

  function Compare(d: Duration, x: Duration): int {
    CompareFields(Normalize(d), Normalize(x))
  }

  function Sign(x: int): int {
    if x < 0 then -1 else if x > 0 then 1 else 0
  }

  /** Days and nanoseconds are carried over unless the months, or the days too, are at their limit. */
  predicate Normal(d: Duration) {
    && (-30 < d.days < 30 || (d.months == MAX_INT && d.days >= 30) || (d.months == MIN_INT && d.days <= -30))
    && (-NANOS_IN_DAY < d.nanos < NANOS_IN_DAY
        || (d.months == MAX_INT && d.days == MAX_INT && d.nanos >= NANOS_IN_DAY)
        || (d.months == MIN_INT && d.days == MIN_INT && d.nanos <= -NANOS_IN_DAY))
  }

  predicate NonNegative(d: Duration) {
    d.months >= 0 && d.days >= 0 && d.nanos >= 0
  }

  predicate NonPositive(d: Duration) {
    d.months <= 0 && d.days <= 0 && d.nanos <= 0
  }

  predicate Uniform(d: Duration) {
    NonNegative(d) || NonPositive(d)
  }

  /** The whole days of a duration. */
  function TotalDays(d: Duration): int {
    DAYS_PER_MONTH * d.months + d.days + Quotient(d.nanos, NANOS_IN_DAY)
  }

  /** Days and nanoseconds of opposite sign at the far end of the months are what wraps around. */
  predicate NoWrap(d: Duration) {
    && (d.days < 0 < d.nanos ==> TotalDays(d) > DAYS_PER_MONTH * MIN_INT - DAYS_PER_MONTH)
    && (d.nanos < 0 < d.days ==> TotalDays(d) < DAYS_PER_MONTH * MAX_INT + DAYS_PER_MONTH)
  }

  lemma QuotientFacts(a: int, b: int)
    requires b > 0
    ensures a >= 0 ==> 0 <= Quotient(a, b) * b <= a < Quotient(a, b) * b + b
    ensures a <= 0 ==> Quotient(a, b) * b - b < a <= Quotient(a, b) * b <= 0
  {
    if a >= 0 {
      QuotientBounds(a, b);
    } else {
      QuotientBounds(-a, b);
      NegatedProduct(-a / b, b);
    }
  }

  lemma QuotientBounds(a: nat, b: nat)
    requires b > 0
    ensures 0 <= a / b * b <= a < a / b * b + b
  {
    DivModIdentity(a, b);
  }

  lemma NegatedProduct(q: int, b: int)
    ensures -q * b == -(q * b)
  {}

  // The single shifts. Moving n units keeps the total unless a field wraps around.

  lemma PosDays(d: Duration)
    requires d.days >= 0
    ensures var r := ShiftPosDaysToMonths(d);
            && Total(r) == Total(d) && r.nanos == d.nanos && 0 <= r.days && d.months <= r.months
            && (r.days < 30 || r.months == MAX_INT) && (d.months == MAX_INT ==> r.days == d.days)
            && DAYS_PER_MONTH * r.months + r.days == DAYS_PER_MONTH * d.months + d.days
  {}

  lemma NegDays(d: Duration)
    requires d.days <= 0
    ensures var r := ShiftNegDaysToMonths(d);
            && Total(r) == Total(d) && r.nanos == d.nanos && r.days <= 0 && r.months <= d.months
            && (r.days > -30 || r.months == MIN_INT) && (d.months == MIN_INT ==> r.days == d.days)
            && DAYS_PER_MONTH * r.months + r.days == DAYS_PER_MONTH * d.months + d.days
  {}

  lemma FewDays(d: Duration)
    requires -30 < d.days < 30
    ensures d.days <= 0 ==> ShiftPosDaysToMonths(d) == d
    ensures d.days >= 0 ==> ShiftNegDaysToMonths(d) == d
  {}

  /** The day shift of the wrong sign goes past the limit of the months. */
  lemma PosDaysWraps(d: Duration)
    requires d.days <= -30 && d.months == MIN_INT
    ensures var r := ShiftPosDaysToMonths(d); r.months > 0 && Total(r) != Total(d)
  {}

  lemma NegDaysWraps(d: Duration)
    requires d.days >= 30 && d.months == MAX_INT
    ensures var r := ShiftNegDaysToMonths(d); r.months < 0 && Total(r) != Total(d)
  {}

  lemma PosNanos(d: Duration)
    requires d.nanos >= 0
    ensures var r := ShiftPosNanosToDays(d);
            && Total(r) == Total(d) && r.months == d.months && 0 <= r.nanos && d.days <= r.days
            && (r.nanos < NANOS_IN_DAY || r.days == MAX_INT)
            && (r.days < MAX_INT ==> r.days == d.days + Quotient(d.nanos, NANOS_IN_DAY))
            && r.days <= d.days + Quotient(d.nanos, NANOS_IN_DAY)
  {}

  lemma NegNanos(d: Duration)
    requires d.nanos <= 0
    ensures var r := ShiftNegNanosToDays(d);
            && Total(r) == Total(d) && r.months == d.months && r.nanos <= 0 && r.days <= d.days
            && (r.nanos > -NANOS_IN_DAY || r.days == MIN_INT)
            && (r.days > MIN_INT ==> r.days == d.days + Quotient(d.nanos, NANOS_IN_DAY))
            && r.days >= d.days + Quotient(d.nanos, NANOS_IN_DAY)
  {}

  /** What the first shift of days leaves behind. */
  ghost predicate DaysShifted(d: Duration, e: Duration) {
    && Total(e) == Total(d) && e.nanos == d.nanos
    && DAYS_PER_MONTH * e.months + e.days == DAYS_PER_MONTH * d.months + d.days
    && (d.days >= 0 ==> 0 <= e.days && d.months <= e.months) && (d.days <= 0 ==> e.days <= 0 && e.months <= d.months)
    && (e.days < 30 || e.months == MAX_INT) && (e.days > -30 || e.months == MIN_INT)
  }

  lemma FirstShift(d: Duration)
    ensures DaysShifted(d, ShiftDays(d))
  {
    if d.days >= 0 { PosDays(d); }
    if d.days <= 0 { NegDays(d); }
  }

  /** Only a duration of uniform sign can be left with more than it may carry. */
  predicate Tame(d: Duration) {
    Uniform(d) || (-30 < d.days < 30 && -NANOS_IN_DAY < d.nanos < NANOS_IN_DAY)
  }

  lemma SecondShiftPos(d: Duration, e: Duration)
    requires DaysShifted(d, e) && d.nanos > 0
    ensures NoWrap(d) ==> Total(ShiftNanos(e)) == Total(d) && Normal(ShiftNanos(e))
    ensures NoWrap(d) ==> Tame(ShiftNanos(e))
    ensures !NoWrap(d) ==> ShiftNanos(e).months > 0 && Total(ShiftNanos(e)) != Total(d)
  {
    PosNanos(e);
    QuotientFacts(d.nanos, NANOS_IN_DAY);
    var f := ShiftPosNanosToDays(e);
    if f.days >= 0 {
      PosDays(f);
    } else if f.days > -30 {
      FewDays(f);
    } else {
      PosDaysWraps(f);
    }
  }

  lemma SecondShiftNeg(d: Duration, e: Duration)
    requires DaysShifted(d, e) && d.nanos < 0
    ensures NoWrap(d) ==> Total(ShiftNanos(e)) == Total(d) && Normal(ShiftNanos(e))
    ensures NoWrap(d) ==> Tame(ShiftNanos(e))
    ensures !NoWrap(d) ==> ShiftNanos(e).months < 0 && Total(ShiftNanos(e)) != Total(d)
  {
    NegNanos(e);
    QuotientFacts(d.nanos, NANOS_IN_DAY);
    var f := ShiftNegNanosToDays(e);
    if f.days <= 0 {
      NegDays(f);
    } else if f.days < 30 {
      FewDays(f);
    } else {
      NegDaysWraps(f);
    }
  }

  /** Normalizing keeps the length, and carries over, exactly when nothing wraps around. */
  lemma NormalizeExact(d: Duration)
    ensures Total(Normalize(d)) == Total(d) <==> NoWrap(d)
    ensures NoWrap(d) ==> Normal(Normalize(d)) && Tame(Normalize(d))
  {
    FirstShift(d);
    if d.nanos > 0 { SecondShiftPos(d, ShiftDays(d)); }
    if d.nanos < 0 { SecondShiftNeg(d, ShiftDays(d)); }
  }

  lemma ModerateTotal(d: Duration)
    requires -0x4000_0000_0000_0000 <= d.months <= 0x4000_0000_0000_0000
    ensures MIN_INT * NANOS_IN_MONTH < Total(d) < MAX_INT * NANOS_IN_MONTH
  {}

  lemma ModerateNoWrap(d: Duration)
    requires -0x4000_0000_0000_0000 <= d.months <= 0x4000_0000_0000_0000
    ensures NoWrap(d)
  {
    QuotientFacts(d.nanos, NANOS_IN_DAY);
  }

  /** With months of moderate size nothing wraps around, and everything is carried over. */
  lemma ModerateMonths(d: Duration)
    requires -0x4000_0000_0000_0000 <= d.months <= 0x4000_0000_0000_0000
    ensures NoWrap(d)
    ensures -30 < Normalize(d).days < 30 && -NANOS_IN_DAY < Normalize(d).nanos < NANOS_IN_DAY
  {
    ModerateNoWrap(d);
    ModerateTotal(d);
    NormalizeExact(d);
    NotAtLimit(Normalize(d));
  }

  lemma NotAtLimit(n: Duration)
    requires Normal(n) && MIN_INT * NANOS_IN_MONTH < Total(n) < MAX_INT * NANOS_IN_MONTH
    ensures -30 < n.days < 30 && -NANOS_IN_DAY < n.nanos < NANOS_IN_DAY
  {}

  /** The farthest duration back, a nanosecond less: its months come out positive. */
  lemma NormalizeWraps()
    ensures var d := Duration(MIN_INT, -60, 1);
            !NoWrap(d) && Total(d) < 0 && Normalize(d).months > 0
  {
    var d := Duration(MIN_INT, -60, 1);
    FirstShift(d);
    SecondShiftPos(d, ShiftDays(d));
  }

  lemma NonNegativeStays(d: Duration)
    requires NonNegative(d)
    ensures NoWrap(d) && Uniform(Normalize(d))
  {
    FirstShift(d);
    var e := ShiftDays(d);
    PosNanos(e);
    PosDays(ShiftPosNanosToDays(e));
  }

  lemma NonPositiveStays(d: Duration)
    requires NonPositive(d)
    ensures NoWrap(d) && Uniform(Normalize(d))
  {
    FirstShift(d);
    var e := ShiftDays(d);
    NegNanos(e);
    NegDays(ShiftNegNanosToDays(e));
  }

  lemma UniformStays(d: Duration)
    requires Uniform(d)
    ensures NoWrap(d) && Uniform(Normalize(d))
  {
    if NonNegative(d) { NonNegativeStays(d); } else { NonPositiveStays(d); }
  }

  lemma FewerMonths(n: Duration, m: Duration)
    requires Normal(n) && NonNegative(n) && NonNegative(m) && n.months < m.months
    ensures Total(n) < Total(m)
  {
    assert n.days <= 29 && n.nanos < NANOS_IN_DAY;
    assert (n.months + 1) * NANOS_IN_MONTH <= m.months * NANOS_IN_MONTH;
  }

  lemma FewerDays(n: Duration, m: Duration)
    requires Normal(n) && NonNegative(n) && NonNegative(m) && n.months == m.months && n.days < m.days
    ensures Total(n) < Total(m)
  {
    assert n.nanos < NANOS_IN_DAY;
    assert (n.days + 1) * NANOS_IN_DAY <= m.days * NANOS_IN_DAY;
  }

  lemma LessAbove(n: Duration, m: Duration)
    requires Normal(n) && Normal(m) && NonNegative(n) && NonNegative(m) && CompareFields(n, m) == -1
    ensures Total(n) < Total(m)
  {
    if n.months < m.months {
      FewerMonths(n, m);
    } else if n.days < m.days {
      FewerDays(n, m);
    }
  }

  lemma OrderAbove(n: Duration, m: Duration)
    requires Normal(n) && Normal(m) && NonNegative(n) && NonNegative(m)
    ensures CompareFields(n, m) == Sign(Total(n) - Total(m))
  {
    if CompareFields(n, m) == -1 { LessAbove(n, m); }
    if CompareFields(n, m) == 1 { LessAbove(m, n); }
  }

  lemma LessBelow(n: Duration, m: Duration)
    requires Normal(n) && Normal(m) && NonPositive(n) && NonPositive(m) && CompareFields(n, m) == -1
    ensures Total(n) < Total(m)
  {
    if n.months < m.months {
      assert m.days > -30 && m.nanos > -NANOS_IN_DAY;
    } else if n.days < m.days {
      assert m.nanos > -NANOS_IN_DAY;
    }
  }

  lemma OrderBelow(n: Duration, m: Duration)
    requires Normal(n) && Normal(m) && NonPositive(n) && NonPositive(m)
    ensures CompareFields(n, m) == Sign(Total(n) - Total(m))
  {
    if CompareFields(n, m) == -1 { LessBelow(n, m); }
    if CompareFields(n, m) == 1 { LessBelow(m, n); }
  }

  lemma OrderAcross(n: Duration, m: Duration)
    requires (NonPositive(n) && NonNegative(m)) || (NonNegative(n) && NonPositive(m))
    ensures CompareFields(n, m) == Sign(Total(n) - Total(m))
  {}

  /** On normal durations of uniform sign the fields decide as the lengths do. */
  lemma UniformOrder(n: Duration, m: Duration)
    requires Normal(n) && Normal(m) && Uniform(n) && Uniform(m)
    ensures CompareFields(n, m) == Sign(Total(n) - Total(m))
  {
    if NonNegative(n) && NonNegative(m) { OrderAbove(n, m); }
    else if NonPositive(n) && NonPositive(m) { OrderBelow(n, m); }
    else { OrderAcross(n, m); }
  }

  /** The duration of uniform sign that is as long as a tame one. */
  function Twin(n: Duration): (x: Duration)
    requires Tame(n) && !Uniform(n)
    ensures Uniform(x) && Total(x) == Total(n)
  {
    var t := Total(n);
    QuotientFacts(t, NANOS_IN_MONTH);
    var rest := t - Quotient(t, NANOS_IN_MONTH) * NANOS_IN_MONTH;
    QuotientFacts(rest, NANOS_IN_DAY);
    TwinFits(n, Quotient(t, NANOS_IN_MONTH));
    var days := Quotient(rest, NANOS_IN_DAY);
    Duration(Quotient(t, NANOS_IN_MONTH), days, rest - days * NANOS_IN_DAY)
  }

  lemma TwinFits(n: Duration, q: int)
    requires Tame(n) && !Uniform(n) && q == Quotient(Total(n), NANOS_IN_MONTH)
    ensures MIN_INT <= q <= MAX_INT
  {
    QuotientFacts(Total(n), NANOS_IN_MONTH);
    assert n.months * NANOS_IN_MONTH - NANOS_IN_MONTH < Total(n) < n.months * NANOS_IN_MONTH + NANOS_IN_MONTH;
  }

  predicate Agrees(d: Duration, x: Duration) {
    Compare(d, x) == Sign(Total(d) - Total(x))
  }

  /** The fields of the normal form exist without wrapping around and agree in sign. */
  predicate Comparable(d: Duration) {
    NoWrap(d) && Uniform(Normalize(d))
  }

  /** Comparison follows length wherever both normal forms have a uniform sign, mixed as the fields may be. */
  lemma CompareExact(d: Duration, x: Duration)
    requires Comparable(d) && Comparable(x)
    ensures Agrees(d, x)
  {
    NormalizeExact(d);
    NormalizeExact(x);
    UniformOrder(Normalize(d), Normalize(x));
  }

  /** Comparison follows length on all durations whose fields agree in sign. */
  lemma CompareUniform(d: Duration, x: Duration)
    requires Uniform(d) && Uniform(x)
    ensures Agrees(d, x)
  {
    UniformStays(d);
    UniformStays(x);
    CompareExact(d, x);
  }

  lemma WrappedLength(d: Duration)
    requires !NoWrap(d)
    ensures d.nanos != 0 && (d.nanos > 0 ==> Total(d) < 0) && (d.nanos < 0 ==> Total(d) > 0)
  {
    QuotientFacts(d.nanos, NANOS_IN_DAY);
  }

  lemma WrappedMonths(d: Duration)
    requires !NoWrap(d)
    ensures (d.nanos > 0 ==> Normalize(d).months > 0) && (d.nanos < 0 ==> Normalize(d).months < 0)
  {
    FirstShift(d);
    if d.nanos > 0 { SecondShiftPos(d, ShiftDays(d)); } else { SecondShiftNeg(d, ShiftDays(d)); }
  }

  const ZERO := Duration(0, 0, 0)

  lemma WrappedDisagrees(d: Duration)
    requires !NoWrap(d)
    ensures !Agrees(d, ZERO)
  {
    WrappedLength(d);
    WrappedMonths(d);
    var n := Normalize(d);
    assert Normalize(ZERO) == ZERO;
    assert Compare(d, ZERO) == CompareFields(n, ZERO);
  }

  lemma MixedDisagrees(d: Duration)
    requires NoWrap(d) && !Uniform(Normalize(d))
    ensures exists x :: Uniform(x) && !Agrees(d, x)
  {
    NormalizeExact(d);
    var x := Twin(Normalize(d));
    UniformStays(x);
    assert !Agrees(d, x);
  }

  /**
   A duration compares by length with every duration of uniform sign exactly when its normal form
   exists and has a uniform sign itself.
   */
  lemma CompareFollowsLength(d: Duration)
    ensures (forall x :: Uniform(x) ==> Agrees(d, x)) <==> Comparable(d)
  {
    if !NoWrap(d) {
      WrappedDisagrees(d);
    } else if !Uniform(Normalize(d)) {
      MixedDisagrees(d);
    } else {
      forall x | Uniform(x) ensures Agrees(d, x) {
        UniformStays(x);
        CompareExact(d, x);
      }
    }
  }

  /** One month less a day against 29 days. */
  lemma MixedSignsCompareGreater()
    ensures var d, x := Duration(1, -1, 0), Duration(0, 29, 0);
            Total(d) == Total(x) && Compare(d, x) == 1
  {}

  // Encode and Decode.

  function Encode(d: Duration): (Int64, Int64, Int64) {
    (Wrap(Wrap(Wrap(d.months * NANOS_IN_MONTH) + Wrap(d.days * NANOS_IN_DAY)) + d.nanos), d.months, d.days)
  }

  function Decode(sortNanos: Int64, months: Int64, days: Int64): Duration {
    Duration(months, days, Wrap(Wrap(sortNanos - Wrap(months * NANOS_IN_MONTH)) - Wrap(days * NANOS_IN_DAY)))
  }

  /** Wrapping loses multiples of 2 to the 64 and nothing else. */
  lemma WrapMultiple(x: int) returns (k: int)
    ensures Wrap(x) == x + k * TWO64
  {
    k := -((x + 0x8000_0000_0000_0000) / TWO64);
  }

  lemma WrapSame(x: int, y: Int64, k: int)
    requires x == y + k * TWO64
    ensures Wrap(x) == y
  {}

  /** An inner wrap does not matter. */
  lemma WrapSum(x: int, y: int)
    ensures Wrap(Wrap(x) + y) == Wrap(x + y)
  {
    var j := WrapMultiple(x);
    var k := WrapMultiple(x + y);
    WrapSame(Wrap(x) + y, Wrap(x + y), j - k);
  }

  lemma WrapTaken(x: int, y: int)
    ensures Wrap(Wrap(x + y) - x) == Wrap(y)
  {
    WrapSum(x + y, -x);
  }

  lemma BothTaken(m: int, n: int, x: Int64)
    ensures Wrap(Wrap(Wrap(m + n + x) - m) - n) == x
  {
    WrapTaken(m, n + x);
    WrapTaken(n, x);
  }

  /** Subtracting what was added, in any order of wrapping, leaves the rest. */
  lemma WrapBack(m: int, n: int, x: Int64)
    ensures Wrap(Wrap(Wrap(Wrap(m + n) + x) - m) - n) == x
  {
    WrapSum(m + n, x);
    BothTaken(m, n, x);
  }

  /** Decoding gives the duration back for all fields, also where the sum has overflowed. */
  lemma EncodeRoundTrip(d: Duration)
    ensures var (sortNanos, months, days) := Encode(d); Decode(sortNanos, months, days) == d
  {
    WrapBack(Wrap(d.months * NANOS_IN_MONTH), Wrap(d.days * NANOS_IN_DAY), d.nanos);
  }

  lemma WrapAll(m: int, n: int, x: int)
    ensures Wrap(Wrap(Wrap(m) + Wrap(n)) + x) == Wrap(m + n + x)
  {
    WrapSum(m, Wrap(n));
    WrapSum(n, m);
    WrapSum(m + n, x);
  }

  /** The sort key is the length, and so sorts durations by it, exactly when the length fits. */
  lemma SortKeyIsLength(d: Duration)
    ensures Encode(d).0 == Total(d) <==> MIN_INT <= Total(d) <= MAX_INT
  {
    WrapAll(d.months * NANOS_IN_MONTH, d.days * NANOS_IN_DAY, d.nanos);
  }
}
