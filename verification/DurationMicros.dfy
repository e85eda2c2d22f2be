/** Differences and sums of times in microseconds, beyond the 290 years that fit a time.Duration. */
module DurationMicros {
  import opened Durations
  import opened Machine

  const NANOS_PER_MICRO := 1000

  /** A time in nanoseconds. A time.Time spans 64-bit seconds, so differences stay below the limit. */
  const MAX_SPAN := 0x1_0000_0000_0000_0000 * 1_000_000_000

  /** Time.Sub: the difference, or the nearest duration there is. */
  function Sub(t1: int, t2: int): Int64 {
    if t1 - t2 < MIN_INT then MIN_INT else if t1 - t2 > MAX_INT then MAX_INT else t1 - t2
  }

  /** Rounding to whole microseconds, halves away from zero. */
  function RoundHalfAway(nanos: int): int {
    var q, r := Quotient(nanos, NANOS_PER_MICRO), Remainder(nanos, NANOS_PER_MICRO);
    if r >= 500 then q + 1 else if r <= -500 then q - 1 else q
  }

  /** What is meant by it: the microsecond nearest to the input, and the farther from zero of two. */
  lemma RoundHalfAwayMeans(nanos: int)
    ensures var m := RoundHalfAway(nanos) * NANOS_PER_MICRO;
            && -500 <= m - nanos <= 500
            && (m - nanos == -500 ==> nanos < 0) && (m - nanos == 500 ==> nanos > 0)
  {
    QuotientFacts(nanos, NANOS_PER_MICRO);
  }

  lemma WholeMicros(micros: int)
    ensures RoundHalfAway(NANOS_PER_MICRO * micros) == micros
  {
    QuotientFacts(NANOS_PER_MICRO * micros, NANOS_PER_MICRO);
  }

  predicate SameSign(a: int, b: int) {
    (a >= 0 && b >= 0) || (a <= 0 && b <= 0)
  }

  /** Moving whole microseconds of the same sign out of the rounding changes nothing. */
  lemma RoundSplit(micros: int, nanos: int)
    requires SameSign(micros, nanos)
    ensures RoundHalfAway(NANOS_PER_MICRO * micros + nanos) == micros + RoundHalfAway(nanos)
  {
    QuotientFacts(nanos, NANOS_PER_MICRO);
    QuotientFacts(NANOS_PER_MICRO * micros + nanos, NANOS_PER_MICRO);
  }

  /** The state of the loop: micros and nanos account for what t1 has moved. */
  ghost predicate Accounted(start: int, rest: int, micros: int, nanos: int, rounds: nat) {
    && start == NANOS_PER_MICRO * micros + nanos + rest
    && SameSign(start, rest) && SameSign(start, micros) && SameSign(start, nanos)
    && -1000 * rounds <= nanos <= 1000 * rounds
    && (start == 0 ==> micros == 0 && nanos == 0 && rest == 0)
    && rounds * MAX_INT <= (if start >= 0 then start - rest else rest - start)
  }

  /** The step that a difference d takes. */
  lemma Step(start: int, rest: int, micros: int, nanos: int, rounds: nat, d: int)
    requires Accounted(start, rest, micros, nanos, rounds) && SameSign(rest, d) && -MAX_INT <= d <= MAX_INT
    requires SameSign(rest, rest - d) && (rest == 0 ==> d == 0)
    requires -MAX_SPAN <= start <= MAX_SPAN
    ensures var m, n := micros + Quotient(d, NANOS_PER_MICRO), nanos + Remainder(d, NANOS_PER_MICRO);
            && start == NANOS_PER_MICRO * m + n + (rest - d)
            && SameSign(start, m) && SameSign(start, n) && SameSign(m, n)
            && -1000 * (rounds + 1) <= n <= 1000 * (rounds + 1) && MIN_INT < n < MAX_INT
            && (d == MAX_INT || d == -MAX_INT ==> Accounted(start, rest - d, m, n, rounds + 1))
  {
    QuotientFacts(d, NANOS_PER_MICRO);
  }

  /** A difference goes into the microseconds, and its remainder into the nanoseconds. */
  method AddDifference(micros: Int64, nanos: Int64, d: Int64, ghost start: int, ghost rest: int, ghost exact: int,
        ghost rounds: nat)
    returns (m: Int64, n: Int64, ghost e: int)
    requires micros == Wrap(exact) && Accounted(start, rest, exact, nanos, rounds)
    requires SameSign(rest, d) && SameSign(rest, rest - d) && -MAX_INT <= d <= MAX_INT && (rest == 0 ==> d == 0)
    requires -MAX_SPAN <= start <= MAX_SPAN
    ensures m == Wrap(e) && start == NANOS_PER_MICRO * e + n + (rest - d) && SameSign(e, n)
    ensures d == MAX_INT || d == -MAX_INT ==> Accounted(start, rest - d, e, n, rounds + 1)
  {
    Step(start, rest, exact, nanos, rounds, d);
    WrapSum(exact, Quotient(d, NANOS_PER_MICRO));
    e := exact + Quotient(d, NANOS_PER_MICRO);
    m := Wrap(micros + Quotient(d, NANOS_PER_MICRO));
    n := Wrap(nanos + Remainder(d, NANOS_PER_MICRO));
  }

  /**
   The difference rounded to microseconds, for all times a time.Time can hold; it is exact when it
   fits an int64 and wraps around otherwise.
   */
  method DiffMicros(time1: int, t2: int) returns (r: Int64)
    requires -MAX_SPAN <= time1 - t2 <= MAX_SPAN
    ensures r == Wrap(RoundHalfAway(time1 - t2))
  {
    var t1 := time1;
    var micros: Int64, nanos: Int64 := 0, 0;
    ghost var exact: int, rounds: nat := 0, 0;
    while true
      invariant micros == Wrap(exact) && Accounted(time1 - t2, t1 - t2, exact, nanos, rounds)
      decreases if t1 >= t2 then t1 - t2 else t2 - t1
    {
      var d := Sub(t1, t2);
      var overflow := d == MIN_INT || d == MAX_INT;
      if d == MIN_INT { d := -MAX_INT; }
      micros, nanos, exact := AddDifference(micros, nanos, d, time1 - t2, t1 - t2, exact, rounds);
      if !overflow { break; }
      t1 := t1 - d;
      rounds := rounds + 1;
    }
    RoundSplit(exact, nanos);
    r := Rounded(micros, nanos, exact);
  }

  /** The last digits: nanoseconds left over from the loop are rounded into the microseconds. */
  method Rounded(whole: Int64, nanos: Int64, ghost exact: int) returns (micros: Int64)
    requires whole == Wrap(exact)
    ensures micros == Wrap(exact + RoundHalfAway(nanos))
  {
    micros := AddRounded(whole, Quotient(nanos, NANOS_PER_MICRO), Remainder(nanos, NANOS_PER_MICRO), exact);
  }

  method AddRounded(whole: Int64, q: int, nanoRem: int, ghost exact: int) returns (micros: Int64)
    requires whole == Wrap(exact)
    ensures micros == Wrap(exact + if nanoRem >= 500 then q + 1 else if nanoRem <= -500 then q - 1 else q)
  {
    micros := Wrap(whole + q);
    WrapSum(exact, q);
    if nanoRem >= 500 {
      WrapSum(exact + q, 1);
      micros := Wrap(micros + 1);
    } else if nanoRem <= -500 {
      WrapSum(exact + q, -1);
      micros := Wrap(micros - 1);
    }
  }

  const MAX_MICRO_DUR := 0x7fff_ffff_ffff_ffff / 1000

  /** Every delta is added exactly but the smallest, which cannot be negated and adds nothing. */
  method AddMicros(time: int, delta: Int64) returns (t: int)
    ensures t == if delta == MIN_INT then time else time + NANOS_PER_MICRO * delta
  {
    t := time;
    var negMult := 1;
    var d := delta;
    if d < 0 {
      negMult := -1;
      d := Wrap(-d);
    }
    while d > MAX_MICRO_DUR
      invariant delta == MIN_INT ==> d == MIN_INT && t == time
      invariant delta != MIN_INT ==> d >= 0 && t + NANOS_PER_MICRO * (negMult * d) == time + NANOS_PER_MICRO * delta
      invariant negMult == if delta < 0 then -1 else 1
      decreases d
    {
      t := t + negMult * (MAX_MICRO_DUR * NANOS_PER_MICRO);
      d := d - MAX_MICRO_DUR;
    }
    t := t + Wrap(Wrap(negMult * d) * NANOS_PER_MICRO);
  }

  /** Adding and taking the difference give the delta back, exactly for all but the smallest one. */
  method AddThenDiff(t: int, d: Int64) returns (r: Int64)
    ensures r == d <==> d != MIN_INT
  {
    var sum := AddMicros(t, d);
    r := DiffMicros(sum, t);
    WholeMicros(if d == MIN_INT then 0 else d);
  }
}
