/**
 * The time arithmetic of shared/util.c: timespec conversions and the
 * exponential retry backoff. Every quantity is an unsigned long long, an
 * integer below 2^64 whose arithmetic wraps modulo 2^64; the clock reading
 * (now_msec) is a parameter.
 */
module UtilTime {

  const U64_LIMIT: nat := 0x1_0000_0000_0000_0000
  const ULLONG_MAX: nat := U64_LIMIT - 1

  const MSEC_PER_SEC: nat := 1000
  const USEC_PER_SEC: nat := 1000000
  const NSEC_PER_USEC: nat := 1000
  const NSEC_PER_MSEC: nat := 1000000
  const NSEC_PER_SEC: nat := 1000000000

  /** struct timespec: seconds (time_t) and nanoseconds (long), both signed. */
  datatype Timespec = Timespec(sec: int, nsec: int)

  /** A timespec as the kernel hands it out: nanoseconds below one second. */
  predicate Normalized(ts: Timespec) {
    0 <= ts.sec && 0 <= ts.nsec < NSEC_PER_SEC
  }

  /** A cast to unsigned long long: the value modulo 2^64. */
  function ToU64(x: int): (r: nat)
    ensures r < U64_LIMIT
    ensures 0 <= x < U64_LIMIT ==> r == x
  {
    x % U64_LIMIT
  }

  /** ts_usec: the timespec in microseconds, wrapping modulo 2^64. */
  function TsUsec(ts: Timespec): (r: nat)
    ensures r < U64_LIMIT
  {
    (ToU64(ts.sec) * USEC_PER_SEC + ToU64(ts.nsec) / NSEC_PER_USEC) % U64_LIMIT
  }

  /** ts_msec: the timespec in milliseconds, wrapping modulo 2^64. */
  function TsMsec(ts: Timespec): (r: nat)
    ensures r < U64_LIMIT
  {
    (ToU64(ts.sec) * MSEC_PER_SEC + ToU64(ts.nsec) / NSEC_PER_MSEC) % U64_LIMIT
  }

  /**
   * msec_ts: milliseconds split into whole seconds and the nanoseconds of
   * the remaining milliseconds, which always make a normalized timespec.
   */
  function MsecTs(msec: nat): (ts: Timespec)
    requires msec < U64_LIMIT
    ensures Normalized(ts) && ts.nsec % NSEC_PER_MSEC == 0
    ensures ts.sec * MSEC_PER_SEC + ts.nsec / NSEC_PER_MSEC == msec
  {
    Timespec(msec / MSEC_PER_SEC, (msec % MSEC_PER_SEC) * NSEC_PER_MSEC)
  }

  /** Converting milliseconds to a timespec and back gives them back. */
  lemma MsecRoundTrip(msec: nat)
    requires msec < U64_LIMIT
    ensures TsMsec(MsecTs(msec)) == msec
  {
    var ts := MsecTs(msec);
    assert ts.sec < U64_LIMIT && ts.nsec < U64_LIMIT;
    assert ToU64(ts.sec) == ts.sec && ToU64(ts.nsec) == ts.nsec;
  }

  /**
   * A normalized timespec whose milliseconds fit in 64 bits survives the
   * trip through milliseconds with its nanoseconds cut to whole milliseconds.
   */
  lemma TimespecRoundTrip(ts: Timespec)
    requires Normalized(ts) && ts.sec * MSEC_PER_SEC + ts.nsec / NSEC_PER_MSEC < U64_LIMIT
    ensures MsecTs(TsMsec(ts)) == Timespec(ts.sec, ts.nsec / NSEC_PER_MSEC * NSEC_PER_MSEC)
  {
    var m := ts.sec * MSEC_PER_SEC + ts.nsec / NSEC_PER_MSEC;
    assert ToU64(ts.sec) == ts.sec && ToU64(ts.nsec) == ts.nsec;
    assert TsMsec(ts) == m;
    var q := ts.nsec / NSEC_PER_MSEC;
    assert 0 <= q < MSEC_PER_SEC;
    assert m / MSEC_PER_SEC == ts.sec && m % MSEC_PER_SEC == q by {
      DivModConst(m, ts.sec, q);
    }
  }

  /** m == 1000 * s + q with q < 1000 fixes the quotient and remainder. */
  lemma DivModConst(m: int, s: int, q: int)
    requires 0 <= q < MSEC_PER_SEC && m == s * MSEC_PER_SEC + q
    ensures m / MSEC_PER_SEC == s && m % MSEC_PER_SEC == q
  {
  }

  /** In microseconds, a timespec built from milliseconds is 1000 times as large, modulo 2^64. */
  lemma MsecTsInUsec(msec: nat)
    requires msec < U64_LIMIT
    ensures TsUsec(MsecTs(msec)) == (msec * 1000) % U64_LIMIT
  {
    var ts := MsecTs(msec);
    assert ToU64(ts.sec) == ts.sec && ToU64(ts.nsec) == ts.nsec;
    assert ts.nsec / NSEC_PER_USEC == (msec % MSEC_PER_SEC) * 1000;
    assert ts.sec * USEC_PER_SEC + (msec % MSEC_PER_SEC) * 1000 == msec * 1000;
  }

  /** Without wrap-around, ts_usec is the exact count of whole microseconds. */
  lemma TsUsecExact(ts: Timespec)
    requires Normalized(ts) && ts.sec * USEC_PER_SEC + ts.nsec / NSEC_PER_USEC < U64_LIMIT
    ensures TsUsec(ts) == ts.sec * USEC_PER_SEC + ts.nsec / NSEC_PER_USEC
    ensures TsUsec(ts) * NSEC_PER_USEC <= ts.sec * NSEC_PER_SEC + ts.nsec < (TsUsec(ts) + 1) * NSEC_PER_USEC
  {
    assert ToU64(ts.sec) == ts.sec && ToU64(ts.nsec) == ts.nsec;
  }

  // ---------------------------------------------------------------------
  // get_backoff_delta_msec

  /**
   * The requested delta doubled: 1 for 0, and ULLONG_MAX when doubling
   * overflows (umulll_overflow).
   */
  function Doubled(delta: nat): (d: nat)
    requires delta < U64_LIMIT
    ensures 1 <= d < U64_LIMIT && delta <= d
    ensures 0 < delta && 2 * delta < U64_LIMIT ==> d == 2 * delta
  {
    if delta == 0 then 1
    else if 2 * delta >= U64_LIMIT then ULLONG_MAX
    else 2 * delta
  }

  /** m is reached from d0 by shifting right zero or more times. */
  ghost predicate InHalvings(m: nat, d0: nat)
    decreases d0
  {
    m == d0 || (d0 > 0 && InHalvings(m, d0 / 2))
  }

  /**
   * d is the first value of the halving sequence of d0 that fits in limit:
   * every larger value of the sequence is above the limit.
   */
  ghost predicate FirstFit(d: nat, d0: nat, limit: nat) {
    InHalvings(d, d0) && d <= limit && forall m: nat :: InHalvings(m, d0) && m > d ==> m > limit
  }

  lemma {:induction false} HalvingsBelow(m: nat, d0: nat)
    requires InHalvings(m, d0)
    ensures m <= d0
    decreases d0
  {
    if m != d0 {
      HalvingsBelow(m, d0 / 2);
    }
  }

  /** No value of a halving sequence lies strictly between d / 2 and d. */
  lemma {:induction false} HalvingsGap(m: nat, d: nat, d0: nat)
    requires InHalvings(m, d0) && InHalvings(d, d0)
    ensures m >= d || m <= d / 2
    decreases d0
  {
    if m == d0 {
      HalvingsBelow(d, d0);
    } else if d == d0 {
      HalvingsBelow(m, d0 / 2);
    } else {
      HalvingsGap(m, d, d0 / 2);
    }
  }

  /** Every halving sequence from a positive value passes through 1. */
  lemma {:induction false} OneInHalvings(d0: nat)
    requires d0 >= 1
    ensures InHalvings(1, d0)
    decreases d0
  {
    if d0 > 1 {
      OneInHalvings(d0 / 2);
    }
  }

  /** At most one value is the first fit. */
  lemma FirstFitUnique(d1: nat, d2: nat, d0: nat, limit: nat)
    requires FirstFit(d1, d0, limit) && FirstFit(d2, d0, limit)
    ensures d1 == d2
  {
  }

  /** A doubled delta that already fits is taken as it is. */
  lemma FirstFitWhole(d0: nat, limit: nat)
    requires d0 <= limit
    ensures FirstFit(d0, d0, limit)
  {
    forall m: nat | InHalvings(m, d0) ensures m <= d0 {
      HalvingsBelow(m, d0);
    }
  }

  /**
   * With a positive limit the first fit of a positive value is positive,
   * so the fall back to the whole limit in get_backoff_delta_msec never
   * fires.
   */
  lemma FirstFitPositive(d: nat, d0: nat, limit: nat)
    requires d0 >= 1 && limit >= 1 && FirstFit(d, d0, limit)
    ensures d >= 1
  {
    OneInHalvings(d0);
  }

  /**
   * get_backoff_delta_msec, with now the clock reading: returns the next
   * wake-up time now + d and the new delta d. Past the deadline tend the
   * delta is 0; before it, d is the first value of the halving sequence of
   * the doubled delta that fits in tend - now, so 0 < d <= tend - now.
   */
  method GetBackoffDeltaMsec(tend: nat, delta: nat, now: nat) returns (newDelta: nat, wake: nat)
    requires tend < U64_LIMIT && delta < U64_LIMIT && now < U64_LIMIT
    ensures newDelta < U64_LIMIT && wake < U64_LIMIT
    ensures tend <= now ==> newDelta == 0 && wake == now
    ensures now < tend ==> 0 < newDelta <= tend - now && wake == now + newDelta
    ensures now < tend ==> FirstFit(newDelta, Doubled(delta), tend - now)
  {
    var d := delta;
    var t := now;
    if tend <= t {
      d := 0;
    } else {
      var limit := tend - t;
      if d == 0 {
        d := 1;
      } else if 2 * d >= U64_LIMIT {
        d := ULLONG_MAX;
      } else {
        d := 2 * d;
      }
      assert d == Doubled(delta);
      d := Halve(d, limit);
      if d == 0 {
        d := limit;
      }
    }
    newDelta := d;
    wake := (t + d) % U64_LIMIT;
  }

  /**
   * The backoff loop of get_backoff_delta_msec: halves d0 while it exceeds
   * limit, and so returns its first value that fits.
   */
  method Halve(d0: nat, limit: nat) returns (d: nat)
    requires d0 >= 1 && limit >= 1
    ensures d >= 1 && FirstFit(d, d0, limit)
  {
    d := d0;
    forall m: nat | InHalvings(m, d0) ensures m <= d0 {
      HalvingsBelow(m, d0);
    }
    while d > limit
      invariant 1 <= d <= d0 && InHalvings(d, d0)
      invariant forall m: nat :: InHalvings(m, d0) && m > d ==> m > limit
    {
      forall m: nat | InHalvings(m, d0) && m > d / 2 ensures m > limit {
        HalvingsGap(m, d, d0);
      }
      HalvingsStep(d, d0);
      d := d / 2;
    }
  }

  /** The value after d in a halving sequence through d is in it too. */
  lemma {:induction false} HalvingsStep(d: nat, d0: nat)
    requires InHalvings(d, d0) && d > 0
    ensures InHalvings(d / 2, d0)
    decreases d0
  {
    if d != d0 {
      HalvingsStep(d, d0 / 2);
    }
  }
}
