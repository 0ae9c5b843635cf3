/** ClamdClient's deadline test: a System.nanoTime() reading at the start of a write
    or read, a later reading, and a timeout in milliseconds, all in Java `long`
    arithmetic. */
module Timing {
  import opened Bytes

  const MinLong: int := -0x8000_0000_0000_0000
  const MaxLong: int := 0x7FFF_FFFF_FFFF_FFFF

  /** Whether a Java `int` can hold the value (the timeout fields are `int`s). */
  predicate IsInt(x: int)
  {
    -0x8000_0000 <= x < 0x8000_0000
  }

  /** timeout_milli * 1000L * 1000L, each product wrapped to a `long`. */
  function Nanos(timeoutMilli: int64): (n: int64)
    ensures IsInt(timeoutMilli as int) ==> n as int == timeoutMilli as int * 1_000_000
  {
    WrapLong(WrapLong(timeoutMilli as int * 1000) as int * 1000)
  }

  /** isTimeout as written: the reading less the timeout is compared with the start
      reading, Long.compare(now - timeout_nano, start) > 0. */
  predicate IsTimeoutAsWritten(start: int64, timeoutMilli: int64, now: int64)
  {
    WrapLong(now as int - Nanos(timeoutMilli) as int) > start
  }

  /** isTimeout as intended: the time elapsed since the start reading exceeds the
      timeout, Long.compare(now - start, timeout_nano) > 0, which is how
      System.nanoTime readings are to be compared. */
  predicate IsTimeout(start: int64, timeoutMilli: int64, now: int64)
  {
    WrapLong(now as int - start as int) > Nanos(timeoutMilli)
  }

  /** For any `int` timeout and any elapsed time a `long` can measure, the deadline
      test says exactly whether more than the timeout has passed, even when the
      readings wrap around. */
  lemma TimeoutMeansElapsed(start: int64, timeoutMilli: int64, now: int64, elapsed: int)
    requires IsInt(timeoutMilli as int)
    requires 0 <= elapsed <= MaxLong
    requires (now as int - start as int - elapsed) % TwoTo64 == 0
    ensures IsTimeout(start, timeoutMilli, now) <==> elapsed > timeoutMilli as int * 1_000_000
  {
    var d := now as int - start as int;
    var w := WrapLong(d);
    assert (w as int - elapsed) % TwoTo64 == 0 by {
      assert (w as int - d) % TwoTo64 == 0;
      assert w as int - elapsed == (w as int - d) + (d - elapsed);
      ModSum(w as int - d, d - elapsed);
    }
    SameLong(w as int, elapsed);
  }

  /** Two `long` values that are congruent modulo 2^64 are equal. */
  lemma SameLong(a: int, b: int)
    requires MinLong <= a <= MaxLong && MinLong <= b <= MaxLong
    requires (a - b) % TwoTo64 == 0
    ensures a == b
  {
    var q := (a - b) / TwoTo64;
    assert a - b == q * TwoTo64;
  }

  lemma ModSum(x: int, y: int)
    requires x % TwoTo64 == 0 && y % TwoTo64 == 0
    ensures (x + y) % TwoTo64 == 0
  {
    var p, q := x / TwoTo64, y / TwoTo64;
    assert x == p * TwoTo64 && y == q * TwoTo64;
    assert x + y == (p + q) * TwoTo64;
  }

  /** Once the deadline test holds it keeps holding as more time passes. */
  lemma TimeoutStaysExpired(start: int64, timeoutMilli: int64, now1: int64, e1: int, now2: int64, e2: int)
    requires IsInt(timeoutMilli as int)
    requires 0 <= e1 <= e2 <= MaxLong
    requires (now1 as int - start as int - e1) % TwoTo64 == 0
    requires (now2 as int - start as int - e2) % TwoTo64 == 0
    requires IsTimeout(start, timeoutMilli, now1)
    ensures IsTimeout(start, timeoutMilli, now2)
  {
    TimeoutMeansElapsed(start, timeoutMilli, now1, e1);
    TimeoutMeansElapsed(start, timeoutMilli, now2, e2);
  }

  /** While the subtraction does not overflow, the test as written agrees with the
      intended one. */
  lemma AsWrittenWithoutOverflow(start: int64, timeoutMilli: int64, now: int64)
    requires IsInt(timeoutMilli as int)
    requires MinLong <= now as int - timeoutMilli as int * 1_000_000 <= MaxLong
    requires MinLong <= now as int - start as int <= MaxLong
    ensures IsTimeoutAsWritten(start, timeoutMilli, now) <==> IsTimeout(start, timeoutMilli, now)
  {
  }

  /** A start reading 10 ns before Long.MAX_VALUE, and a reading 2000 ms + 100 ns
      later that has wrapped to a negative value: the test as written reports no
      timeout, although the deadline has passed. */
  lemma LateAcrossWrapMissed(start: int64, now: int64)
    requires start as int == MaxLong - 10
    requires now == WrapLong(start as int + 2_000_000_100)
    ensures !IsTimeoutAsWritten(start, 2000, now)
    ensures IsTimeout(start, 2000, now)
  {
    assert now as int == start as int + 2_000_000_100 - TwoTo64;
    TimeoutMeansElapsed(start, 2000, now, 2_000_000_100);
  }

  /** A start reading at Long.MIN_VALUE: the test as written reports a timeout at
      once, with no time elapsed. */
  lemma FreshStartTimedOut(start: int64)
    requires start as int == MinLong
    ensures IsTimeoutAsWritten(start, 2000, start)
    ensures !IsTimeout(start, 2000, start)
  {
    assert WrapLong(start as int - 2_000_000_000) as int == MinLong - 2_000_000_000 + TwoTo64;
  }
}
