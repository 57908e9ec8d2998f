/**
 Clock readings and timeouts that wrap: up_is_expired of include/up_util.h and
 the conversions of osal/osal.c. The tick counter of FreeRTOS and the reading in
 microseconds are both 32 bits wide.
 */
module Clock {
  import opened Types
  import opened Arithmetic

  /** os_get_current_time_us when so many ticks have passed since the start.
      period is portTICK_PERIOD_MS, which is 1 for a tick of 1 ms. */
  function CurrentTimeUs(ticks: nat, period: u32): u32
    requires 0 < period
  {
    Wrap(1000 * (Wrap(ticks) / period))
  }

  /** up_is_expired */
  predicate IsExpired(current: u32, previous: u32, timeout: u32) {
    timeout <= Wrap(current - previous)
  }

  lemma WrapSum(a: int, k: int)
    ensures Wrap(a + k * TWO32) == Wrap(a)
  {
    ModUnique(a + k * TWO32, a / TWO32 + k, TWO32, a % TWO32);
  }

  /** The difference of two readings is the time between them, modulo 2^32,
      however often ticks and microseconds have overflowed. */
  lemma ReadingsDiffer(t1: nat, t2: nat)
    requires t1 <= t2
    ensures Wrap(CurrentTimeUs(t2, 1) - CurrentTimeUs(t1, 1)) == Wrap(1000 * (t2 - t1))
  {
    var q1, q2 := t1 / TWO32, t2 / TWO32;
    var u1, u2 := 1000 * (t1 % TWO32), 1000 * (t2 % TWO32);
    var k1, k2 := u1 / TWO32, u2 / TWO32;
    assert CurrentTimeUs(t1, 1) == u1 - k1 * TWO32 && CurrentTimeUs(t2, 1) == u2 - k2 * TWO32;
    assert 1000 * (t2 - t1) == u2 - u1 + 1000 * (q2 - q1) * TWO32;
    WrapSum(u2 - u1, 1000 * (q2 - q1));
    WrapSum(u2 - u1, k1 - k2);
    assert CurrentTimeUs(t2, 1) - CurrentTimeUs(t1, 1) == u2 - u1 + (k1 - k2) * TWO32;
  }

  lemma WholeMillisecondsAreEven(ms: nat)
    ensures Wrap(1000 * ms) + 1 < TWO32
  {
    var q := 1000 * ms / TWO32;
    var half := 500 * ms - 0x8000_0000 * q;
    assert Wrap(1000 * ms) == 1000 * ms - TWO32 * q == 2 * half;
  }

  /** With a tick of 1 ms, up_is_expired decides every timeout correctly exactly
      when less than 2^32 microseconds have passed. */
  lemma ExpiredIsRightIff(t1: nat, t2: nat)
    requires t1 <= t2
    ensures (forall timeout: u32 ::
               IsExpired(CurrentTimeUs(t2, 1), CurrentTimeUs(t1, 1), timeout) <==> timeout <= 1000 * (t2 - t1)) <==>
            1000 * (t2 - t1) < TWO32
  {
    ReadingsDiffer(t1, t2);
    var elapsed := 1000 * (t2 - t1);
    if elapsed < TWO32 {
      ModUnique(elapsed, 0, TWO32, elapsed);
    } else {
      var d := Wrap(elapsed);
      WholeMillisecondsAreEven(t2 - t1);
      assert !IsExpired(CurrentTimeUs(t2, 1), CurrentTimeUs(t1, 1), d + 1);
    }
  }

  /** The comment on up_is_expired says "greater than timeout". With less than
      2^32 microseconds passed, the code agrees with that unless the elapsed time
      is the timeout itself: then it says expired. */
  lemma StrictlyExpiredIff(t1: nat, t2: nat, timeout: u32)
    requires t1 <= t2 && 1000 * (t2 - t1) < TWO32
    ensures (IsExpired(CurrentTimeUs(t2, 1), CurrentTimeUs(t1, 1), timeout) <==> timeout < 1000 * (t2 - t1)) <==>
            timeout != 1000 * (t2 - t1)
  {
    ExpiredIsRightIff(t1, t2);
  }

  /** Two readings differ by the time between them, modulo 2^32, when a tick
      lasts period ms. */
  ghost predicate ReadsRight(t1: nat, t2: nat, period: u32)
    requires 0 < period
  {
    Wrap(CurrentTimeUs(t2, period) - CurrentTimeUs(t1, period)) == Wrap(1000 * period * (t2 - t1))
  }

  ghost predicate MeasuresTime(period: u32)
    requires 0 < period
  {
    forall t1: nat, t2: nat :: t1 <= t2 ==> ReadsRight(t1, t2, period)
  }

  lemma FirstTicks(period: u32)
    requires 1 < period
    ensures CurrentTimeUs(0, period) == CurrentTimeUs(1, period) == 0
    ensures CurrentTimeUs(period, period) == 1000
  {
    DivUnique(0, 0, period, 0);
    DivUnique(1, 0, period, 1);
    DivUnique(period, 1, period, 0);
  }

  lemma WrapTimes(a: int, k: nat)
    requires Wrap(a) == 0
    ensures Wrap(a * k) == 0
  {
    assert a == a / TWO32 * TWO32;
    assert a * k == a / TWO32 * k * TWO32;
    ModUnique(a * k, a / TWO32 * k, TWO32, 0);
  }

  /** Only ticks of 1 ms are read as time: the code divides by the length of a
      tick where it should multiply. With any other length the first tick is
      read as no time, which is right only if it lasts a multiple of 2^32
      microseconds, and then the reading after as many ticks as a tick has
      milliseconds is wrong. */
  lemma MeasuresTimeIff(period: u32)
    requires 0 < period
    ensures MeasuresTime(period) <==> period == 1
  {
    if period == 1 {
      forall t1: nat, t2: nat | t1 <= t2
        ensures ReadsRight(t1, t2, 1)
      {
        ReadingsDiffer(t1, t2);
      }
    } else {
      FirstTicks(period);
      if Wrap(1000 * period) == 0 {
        WrapTimes(1000 * period, period);
        assert !ReadsRight(0, period, period);
      } else {
        assert !ReadsRight(0, 1, period);
      }
    }
  }

  /** os_tick_from_us, with the divisor computed in 32 bits */
  function TickFromUs(us: u32, period: u32): u32
    requires 0 < period && 1000 * period < TWO32
  {
    us / (1000 * period)
  }

  /** The delay in ticks of os_usleep, and the period of os_timer_create and
      os_timer_start */
  function SleepTicks(us: u32, period: u32): u32
    requires 0 < period
  {
    us / period / 1000
  }

  /** The two conversions agree, and round down: the ticks last at most us, and
      one tick more lasts longer. */
  lemma TicksAgree(us: u32, period: u32)
    requires 0 < period && 1000 * period < TWO32
    ensures SleepTicks(us, period) == TickFromUs(us, period)
    ensures TickFromUs(us, period) * (1000 * period) <= us < (TickFromUs(us, period) + 1) * (1000 * period)
  {
    var whole, r1 := us / period, us % period;
    var k, r2 := whole / 1000, whole % 1000;
    assert us == period * whole + r1 && whole == 1000 * k + r2;
    SplitTicks(period, whole, k, r2, r1);
    DivUnique(us, k, 1000 * period, r2 * period + r1);
    assert (k + 1) * (1000 * period) == k * (1000 * period) + 1000 * period;
  }

  lemma SplitTicks(period: nat, whole: nat, k: nat, r2: nat, r1: nat)
    requires whole == 1000 * k + r2 && r2 < 1000 && r1 < period
    ensures period * whole + r1 == k * (1000 * period) + (r2 * period + r1)
    ensures 0 <= r2 * period + r1 < 1000 * period
  {
    assert period * whole == period * (1000 * k) + period * r2;
    assert period * (1000 * k) == k * (1000 * period);
    MulGrows(1000 - r2, period);
    assert (1000 - r2) * period == 1000 * period - r2 * period;
  }
}
