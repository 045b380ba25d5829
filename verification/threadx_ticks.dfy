/** The tick arithmetic of the ThreadX port. */
module ThreadXTicks {

  /** nanoseconds::rep; every operation on it is checked for overflow. */
  newtype Int64 = n: int | -0x8000_0000_0000_0000 <= n < 0x8000_0000_0000_0000

  const NS_PER_SECOND: int := 1_000_000_000
  const TX_WAIT_FOREVER: int := 0xFFFF_FFFF
  const MAX_TICKS: int := TX_WAIT_FOREVER - 1

  /** The longest duration that is not clamped. */
  function MaxNs(rate: Int64): (ns: Int64)
    requires rate >= 1
    ensures 0 <= ns as int * rate as int <= MAX_TICKS * NS_PER_SECOND < (ns as int + 1) * rate as int
  {
    Divided(MAX_TICKS * NS_PER_SECOND, rate as int);
    4_294_967_294_000_000_000 / rate
  }

  lemma Divided(a: int, b: int)
    requires a >= 0 && b >= 1
    ensures 0 <= a / b <= a
    ensures (a / b) * b <= a < (a / b + 1) * b
  {
    assert a == b * (a / b) + a % b;
  }

  /** Ticks to block for. No intermediate overflows, whatever the rate and the duration, and the result
      is never the value that waits for ever. */
  function BlockingTicks(duration: Int64, rate: Int64): (ticks: Int64)
    requires rate >= 1
    ensures 0 <= ticks as int <= MAX_TICKS < TX_WAIT_FOREVER
  {
    if duration <= 0 then 0
    else
      var ns := if duration <= MaxNs(rate) then duration else MaxNs(rate);
      TimesRate(ns as int, MaxNs(rate) as int, rate as int);
      (ns * rate + 1_000_000_000 - 1) / 1_000_000_000
  }

  lemma TimesRate(ns: int, max: int, rate: int)
    requires 0 <= ns <= max && rate >= 1
    ensures 0 <= ns * rate <= max * rate
  {
  }

  /** The duration that is waited for: the one asked, unless it is clamped. */
  function Clamped(duration: Int64, rate: Int64): int
    requires rate >= 1
  {
    if duration <= 0 then 0 else if duration <= MaxNs(rate) then duration as int else MaxNs(rate) as int
  }

  /** It is the exact ceiling of that duration in ticks: long enough, and one tick less is too short. */
  lemma ExactCeiling(duration: Int64, rate: Int64)
    requires rate >= 1
    ensures var ticks, wanted := BlockingTicks(duration, rate) as int, Clamped(duration, rate) * rate as int;
      (ticks - 1) * NS_PER_SECOND < wanted <= ticks * NS_PER_SECOND
  {
  }

  /** A longer duration never blocks for fewer ticks. */
  lemma Monotone(shorter: Int64, longer: Int64, rate: Int64)
    requires rate >= 1 && shorter <= longer
    ensures BlockingTicks(shorter, rate) <= BlockingTicks(longer, rate)
  {
    TimesRate(Clamped(shorter, rate), Clamped(longer, rate), rate as int);
    ExactCeiling(shorter, rate);
    ExactCeiling(longer, rate);
  }

  /** Any time left is worth a tick, exactly for the rates at which the clamp is at least a nanosecond. */
  lemma ZeroOnlyWithoutTimeLeft(duration: Int64, rate: Int64)
    requires rate >= 1
    ensures BlockingTicks(duration, rate) == 0 <==> duration <= 0 || rate as int > MAX_TICKS * NS_PER_SECOND
  {
    if duration > 0 {
      ExactCeiling(duration, rate);
      var max := MaxNs(rate) as int;
      if rate as int > MAX_TICKS * NS_PER_SECOND {
        assert max == 0 by {
          if max >= 1 { TimesRate(1, max, rate as int); }
        }
      } else {
        assert max >= 1;
        TimesRate(1, Clamped(duration, rate), rate as int);
      }
    }
  }

  /** At a rate of at most a tick per nanosecond, what is clamped blocks for the most ticks there are. */
  lemma ClampedIsLongest(duration: Int64, rate: Int64)
    requires 1 <= rate && rate as int <= NS_PER_SECOND && duration >= MaxNs(rate)
    ensures BlockingTicks(duration, rate) as int == MAX_TICKS
  {
    ExactCeiling(duration, rate);
  }
}
