/** Calendar arithmetic on time_t values (seconds since the epoch). */
module TimeUtils {

  const SECONDS_PER_DAY: int := 24 * 3600

  /** The largest day count whose product with SECONDS_PER_DAY fits a 32-bit int. */
  const MAX_DAYS: int := 24855

  /** `days * 24 * 3600` is evaluated in 32-bit int arithmetic, so it is only defined
      for day counts whose product stays in range. */
  predicate InDayRange(days: int) {
    -MAX_DAYS <= days <= MAX_DAYS
  }

  /** add_days_to_time: the instant `days` whole days after `base`. */
  function AddDaysToTime(base: int, days: int): (t: int)
    requires InDayRange(days)
    ensures (t - base) % SECONDS_PER_DAY == 0 && (t - base) / SECONDS_PER_DAY == days
    ensures days >= 0 <==> t >= base
  {
    base + days * SECONDS_PER_DAY
  }

  /** Adding no days is the identity. */
  lemma AddZeroDays(base: int)
    ensures AddDaysToTime(base, 0) == base
  {
  }

  /** Adding a days and then b days is adding a + b days. */
  lemma AddDaysCompose(base: int, a: int, b: int)
    requires InDayRange(a) && InDayRange(b) && InDayRange(a + b)
    ensures AddDaysToTime(AddDaysToTime(base, a), b) == AddDaysToTime(base, a + b)
  {
  }

  /** For a fixed base, more days never yields an earlier instant; a strict increase in
      days is a strict increase in time. */
  lemma AddDaysMonotone(base: int, d1: int, d2: int)
    requires InDayRange(d1) && InDayRange(d2)
    ensures d1 <= d2 <==> AddDaysToTime(base, d1) <= AddDaysToTime(base, d2)
    ensures d1 < d2 <==> AddDaysToTime(base, d1) < AddDaysToTime(base, d2)
  {
  }
}
