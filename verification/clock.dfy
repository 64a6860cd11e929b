/**
 * Time as the model sees it. Every wall-clock read of the source
 * (`LocalDateTime.now()`, `Instant.now()`, `new Date()`) becomes an explicit
 * parameter of this type: milliseconds on one shared time line.
 */
module Clock {

  type Millis = int

  const MILLIS_PER_DAY: Millis := 24 * 60 * 60 * 1000

  /** `LocalDateTime.plusWeeks`: a zone-less date-time, so a week is always seven whole days. */
  function PlusWeeks(t: Millis, weeks: nat): (r: Millis)
    ensures r - t == weeks * 7 * MILLIS_PER_DAY
  {
    t + weeks * 7 * MILLIS_PER_DAY
  }
}
