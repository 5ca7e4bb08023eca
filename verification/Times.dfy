/** Clock readings: an instant is a number of nanoseconds relative to the Unix epoch. */
module Times {

  type Instant = int

  const MILLISECOND := 1_000_000
  const SECOND := 1_000_000_000
  const MINUTE := 60 * SECOND

  /** The zero value of a Go time: 1 January of year 1. */
  const ZERO_TIME: Instant := -62_135_596_800 * SECOND

  /** Milliseconds since the Unix epoch, rounded down also before the epoch. */
  function UnixMilli(t: Instant): int {
    t / MILLISECOND
  }

  lemma UnixMilliMonotone(a: Instant, b: Instant)
    requires a <= b
    ensures UnixMilli(a) <= UnixMilli(b)
  {
  }
}
