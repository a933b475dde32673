// Clock readings: nanoseconds from the Unix epoch.
module Times {
  /** The zero time of the source's clock, in the year 1. */
  const ZERO_TIME := -62_135_596_800_000_000_000
  const MINUTE := 60_000_000_000
  const HOUR := 60 * MINUTE
  const DAY := 24 * HOUR
}
