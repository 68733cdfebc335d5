/** Points in time, as the server reads them from its clock. */
module Clock {

  /** A point in time, in nanoseconds since the Unix epoch. */
  type Time = int

  const SECOND: Time := 1_000_000_000

  /** time.Time.Unix: whole seconds, rounded down. */
  function Unix(t: Time): int {
    t / SECOND
  }
}
