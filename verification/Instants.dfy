/** Points in time, as the program's `time.Time` values behave.

    An instant is a number of nanoseconds since the Unix epoch.  Go's zero `time.Time` is the
    ordinary instant 0001-01-01T00:00:00Z, and `IsZero` is equality with it, so a computed time
    can be "zero" by accident; keeping it as a plain integer preserves that. */
module Instants {

  type Instant = int

  const SECOND: int := 1_000_000_000

  /** 0001-01-01T00:00:00Z: 719162 days before the epoch. */
  const ZERO: Instant := -62_135_596_800_000_000_000

  /** `Time.Unix`: whole epoch seconds, rounded down. */
  function Unix(t: Instant): int {
    t / 1_000_000_000
  }

  /** The second an instant lies in, before the epoch as after it. */
  lemma UnixFloors(t: Instant)
    ensures FromUnix(Unix(t)) <= t < FromUnix(Unix(t) + 1)
  {
    assert t == 1_000_000_000 * (t / 1_000_000_000) + t % 1_000_000_000;
  }

  /** `time.Unix(s, 0)`. */
  function FromUnix(s: int): Instant {
    s * 1_000_000_000
  }

  lemma FromUnixOfUnix(t: Instant)
    requires t % 1_000_000_000 == 0
    ensures FromUnix(Unix(t)) == t
  {
  }

  /** The largest and smallest `time.Duration`, in nanoseconds. */
  const MAX_DURATION: int := 0x7FFF_FFFF_FFFF_FFFF
  const MIN_DURATION: int := -0x8000_0000_0000_0000

  /** `t.Sub(u)` saturates at the ends of the 64-bit duration range. */
  function Sub(t: Instant, u: Instant): int {
    if t - u > MAX_DURATION then MAX_DURATION
    else if t - u < MIN_DURATION then MIN_DURATION
    else t - u
  }
}
