/** Time and expiry, as every component of the gateway uses them.

    A point in time is an integer number of nanoseconds, read from one clock
    that all instances share. */
module Ttl {
  datatype Option<+T> = None | Some(value: T)

  const SECOND: int := 1_000_000_000

  /** time.Time.Unix(): whole seconds since the epoch, rounded down. */
  function Unix(t: int): int {
    t / SECOND
  }

  /** A stored value; an absent expiry is Go's zero time and never lapses. */
  datatype Entry<+V> = Entry(value: V, expiry: Option<int>)

  /** Expiration.Before(now): an entry is still readable at its very expiry time. */
  predicate Lapsed(expiry: Option<int>, now: int) {
    expiry.Some? && expiry.value < now
  }

  /** Truncation loses less than one second. */
  lemma UnixBounds(t: int)
    ensures t - SECOND < Unix(t) * SECOND <= t
  {}
}
