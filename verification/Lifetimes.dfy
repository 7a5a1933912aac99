/**
 * Record lifetimes: relative TTLs in seconds, instants in nanoseconds, and the
 * absolute expiry that the JSON form prints to the whole second.
 */
module Lifetimes {
  const SECOND := 1_000_000_000
  const MAX_TTL := 0xffff_ffff
  const MIN_DURATION := -0x8000_0000_0000_0000
  const MAX_DURATION := 0x7fff_ffff_ffff_ffff

  type Ttl = t: int | 0 <= t <= MAX_TTL

  /** The difference of two instants, saturated to 64 bits. */
  function Since(t: int, earlier: int): int {
    var d := t - earlier;
    if d < MIN_DURATION then MIN_DURATION else if d > MAX_DURATION then MAX_DURATION else d
  }

  /** Whole seconds of a duration, rounded towards zero. */
  function Seconds(d: int): int {
    if d >= 0 then d / SECOND else -((-d) / SECOND)
  }

  function Expiry(now: int, ttl: Ttl): int {
    now + ttl * SECOND
  }

  /** The calendar second that an instant prints as. */
  function Printed(t: int): int {
    t / SECOND
  }

  /** The TTL read back from a printed expiry; `ttl` is kept when the difference is not a TTL. */
  function ReadBack(printed: int, now: int, ttl: Ttl): Ttl {
    var left := Seconds(Since(printed * SECOND, now));
    if 0 <= left <= MAX_TTL then left else ttl
  }

  /** Until the printed expiry a record that crosses the JSON form loses less than two seconds. */
  lemma ExpiryRoundTrip(t0: int, t1: int, ttl: Ttl)
    requires t0 <= t1 <= Printed(Expiry(t0, ttl)) * SECOND
    ensures var ttl' := ReadBack(Printed(Expiry(t0, ttl)), t1, ttl);
            && ttl' <= ttl
            && Expiry(t1, ttl') <= Expiry(t0, ttl) < Expiry(t1, ttl') + 2 * SECOND
  {
  }

  /**
   * For all instants, also with clocks that disagree: a record read back never outlives
   * what is left of it, except that a positive TTL comes back in full once a whole second
   * has passed since the printed expiry.
   */
  lemma OutlivesExactly(t0: int, t1: int, ttl: Ttl)
    ensures var printed := Printed(Expiry(t0, ttl));
            var left := Expiry(t0, ttl) - t1;
            ReadBack(printed, t1, ttl) * SECOND <= (if left > 0 then left else 0)
            <==> t1 < (printed + 1) * SECOND || ttl == 0
  {
  }

  /** A stale record revived: ten seconds after a five-second record expired. */
  lemma StaleRecordRevives()
    ensures ReadBack(Printed(Expiry(0, 5)), 15 * SECOND, 5) == 5
  {
  }

  // ----- Ageing on the client

  /** What the client leaves of a TTL after `delta` nanoseconds in caches. */
  function Aged(ttl: Ttl, delta: nat): (r: Ttl)
    ensures r <= ttl
  {
    var left := ttl * SECOND - delta;
    if left > 0 then left / SECOND else 0
  }

  function CeilSeconds(delta: nat): nat {
    (delta + SECOND - 1) / SECOND
  }

  /** Ageing takes off started seconds and stops at zero. */
  lemma AgedExactly(ttl: Ttl, delta: nat)
    ensures Aged(ttl, delta) == if CeilSeconds(delta) <= ttl then ttl - CeilSeconds(delta) else 0
  {
  }

  /** Ageing in two legs never gains, and loses at most one second more. */
  lemma AgedTwice(ttl: Ttl, a: nat, b: nat)
    ensures Aged(Aged(ttl, a), b) <= Aged(ttl, a + b) <= Aged(Aged(ttl, a), b) + 1
  {
  }

  lemma AgedMonotone(x: Ttl, y: Ttl, delta: nat)
    requires x <= y
    ensures Aged(x, delta) <= Aged(y, delta)
  {
  }

  /** A date header as received. */
  datatype Header = Missing | Garbled | At(instant: int)

  /** The instant a response is taken to be current: its Date, or the client's clock. */
  function Now(clock: int, date: Header): (now: int)
    ensures date.At? ==> now == date.instant
    ensures !date.At? ==> now == clock
  {
    if date.At? then date.instant else clock
  }

  /** How long the response has been in caches, by its own headers; never negative. */
  function Delta(clock: int, date: Header, lastModified: Header): nat {
    var now := Now(clock, date);
    var since := Since(now, if lastModified.At? then lastModified.instant else now);
    if since < 0 then 0 else since
  }

  /**
   * Ageing by the headers, for all of them: nothing comes off unless Last-Modified lies
   * before now; up to its TTL a record ends less than a second before the instant its
   * modification date gives; and beyond that it is over.
   */
  lemma AgedByHeaders(clock: int, date: Header, lastModified: Header, ttl: Ttl)
    ensures var now, left := Now(clock, date), Aged(ttl, Delta(clock, date, lastModified));
            && (!lastModified.At? || now <= lastModified.instant ==> left == ttl)
            && (lastModified.At? && 0 <= now - lastModified.instant <= ttl * SECOND ==>
                  Expiry(now, left) <= Expiry(lastModified.instant, ttl) < Expiry(now, left) + SECOND)
            && (lastModified.At? && now - lastModified.instant > ttl * SECOND ==> left == 0)
  {
  }

  /** The TTL read back, for all printed seconds and instants. */
  lemma ReadBackExactly(printed: int, now: int, ttl: Ttl)
    ensures var left, r := printed * SECOND - now, ReadBack(printed, now, ttl);
            if -SECOND < left < 0 then r == 0
            else if 0 <= left < (MAX_TTL + 1) * SECOND then r * SECOND <= left < (r + 1) * SECOND
            else r == ttl
  {
    var left := printed * SECOND - now;
    if 0 <= left < (MAX_TTL + 1) * SECOND {
      assert Since(printed * SECOND, now) == left;
    }
  }
}
