/**
 * The paste record and its two derived values: the instant it expires and
 * whether it has expired at a given instant.
 *
 * A LocalDateTime is a count of nanoseconds (its resolution) on one linear
 * time line, and the current instant is a parameter instead of a clock read.
 */
module PasteModel {
  import opened Wrappers

  /** An instant, in nanoseconds from a fixed epoch. */
  type Time = int

  const NanosPerMinute: int := 60 * 1_000_000_000

  /** The values of a Java `Integer` (when not null). */
  type Int32 = x: int | -0x8000_0000 <= x < 0x8000_0000

  /** LocalDateTime.plusMinutes on the linear time line. */
  function PlusMinutes(t: Time, minutes: int): (r: Time)
    ensures r - t == minutes * NanosPerMinute
  {
    t + minutes * NanosPerMinute
  }

  /** Adding minutes in two steps is adding their sum. */
  lemma PlusMinutesAdds(t: Time, a: int, b: int)
    ensures PlusMinutes(PlusMinutes(t, a), b) == PlusMinutes(t, a + b)
  {
  }

  /** A later start or more minutes gives a later instant. */
  lemma PlusMinutesMonotone(t1: Time, t2: Time, a: int, b: int)
    requires t1 <= t2 && a <= b
    ensures PlusMinutes(t1, a) <= PlusMinutes(t2, b)
  {
  }

  /** A stored paste; the two nullable columns are options. */
  datatype Paste = Paste(
    shortlink: string,
    expirationLengthInMinutes: Option<Int32>,
    createdAt: Option<Time>,
    pastePath: string)

  /** Both fields that expiration depends on are present. */
  predicate HasExpiration(p: Paste)
  {
    p.expirationLengthInMinutes.Some? && p.createdAt.Some?
  }

  /**
   * getExpirationTime: null when either field is null, otherwise the
   * creation instant plus the expiration length in minutes.
   */
  function ExpirationTime(p: Paste): (r: Option<Time>)
    ensures r.None? <==> p.expirationLengthInMinutes.None? || p.createdAt.None?
    ensures r.Some? ==> r.value - p.createdAt.value == p.expirationLengthInMinutes.value * NanosPerMinute
  {
    if p.expirationLengthInMinutes.None? || p.createdAt.None? then None
    else Some(PlusMinutes(p.createdAt.value, p.expirationLengthInMinutes.value))
  }

  /**
   * isExpired at the instant `now`: false when either field is null,
   * otherwise whether `now` is strictly after the expiration instant.
   */
  function IsExpired(p: Paste, now: Time): (r: bool)
    ensures !HasExpiration(p) ==> !r
    ensures r <==> ExpirationTime(p).Some? && now > ExpirationTime(p).value
  {
    if p.expirationLengthInMinutes.None? || p.createdAt.None? then false
    else
      var expirationTime := PlusMinutes(p.createdAt.value, p.expirationLengthInMinutes.value);
      now > expirationTime
  }

  /** With both fields present, a paste is expired exactly after creation plus its length. */
  lemma ExpiredIffStrictlyAfter(p: Paste, now: Time)
    requires HasExpiration(p)
    ensures IsExpired(p, now) <==>
              now > p.createdAt.value + p.expirationLengthInMinutes.value * NanosPerMinute
  {
  }

  /** At the expiration instant itself a paste is not yet expired; one nanosecond later it is. */
  lemma NotExpiredAtExpirationInstant(p: Paste)
    requires HasExpiration(p)
    ensures ExpirationTime(p).Some?
    ensures !IsExpired(p, ExpirationTime(p).value)
    ensures IsExpired(p, ExpirationTime(p).value + 1)
  {
  }

  /** Once expired, a paste stays expired. */
  lemma ExpiredIsMonotone(p: Paste, t1: Time, t2: Time)
    requires IsExpired(p, t1) && t1 <= t2
    ensures IsExpired(p, t2)
  {
  }

  /** A paste without an expiration length never expires and has no expiration instant. */
  lemma NeverExpires(p: Paste, now: Time)
    requires p.expirationLengthInMinutes.None?
    ensures !IsExpired(p, now)
    ensures ExpirationTime(p).None?
  {
  }

  /**
   * A paste created at `t` with a 60-minute window: expired one second after
   * the hour, not one second before it and not at the hour exactly.
   */
  lemma OneHourWindow(t: Time, shortlink: string, pastePath: string)
    ensures var p := Paste(shortlink, Some(60), Some(t), pastePath);
      && ExpirationTime(p) == Some(t + 60 * NanosPerMinute)
      && IsExpired(p, t + 3601 * 1_000_000_000)
      && !IsExpired(p, t + 3599 * 1_000_000_000)
      && !IsExpired(p, t + 3600 * 1_000_000_000)
  {
  }
}
