/** Clock arithmetic on times held as whole seconds: the hour of the day,
    the component breakdown of a duration, and rounding up to a minute. */
module Clock {

  /** The hour of the day of time `t` (`Timestamp.hour`); a time before the
      reference midnight belongs to the previous day, hence floor division. */
  function Hour(t: int): (h: int)
    ensures 0 <= h < 24
    ensures 3600 * h <= t % 86400 < 3600 * h + 3600
  {
    (t / 3600) % 24
  }

  /** `Timedelta.components`, down to whole seconds. */
  datatype Components = Components(days: int, hours: int, minutes: int, seconds: int)

  predicate InRange(c: Components) {
    0 <= c.hours < 24 && 0 <= c.minutes < 60 && 0 <= c.seconds < 60
  }

  /** The duration, in seconds, that a component breakdown denotes. */
  function Compose(c: Components): int {
    86400 * c.days + 3600 * c.hours + 60 * c.minutes + c.seconds
  }

  /** The breakdown of a duration of `d` seconds. Days are floored, so a
      negative duration has negative days and non-negative hours and minutes;
      the display shows only hours and minutes, dropping whole days. */
  function ComponentsOf(d: int): (c: Components)
    ensures InRange(c)
    ensures Compose(c) == d
  {
    var rem := d % 86400;
    Components(d / 86400, rem / 3600, (rem % 3600) / 60, (rem % 3600) % 60)
  }

  /** A breakdown with every component in range is the one `ComponentsOf` gives. */
  lemma ComponentsRoundTrip(c: Components)
    requires InRange(c)
    ensures ComponentsOf(Compose(c)) == c
  {
    var r := 3600 * c.hours + 60 * c.minutes + c.seconds;
    assert 0 <= r < 86400;
    assert Compose(c) / 86400 == c.days && Compose(c) % 86400 == r;
    assert r / 3600 == c.hours && r % 3600 == 60 * c.minutes + c.seconds;
  }

  /** `ceil_time_to_minute` as written: add one minute, subtract the seconds part. */
  function CeilToMinuteAsWritten(t: int): (r: int)
    ensures r % 60 == 0
    ensures t < r <= t + 60
  {
    t + 60 - t % 60
  }

  /** A time already on a whole minute is moved a full minute forward, so the
      result is not the ceiling the function's own documentation promises. */
  lemma CeilAsWrittenMovesWholeMinute()
    ensures CeilToMinuteAsWritten(120) == 180
    ensures CeilToMinute(120) == 120
  {
  }

  /** The ceiling of `t` to a whole minute. */
  function CeilToMinute(t: int): (r: int)
    ensures r % 60 == 0
    ensures t <= r < t + 60
  {
    if t % 60 == 0 then t else t + 60 - t % 60
  }

  /** No whole minute at or after `t` comes before `CeilToMinute(t)`. */
  lemma CeilToMinuteIsLeast(t: int, m: int)
    requires m % 60 == 0 && t <= m
    ensures CeilToMinute(t) <= m
  {
  }
}
