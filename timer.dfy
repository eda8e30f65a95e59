/**
 The on-screen timer of the experiment page (app.py, lines 82-86): the accumulated
 elapsed time is split into hours, minutes, seconds and milliseconds by a chain of
 floor divisions. Time is counted in whole microseconds, the resolution of a
 Python `timedelta`, so the chain is exact integer arithmetic here.
 */
module Timer {
  const MicrosPerMilli: int := 1000
  const MicrosPerSecond: int := 1_000_000
  const MicrosPerMinute: int := 60_000_000
  const MicrosPerHour: int := 3_600_000_000

  /** The four numbers shown as HH:MM:SS.mmm. */
  datatype Clock = Clock(hours: int, minutes: int, seconds: int, millis: int)

  /** Minutes and seconds below 60, milliseconds below 1000; hours are unbounded. */
  predicate InRange(c: Clock) {
    0 <= c.minutes < 60 && 0 <= c.seconds < 60 && 0 <= c.millis < 1000
  }

  /** The whole seconds a clock reading stands for. */
  function WholeSeconds(c: Clock): int {
    c.hours * 3600 + c.minutes * 60 + c.seconds
  }

  /** The first microsecond that a clock reading displays. */
  function StartMicros(c: Clock): int {
    WholeSeconds(c) * MicrosPerSecond + c.millis * MicrosPerMilli
  }

  /**
   The `divmod` chain: hours by floor division by 3600 s, minutes and seconds from
   the remainder, and the milliseconds truncated from the fractional second.
   Python's `divmod` floors, as Dafny's `/` and `%` do for a positive divisor, so a
   negative elapsed time (clock moved backwards) gives negative hours and in-range
   minutes, seconds and milliseconds, as in the source.
   */
  function FormatParts(us: int): (c: Clock)
    ensures InRange(c)
    ensures WholeSeconds(c) == us / MicrosPerSecond
    ensures StartMicros(c) <= us < StartMicros(c) + MicrosPerMilli
  {
    var hours := us / MicrosPerHour;
    var remainder := us % MicrosPerHour;
    var minutes := remainder / MicrosPerMinute;
    var secondsMicros := remainder % MicrosPerMinute;
    Clock(hours, minutes, secondsMicros / MicrosPerSecond,
          (secondsMicros % MicrosPerSecond) / MicrosPerMilli)
  }

  /** Two in-range readings that both cover the same microsecond are the same reading. */
  lemma ReadingIsUnique(c: Clock, d: Clock, us: int)
    requires InRange(c) && InRange(d)
    requires StartMicros(c) <= us < StartMicros(c) + MicrosPerMilli
    requires StartMicros(d) <= us < StartMicros(d) + MicrosPerMilli
    ensures c == d
  {
    var mc := WholeSeconds(c) * 1000 + c.millis;
    var md := WholeSeconds(d) * 1000 + d.millis;
    assert mc == md;
    assert c.millis == d.millis && WholeSeconds(c) == WholeSeconds(d);
    var kc := c.hours * 60 + c.minutes;
    var kd := d.hours * 60 + d.minutes;
    assert WholeSeconds(c) == kc * 60 + c.seconds;
    assert WholeSeconds(d) == kd * 60 + d.seconds;
    assert c.seconds == d.seconds && kc == kd;
    assert c.minutes == d.minutes && c.hours == d.hours;
  }

  /** Displaying any microsecond of a reading shows that reading again. */
  lemma FormatRoundTrip(c: Clock, sub: int)
    requires InRange(c)
    requires 0 <= sub < MicrosPerMilli
    ensures FormatParts(StartMicros(c) + sub) == c
  {
    var us := StartMicros(c) + sub;
    ReadingIsUnique(FormatParts(us), c, us);
  }

  /** A reset timer reads 00:00:00.000. */
  lemma ZeroReading()
    ensures FormatParts(0) == Clock(0, 0, 0, 0)
  {
    assert 0 / MicrosPerHour == 0 && 0 % MicrosPerHour == 0;
    assert 0 / MicrosPerMinute == 0 && 0 % MicrosPerMinute == 0;
    assert 0 / MicrosPerSecond == 0 && 0 % MicrosPerSecond == 0;
    assert 0 / MicrosPerMilli == 0;
  }
}
