/** The part of the JavaScript `Date` object the presentation view uses, in local time:
    an instant is a count of milliseconds, and its calendar fields are read and set the
    way `getHours`, `getMinutes`, `setHours` and `setMinutes` do, with out-of-range field
    values carried into the next field. */
module LocalTime {

  /** Milliseconds since local midnight at the start of day 0. */
  type Instant = int

  const SecondMs: int := 1000
  const MinuteMs: int := 60000
  const HourMs: int := 3600000
  const DayMs: int := 86400000
  const MinutesPerDay: int := 1440

  /** The instant with the given local date and time fields; fields out of range carry
      over (minute 75 is 1 hour 15 minutes), as Date's setters normalise them. */
  function MakeInstant(day: int, hours: int, minutes: int, seconds: int, millis: int): Instant {
    day * DayMs + hours * HourMs + minutes * MinuteMs + seconds * SecondMs + millis
  }

  function Day(t: Instant): int {
    t / DayMs
  }

  function Hours(t: Instant): (h: nat)
    ensures h < 24
  {
    (t % DayMs) / HourMs
  }

  function Minutes(t: Instant): (m: nat)
    ensures m < 60
  {
    (t % HourMs) / MinuteMs
  }

  function Seconds(t: Instant): (s: nat)
    ensures s < 60
  {
    (t % MinuteMs) / SecondMs
  }

  function Millis(t: Instant): (ms: nat)
    ensures ms < SecondMs
  {
    t % SecondMs
  }

  /** Whole minutes since the local midnight that starts the instant's day. */
  function MinuteOfDay(t: Instant): (n: nat)
    ensures n < MinutesPerDay
  {
    (t % DayMs) / MinuteMs
  }

  lemma {:induction false} MultipleAtLeast(k: nat, d: nat)
    requires k >= 1
    ensures k * d >= d
    decreases k
  {
    if k > 1 {
      MultipleAtLeast(k - 1, d);
      assert k * d == (k - 1) * d + d;
    }
  }

  lemma SmallMultipleIsZero(k: int, d: int)
    requires d > 0 && -d < k * d < d
    ensures k == 0
  {
    if k > 0 {
      MultipleAtLeast(k, d);
    }
  }

  lemma DivModUnique(a: int, d: int, q: int, r: int)
    requires d > 0 && a == q * d + r && 0 <= r < d
    ensures a / d == q && a % d == r
  {
    var q', r' := a / d, a % d;
    assert (q - q') * d == r' - r;
    SmallMultipleIsZero(q - q', d);
  }

  /** Reading the fields back from MakeInstant gives the fields, when each is in range. */
  lemma {:induction false} FieldsOfInstant(day: int, hours: int, minutes: int, seconds: int, millis: int)
    requires 0 <= hours < 24 && 0 <= minutes < 60 && 0 <= seconds < 60 && 0 <= millis < SecondMs
    ensures var t := MakeInstant(day, hours, minutes, seconds, millis);
      Day(t) == day && Hours(t) == hours && Minutes(t) == minutes &&
      Seconds(t) == seconds && Millis(t) == millis &&
      MinuteOfDay(t) == hours * 60 + minutes
  {
    var t := MakeInstant(day, hours, minutes, seconds, millis);
    var inMinute := seconds * SecondMs + millis;
    var inHour := minutes * MinuteMs + inMinute;
    var inDay := hours * HourMs + inHour;
    DivModUnique(t, DayMs, day, inDay);
    DivModUnique(inDay, HourMs, hours, inHour);
    DivModUnique(t, HourMs, day * 24 + hours, inHour);
    DivModUnique(inHour, MinuteMs, minutes, inMinute);
    DivModUnique(t, MinuteMs, (day * 24 + hours) * 60 + minutes, inMinute);
    DivModUnique(inMinute, SecondMs, seconds, millis);
    DivModUnique(t, SecondMs, ((day * 24 + hours) * 60 + minutes) * 60 + seconds, millis);
    DivModUnique(inDay, MinuteMs, hours * 60 + minutes, inMinute);
  }

  /** Every instant is the instant of its own fields. */
  lemma {:induction false} InstantOfFields(t: Instant)
    ensures t == MakeInstant(Day(t), Hours(t), Minutes(t), Seconds(t), Millis(t))
  {
    var d, inDay := t / DayMs, t % DayMs;
    var h, inHour := inDay / HourMs, inDay % HourMs;
    var m, inMinute := inHour / MinuteMs, inHour % MinuteMs;
    var sec, ms := inMinute / SecondMs, inMinute % SecondMs;
    assert t == d * DayMs + inDay;
    assert inDay == h * HourMs + inHour;
    assert inHour == m * MinuteMs + inMinute;
    assert inMinute == sec * SecondMs + ms;
    DivModUnique(t, HourMs, d * 24 + h, inHour);
    DivModUnique(t, MinuteMs, (d * 24 + h) * 60 + m, inMinute);
    DivModUnique(t, SecondMs, ((d * 24 + h) * 60 + m) * 60 + sec, ms);
  }

  /** `date.setHours(h, m, s, ms)`: same local date, the given time fields. */
  function SetHours(t: Instant, hours: int, minutes: int, seconds: int, millis: int): (r: Instant)
    ensures 0 <= hours < 24 && 0 <= minutes < 60 && 0 <= seconds < 60 && 0 <= millis < SecondMs ==>
      Day(r) == Day(t) && Hours(r) == hours && Minutes(r) == minutes &&
      Seconds(r) == seconds && Millis(r) == millis
  {
    var r := MakeInstant(Day(t), hours, minutes, seconds, millis);
    if 0 <= hours < 24 && 0 <= minutes < 60 && 0 <= seconds < 60 && 0 <= millis < SecondMs then
      FieldsOfInstant(Day(t), hours, minutes, seconds, millis);
      r
    else
      r
  }

  /** `date.setMinutes(m)`: same date, hour, seconds and milliseconds, the given minute;
      a minute out of range carries, so the instant moves by the change in minutes. */
  function SetMinutes(t: Instant, minutes: int): (r: Instant)
    ensures r == t + (minutes - Minutes(t)) * MinuteMs
  {
    InstantOfFields(t);
    MakeInstant(Day(t), Hours(t), minutes, Seconds(t), Millis(t))
  }

  /** `d.setMinutes(d.getMinutes() + x)` moves the instant by exactly x minutes, whatever
      hour or day boundaries that crosses. */
  lemma {:induction false} SetMinutesAdds(t: Instant, x: int)
    ensures SetMinutes(t, Minutes(t) + x) == t + x * MinuteMs
  {
    InstantOfFields(t);
  }
}
