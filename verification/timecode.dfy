/**
 The SubRip timecode formatter of app.py (`format_timestamp`).

 The program passes a float of seconds to `datetime.timedelta`, which rounds it
 to whole microseconds; this model starts from those microseconds. A timedelta
 is normalised with floor division into days, seconds in [0, 86400) and
 microseconds in [0, 10^6). Only the seconds and microseconds fields are read,
 so whole days are dropped and hours wrap at 24; milliseconds are truncated.
 */
module Timecode {
  import opened Digits
  import opened Wrappers

  const MicrosPerMilli: nat := 1000
  const MicrosPerSecond: nat := 1_000_000
  const SecondsPerDay: nat := 86_400
  const MicrosPerDay: nat := 86_400_000_000
  const MillisPerDay: nat := 86_400_000

  /** Python's `datetime.timedelta`, in its normalised field form. */
  datatype TimeDelta = TimeDelta(days: int, seconds: int, microseconds: int)
  {
    predicate Normalised() {
      0 <= seconds < SecondsPerDay && 0 <= microseconds < MicrosPerSecond
    }

    function TotalMicros(): int {
      days * MicrosPerDay + seconds * MicrosPerSecond + microseconds
    }
  }

  /** `timedelta(microseconds=us)`: divmod by 10^6, then divmod the seconds by a day. */
  function FromMicros(us: int): (td: TimeDelta)
    ensures td.Normalised()
    ensures td.TotalMicros() == us
  {
    var secs := us / MicrosPerSecond;
    var td := TimeDelta(secs / SecondsPerDay, secs % SecondsPerDay, us % MicrosPerSecond);
    assert secs == (secs / SecondsPerDay) * SecondsPerDay + secs % SecondsPerDay;
    assert us == secs * MicrosPerSecond + us % MicrosPerSecond;
    td
  }

  /** The normal form is unique: any normalised timedelta of the same length is the one built. */
  lemma NormalFormUnique(td: TimeDelta, us: int)
    requires td.Normalised() && td.TotalMicros() == us
    ensures td == FromMicros(us)
  {
    var secs := td.days * SecondsPerDay + td.seconds;
    assert us == secs * MicrosPerSecond + td.microseconds;
    assert us / MicrosPerSecond == secs;
    assert us % MicrosPerSecond == td.microseconds;
  }

  /** The four numbers that `format_timestamp` prints. */
  datatype Clock = Clock(hours: nat, minutes: nat, seconds: nat, millis: nat)
  {
    predicate InRange() {
      hours < 24 && minutes < 60 && seconds < 60 && millis < 1000
    }

    /** The wall-clock offset the fields denote, in milliseconds. */
    function Millis(): int {
      hours * 3_600_000 + minutes * 60_000 + seconds * 1000 + millis
    }
  }

  /** Offset into its day, in whole milliseconds, of a microsecond count. */
  function DayMillis(us: int): (ms: nat)
    ensures ms < MillisPerDay
  {
    (us / MicrosPerMilli) % MillisPerDay
  }

  /** The fields `format_timestamp` computes from `td.seconds` and `td.microseconds`. */
  function Fields(us: int): (c: Clock)
    ensures c.InRange()
    ensures c.Millis() == DayMillis(us)
  {
    var td := FromMicros(us);
    var c := Clock(td.seconds / 3600, (td.seconds / 60) % 60, td.seconds % 60, td.microseconds / 1000);
    FieldsDenoteDayMillis(us, td);
    c
  }

  lemma FieldsDenoteDayMillis(us: int, td: TimeDelta)
    requires td == FromMicros(us)
    ensures (td.seconds / 3600) * 3_600_000 + ((td.seconds / 60) % 60) * 60_000
            + (td.seconds % 60) * 1000 + td.microseconds / 1000 == DayMillis(us)
  {
    var s := td.seconds;
    assert s == (s / 3600) * 3600 + ((s / 60) % 60) * 60 + s % 60;
    var q := us / MicrosPerSecond;
    var r := us % MicrosPerSecond;
    assert us == q * MicrosPerSecond + r;
    assert us / MicrosPerMilli == q * 1000 + r / 1000;
    assert q == (q / SecondsPerDay) * SecondsPerDay + s;
    assert us / MicrosPerMilli == (q / SecondsPerDay) * MillisPerDay + (s * 1000 + r / 1000);
  }

  /** Mixed-radix uniqueness: in-range fields are determined by the offset they denote. */
  lemma ClockDeterminedByMillis(a: Clock, b: Clock)
    requires a.InRange() && b.InRange()
    ensures a.Millis() == b.Millis() <==> a == b
  {
    if a.Millis() == b.Millis() {
      ClockDigits(a);
      ClockDigits(b);
    }
  }

  lemma ClockDigits(c: Clock)
    requires c.InRange()
    ensures c.millis == c.Millis() % 1000
    ensures c.seconds == (c.Millis() / 1000) % 60
    ensures c.minutes == (c.Millis() / 1000 / 60) % 60
    ensures c.hours == c.Millis() / 1000 / 60 / 60
  {
    var m := c.hours * 60 + c.minutes;
    var t := m * 60 + c.seconds;
    assert c.Millis() == t * 1000 + c.millis;
    assert c.Millis() / 1000 == t;
    assert t / 60 == m;
    assert m / 60 == c.hours;
  }

  /**
   `f"{hours:02d}:{minutes:02d}:{seconds:02d},{milliseconds:03d}"`, written digit
   by digit; `RenderIsPadded` shows it is the zero-padded rendering of each field.
   */
  function Render(c: Clock): (s: string)
    requires c.InRange()
    ensures IsTimecode(s)
  {
    [ DigitChar(c.hours / 10), DigitChar(c.hours % 10), ':',
      DigitChar(c.minutes / 10), DigitChar(c.minutes % 10), ':',
      DigitChar(c.seconds / 10), DigitChar(c.seconds % 10), ',',
      DigitChar(c.millis / 100), DigitChar(c.millis / 10 % 10), DigitChar(c.millis % 10) ]
  }

  /** Each field of the timecode is Python's `02d` / `03d` rendering of that field. */
  lemma RenderIsPadded(c: Clock)
    requires c.InRange()
    ensures Render(c) == Pad(c.hours, 2) + ":" + Pad(c.minutes, 2) + ":" + Pad(c.seconds, 2) + "," + Pad(c.millis, 3)
  {
    PadTwoDigits(c.hours);
    PadTwoDigits(c.minutes);
    PadTwoDigits(c.seconds);
    PadThreeDigits(c.millis);
  }

  /** `format_timestamp`, on the microseconds the timedelta holds. */
  function FormatTimestamp(us: int): (s: string)
    ensures IsTimecode(s)
  {
    Render(Fields(us))
  }

  /** Twelve characters: digits, with `:` at 2 and 5 and `,` at 8. */
  predicate IsTimecode(s: string) {
    && |s| == 12
    && s[2] == ':' && s[5] == ':' && s[8] == ','
    && forall i :: 0 <= i < 12 && i != 2 && i != 5 && i != 8 ==> IsDigit(s[i])
  }

  /** Two decimal digits at `i` and `i + 1`, read as one number. */
  function TwoDigitsAt(s: string, i: nat): (v: nat)
    requires i + 1 < |s| && IsDigit(s[i]) && IsDigit(s[i + 1])
    ensures v < 100
  {
    DigitValue(s[i]) * 10 + DigitValue(s[i + 1])
  }

  /** Reads a timecode back into the four numbers it shows. */
  function ReadClock(s: string): (r: Option<Clock>)
    ensures r.Some? <==> IsTimecode(s)
  {
    if IsTimecode(s) then
      Some(Clock(TwoDigitsAt(s, 0), TwoDigitsAt(s, 3), TwoDigitsAt(s, 6),
                 DigitValue(s[9]) * 100 + TwoDigitsAt(s, 10)))
    else None
  }

  /** Reading a rendered timecode gives back the clock that was rendered. */
  lemma ReadRender(c: Clock)
    requires c.InRange()
    ensures ReadClock(Render(c)) == Some(c)
  {
  }

  /**
   Round trip: the timecode reads back as fields that denote the input's
   offset into its day, truncated to the millisecond.
   */
  lemma ParseFormat(us: int)
    ensures ReadClock(FormatTimestamp(us)).Some?
    ensures ReadClock(FormatTimestamp(us)).value.Millis() == DayMillis(us)
  {
    ReadRender(Fields(us));
  }

  /** Two inputs print the same timecode exactly when they fall in the same millisecond of a day. */
  lemma FormatEqualIff(a: int, b: int)
    ensures FormatTimestamp(a) == FormatTimestamp(b) <==> DayMillis(a) == DayMillis(b)
  {
    ReadRender(Fields(a));
    ReadRender(Fields(b));
    ClockDeterminedByMillis(Fields(a), Fields(b));
  }

  /** Whole days are discarded: hours wrap at 24. */
  lemma DayWrap(us: int, days: int)
    ensures FormatTimestamp(us + days * MicrosPerDay) == FormatTimestamp(us)
  {
    var v := us + days * MicrosPerDay;
    DayMillisShift(us, days);
    ClockDeterminedByMillis(Fields(v), Fields(us));
    assert Fields(v) == Fields(us);
  }

  lemma DayMillisShift(us: int, days: int)
    ensures DayMillis(us + days * MicrosPerDay) == DayMillis(us)
  {
    var k := days * 86_400_000;
    var v := us + k * 1000;
    var x := us / 1000;
    assert v == us + days * MicrosPerDay;
    assert v == (x + k) * 1000 + us % 1000;
    assert v / 1000 == x + k;
    assert (x + k) % 86_400_000 == x % 86_400_000;
  }

  /** Milliseconds are truncated: every input inside one millisecond prints the same. */
  lemma SameMillisecond(a: int, b: int)
    requires a / MicrosPerMilli == b / MicrosPerMilli
    ensures FormatTimestamp(a) == FormatTimestamp(b)
  {
    FormatEqualIff(a, b);
  }

  lemma FormatZero()
    ensures FormatTimestamp(0) == "00:00:00,000"
  {
    assert Fields(0) == Clock(0, 0, 0, 0);
  }

  /** 3661.5 seconds is one hour, one minute, one second and a half. */
  lemma FormatOneHourOneMinute()
    ensures FormatTimestamp(3_661_500_000) == "01:01:01,500"
  {
    assert FromMicros(3_661_500_000) == TimeDelta(0, 3661, 500_000);
    assert Fields(3_661_500_000) == Clock(1, 1, 1, 500);
  }
}
