/**
 * The stream schedule of the bot state (src/settings/mod.rs): the two time
 * ranges in which a stream starts and finishes, their rendering on the
 * 12-hour clock, and the default state with its weekend off days.
 *
 * Times are chrono's `NaiveTime` without the sub-second part; rendering
 * follows chrono's `%I` (hour on the 12-hour clock, 12 for noon and
 * midnight), `%M` (minute) and `%P` (lowercase "am"/"pm").
 */
module Schedule {
  import opened Base

  type Hour = h: int | 0 <= h < 24
  type Minute = m: int | 0 <= m < 60
  type Second = s: int | 0 <= s < 60

  /** A time of day. */
  datatype Time = Time(hour: Hour, minute: Minute, second: Second)

  datatype Weekday = Mon | Tue | Wed | Thu | Fri | Sat | Sun

  /** When a stream starts and when it finishes, each as a range of times. */
  datatype BaseSchedule = BaseSchedule(start: (Time, Time), finish: (Time, Time))

  /** The persistent state of the bot. */
  datatype State = State(
    schedule: BaseSchedule,
    offDays: set<Weekday>,
    customCommands: map<string, map<Source, string>>,
    lastExecuted: map<string, int>)

  predicate IsDigit(c: char) {
    '0' <= c <= '9'
  }

  function Digit(n: nat): (c: char)
    requires n < 10
    ensures IsDigit(c) && c as int - '0' as int == n
  {
    ('0' as int + n) as char
  }

  /** A number below 100 as two decimal digits, zero-padded. */
  function TwoDigits(n: nat): (s: string)
    requires n < 100
    ensures |s| == 2 && IsDigit(s[0]) && IsDigit(s[1])
    ensures 10 * (s[0] as int - '0' as int) + (s[1] as int - '0' as int) == n
  {
    [Digit(n / 10), Digit(n % 10)]
  }

  /** The hour on the 12-hour clock: 12 at noon and midnight, otherwise the hour modulo 12. */
  function Hour12(h: Hour): (r: int)
    ensures 1 <= r <= 12
    ensures r % 12 == h % 12
  {
    if h % 12 == 0 then 12 else h % 12
  }

  /** chrono's `%P`: "am" before noon, "pm" from noon on. */
  function Meridiem(h: Hour): (s: string)
    ensures |s| == 2 && s[1] == 'm'
    ensures s[0] == 'a' <==> h < 12
    ensures s[0] == 'a' || s[0] == 'p'
  {
    if h < 12 then "am" else "pm"
  }

  /** chrono's `%I:%M`. */
  function Clock(t: Time): (s: string)
    ensures |s| == 5 && s[2] == ':'
    ensures forall i :: 0 <= i < |s| && i != 2 ==> IsDigit(s[i])
  {
    TwoDigits(Hour12(t.hour)) + ":" + TwoDigits(t.minute)
  }

  /**
   * `format_range`: a single time with its am/pm suffix when both ends are
   * the same time, otherwise both clock readings separated by '~' and the
   * suffix only after the second.
   */
  function FormatRange(range: (Time, Time)): (s: string)
    ensures range.0 == range.1 ==> |s| == 7 && s == Clock(range.0) + Meridiem(range.0.hour)
    ensures range.0 != range.1 ==> |s| == 13 && s[5] == '~'
    ensures '~' in s <==> range.0 != range.1
  {
    if range.0 == range.1 then
      Clock(range.0) + Meridiem(range.0.hour)
    else
      Clock(range.0) + "~" + Clock(range.1) + Meridiem(range.1.hour)
  }

  /** `format_start`: the rendered start range. */
  function FormatStart(s: BaseSchedule): string {
    FormatRange(s.start)
  }

  /** `format_finish`: the rendered finish range. */
  function FormatFinish(s: BaseSchedule): string {
    FormatRange(s.finish)
  }

  /** The default schedule: starting between 07:00 and 08:00, finishing at 16:00. */
  function DefaultSchedule(): BaseSchedule {
    BaseSchedule((Time(7, 0, 0), Time(8, 0, 0)), (Time(16, 0, 0), Time(16, 0, 0)))
  }

  /** The default state: the default schedule, weekends off, nothing custom, nothing executed. */
  function DefaultState(): (st: State)
    ensures st.offDays == {Sat, Sun}
    ensures st.customCommands == map[] && st.lastExecuted == map[]
  {
    State(DefaultSchedule(), {Sat, Sun}, map[], map[])
  }

  // ---------------------------------------------------------------------------
  // Reading a rendering back

  /** The value of two decimal digits. */
  function ReadTwoDigits(a: char, b: char): int {
    10 * (a as int - '0' as int) + (b as int - '0' as int)
  }

  /** Reads "hh:mm" back into the hour and minute it shows. */
  function ReadClock(s: string): Option<(int, int)> {
    if |s| == 5 && s[2] == ':' && IsDigit(s[0]) && IsDigit(s[1]) && IsDigit(s[3]) && IsDigit(s[4]) then
      Some((ReadTwoDigits(s[0], s[1]), ReadTwoDigits(s[3], s[4])))
    else
      None
  }

  /** Reads "hh:mmam" or "hh:mmpm" back into the hour of the day (0 to 23) and the minute. */
  function ReadTime(s: string): Option<(int, int)> {
    if |s| == 7 && s[6] == 'm' && (s[5] == 'a' || s[5] == 'p') then
      match ReadClock(s[..5])
      case None => None
      case Some(hm) => Some((hm.0 % 12 + (if s[5] == 'p' then 12 else 0), hm.1))
    else
      None
  }

  /** What a rendered range shows: the first clock reading and the full end time. */
  datatype RangeView = RangeView(first: (int, int), last: (int, int))

  /** Reads a rendered range back: a single time is both ends, "a~b" has two. */
  function ReadRange(s: string): Option<RangeView> {
    if |s| == 7 then
      match ReadTime(s)
      case None => None
      case Some(t) => Some(RangeView((if t.0 % 12 == 0 then 12 else t.0 % 12, t.1), t))
    else if |s| == 13 && s[5] == '~' then
      match (ReadClock(s[..5]), ReadTime(s[6..]))
      case (Some(a), Some(b)) => Some(RangeView(a, b))
      case _ => None
    else
      None
  }

  /** The clock reading shows the 12-hour hour and the minute. */
  lemma ClockRoundTrip(t: Time)
    ensures ReadClock(Clock(t)) == Some((Hour12(t.hour), t.minute))
  {
    var s := Clock(t);
    var h := TwoDigits(Hour12(t.hour));
    var m := TwoDigits(t.minute);
    assert s[0] == h[0] && s[1] == h[1] && s[3] == m[0] && s[4] == m[1];
  }

  /**
   * The 12-hour reading with its suffix determines the time of day to the
   * minute: reading it back gives the 24-hour hour and the minute.
   */
  lemma TimeRoundTrip(t: Time)
    ensures ReadTime(Clock(t) + Meridiem(t.hour)) == Some((t.hour, t.minute))
  {
    var s := Clock(t) + Meridiem(t.hour);
    assert s[..5] == Clock(t);
    ClockRoundTrip(t);
    assert s[5] == Meridiem(t.hour)[0];
  }

  /**
   * A rendered range shows the first time on the 12-hour clock without its
   * suffix, and the end time completely; the seconds are not shown.
   */
  lemma FormatRangeRoundTrip(range: (Time, Time))
    ensures ReadRange(FormatRange(range)) ==
      Some(RangeView((Hour12(range.0.hour), range.0.minute), (range.1.hour, range.1.minute)))
  {
    var s := FormatRange(range);
    if range.0 == range.1 {
      TimeRoundTrip(range.1);
    } else {
      var a := Clock(range.0);
      var b := Clock(range.1) + Meridiem(range.1.hour);
      assert s == a + "~" + b;
      assert s[..5] == a;
      assert s[6..] == b;
      ClockRoundTrip(range.0);
      TimeRoundTrip(range.1);
    }
  }

  /**
   * Two ends that differ only in their seconds are not one time: they
   * render as a range whose two readings are the same.
   */
  lemma SecondsSplitARange(t: Time, second: Second)
    requires second != t.second
    ensures FormatRange((t, t.(second := second))) == Clock(t) + "~" + Clock(t) + Meridiem(t.hour)
  {
  }

  /** The default schedule renders as "07:00~08:00am" and "04:00pm". */
  lemma DefaultRendering(start: string, finish: string)
    requires start == "07:00~08:00am" && finish == "04:00pm"
    ensures FormatStart(DefaultSchedule()) == start
    ensures FormatFinish(DefaultSchedule()) == finish
  {
    assert Clock(Time(7, 0, 0)) == "07:00";
    assert Clock(Time(8, 0, 0)) == "08:00";
    assert Clock(Time(16, 0, 0)) == "04:00";
  }
}
