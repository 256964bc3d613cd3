/** Go's `time.Parse(time.RFC3339, s)` as the news handlers use it for
    `postedAt`, and the instant it denotes in milliseconds since the Unix
    epoch. `Parse` tries a fixed-position fast path first and falls back to
    the general layout parser, so what it accepts is what the general parser
    accepts: the date-time of section 5.6 of RFC 3339 with an upper-case `T`
    and `Z`, seconds up to 59, and three liberties the general parser takes
    — a one-digit hour, a comma before the fraction, and zone offsets up to
    24 hours and 60 minutes. */
module Rfc3339 {
  import opened Basics
  import opened Numbers

  datatype Zone = Utc | Offset(negative: bool, hours: int, minutes: int)

  /** The fields of a parsed date-time; `fraction` holds the digits after
      the decimal separator, empty when there are none. */
  datatype DateTime = DateTime(
    year: int, month: int, day: int,
    hour: int, minute: int, second: int,
    fraction: string, zone: Zone)

  predicate IsLeap(year: int) {
    year % 4 == 0 && (year % 100 != 0 || year % 400 == 0)
  }

  function DaysIn(month: int, year: int): (n: int)
    requires 1 <= month <= 12
    ensures 28 <= n <= 31
    ensures month == 2 ==> (n == 29 <==> IsLeap(year))
  {
    if month == 2 then (if IsLeap(year) then 29 else 28)
    else if month == 4 || month == 6 || month == 9 || month == 11 then 30
    else 31
  }

  /** Two decimal digits at the front of `s`. */
  predicate TwoDigits(s: string) {
    |s| >= 2 && IsDigit(s[0]) && IsDigit(s[1])
  }

  function TwoDigitsValue(s: string): (v: int)
    requires TwoDigits(s)
    ensures 0 <= v < 100
  {
    DigitValue(s[0]) * 10 + DigitValue(s[1])
  }

  /** The length of the run of digits in `s` starting at `from`. */
  function DigitRun(s: string, from: nat): (n: nat)
    requires from <= |s|
    ensures from <= n <= |s| && AllDigits(s[from..n])
    ensures n < |s| ==> !IsDigit(s[n])
    decreases |s| - from
  {
    if from < |s| && IsDigit(s[from]) then DigitRun(s, from + 1) else from
  }

  /** The optional fraction: a `.` or `,` followed by at least one digit.
      Returns the digits and what follows them. */
  function SplitFraction(s: string): (r: (string, string))
    ensures AllDigits(r.0)
    ensures r.0 == [] ==> r.1 == s
    ensures r.0 != [] ==> |s| > |r.0| && (s[0] == '.' || s[0] == ',') && s == [s[0]] + r.0 + r.1
    ensures r.1 != [] ==> !IsDigit(r.1[0]) || r.0 == []
  {
    if |s| >= 2 && (s[0] == '.' || s[0] == ',') && IsDigit(s[1]) then
      var n := DigitRun(s, 1);
      assert s == [s[0]] + s[1..n] + s[n..];
      (s[1..n], s[n..])
    else ("", s)
  }

  /** The zone: `Z`, or a sign, two hour digits, `:` and two minute digits. */
  function ParseZone(s: string): (r: Option<Zone>)
    ensures r == Some(Utc) <==> s == "Z"
    ensures r.Some? && r.value.Offset? ==>
      |s| == 6 && 0 <= r.value.hours <= 24 && 0 <= r.value.minutes <= 60
  {
    if s == "Z" then Some(Utc)
    else if |s| == 6 && (s[0] == '+' || s[0] == '-') && TwoDigits(s[1..3]) && s[3] == ':' && TwoDigits(s[4..6]) then
      var hr := TwoDigitsValue(s[1..3]);
      var mm := TwoDigitsValue(s[4..6]);
      if hr <= 24 && mm <= 60 then Some(Offset(s[0] == '-', hr, mm)) else None
    else None
  }

  /** `hh:mm:ss[.f]zone` after the `T`; the hour may have one digit. */
  function ParseClock(s: string): (r: Option<(int, int, int, string, Zone)>)
    ensures r.Some? ==> 0 <= r.value.0 <= 23 && 0 <= r.value.1 <= 59 && 0 <= r.value.2 <= 59
  {
    var hourLen := if TwoDigits(s) then 2 else 1;
    if |s| < hourLen + 6 || !IsDigit(s[0]) then None
    else
      var hour := if hourLen == 2 then TwoDigitsValue(s) else DigitValue(s[0]);
      ParseClockTail(hour, s[hourLen..])
  }

  /** `:mm:ss[.f]zone` after an hour that has already been read. */
  function ParseClockTail(hour: int, t: string): (r: Option<(int, int, int, string, Zone)>)
    requires |t| >= 6 && 0 <= hour
    ensures r.Some? ==> r.value.0 == hour <= 23 && 0 <= r.value.1 <= 59 && 0 <= r.value.2 <= 59
  {
    if !(t[0] == ':' && TwoDigits(t[1..3]) && t[3] == ':' && TwoDigits(t[4..6])) then None
    else
      var minute := TwoDigitsValue(t[1..3]);
      var second := TwoDigitsValue(t[4..6]);
      var (fraction, rest) := SplitFraction(t[6..]);
      if hour > 23 || minute > 59 || second > 59 then None
      else match ParseZone(rest)
        case None => None
        case Some(zone) => Some((hour, minute, second, fraction, zone))
  }

  /** A date-time the parser accepts has fields in range. */
  predicate InRange(dt: DateTime) {
    0 <= dt.year <= 9999 && 1 <= dt.month <= 12 && 1 <= dt.day <= DaysIn(dt.month, dt.year)
    && 0 <= dt.hour <= 23 && 0 <= dt.minute <= 59 && 0 <= dt.second <= 59
    && AllDigits(dt.fraction)
    && (dt.zone.Offset? ==> 0 <= dt.zone.hours <= 24 && 0 <= dt.zone.minutes <= 60)
  }

  /** `yyyy-mm-ddT`: the date, its fields in range. */
  function ParseDate(s: string): (r: Option<(int, int, int)>)
    requires |s| == 11
    ensures r.Some? ==> 0 <= r.value.0 <= 9999 && 1 <= r.value.1 <= 12 && 1 <= r.value.2 <= DaysIn(r.value.1, r.value.0)
  {
    if !(TwoDigits(s[0..2]) && TwoDigits(s[2..4]) && s[4] == '-'
        && TwoDigits(s[5..7]) && s[7] == '-' && TwoDigits(s[8..10]) && s[10] == 'T') then None
    else
      var year := TwoDigitsValue(s[0..2]) * 100 + TwoDigitsValue(s[2..4]);
      var month := TwoDigitsValue(s[5..7]);
      var day := TwoDigitsValue(s[8..10]);
      if !(1 <= month <= 12) || !(1 <= day <= DaysIn(month, year)) then None
      else Some((year, month, day))
  }

  /** `time.Parse(time.RFC3339, s)`, None for a parse error. */
  function Parse(s: string): (r: Option<DateTime>)
    ensures r.Some? ==> InRange(r.value)
  {
    if |s| < 11 then None
    else match (ParseDate(s[..11]), ParseClock(s[11..]))
      case (Some((year, month, day)), Some((hour, minute, second, fraction, zone))) =>
        Some(DateTime(year, month, day, hour, minute, second, fraction, zone))
      case _ => None
  }

  function Pad2(n: int): (s: string)
    requires 0 <= n < 100
    ensures TwoDigits(s) && |s| == 2 && TwoDigitsValue(s) == n
  {
    [DigitChar(n / 10), DigitChar(n % 10)]
  }

  /** The canonical RFC 3339 spelling of a date-time: two-digit fields,
      `.` before a fraction, `Z` for UTC. */
  function Format(dt: DateTime): (s: string)
    requires InRange(dt)
  {
    FormatDate(dt.year, dt.month, dt.day) + FormatClock(dt)
  }

  /** `yyyy-mm-ddT` */
  function FormatDate(year: int, month: int, day: int): (s: string)
    requires 0 <= year <= 9999 && 1 <= month <= 12 && 1 <= day <= 31
    ensures |s| == 11
  {
    Pad2(year / 100) + Pad2(year % 100) + "-" + Pad2(month) + "-" + Pad2(day) + "T"
  }

  /** `hh:mm:ss[.f]zone` */
  function FormatClock(dt: DateTime): string
    requires InRange(dt)
  {
    Pad2(dt.hour) + ClockTail(dt.minute, dt.second, FormatFraction(dt.fraction) + FormatZone(dt.zone))
  }

  /** `:mm:ss` followed by `rest`. */
  function ClockTail(minute: int, second: int, rest: string): (t: string)
    requires 0 <= minute <= 59 && 0 <= second <= 59
    ensures |t| == 6 + |rest| && t[0] == ':' && t[3] == ':'
    ensures t[1..3] == Pad2(minute) && t[4..6] == Pad2(second) && t[6..] == rest
  {
    [':', Pad2(minute)[0], Pad2(minute)[1], ':', Pad2(second)[0], Pad2(second)[1]] + rest
  }

  function FormatFraction(fraction: string): string {
    if fraction == "" then "" else "." + fraction
  }

  function FormatZone(z: Zone): (s: string)
    requires z.Offset? ==> 0 <= z.hours <= 24 && 0 <= z.minutes <= 60
  {
    match z
    case Utc => "Z"
    case Offset(negative, h, m) => (if negative then "-" else "+") + Pad2(h) + ":" + Pad2(m)
  }

  /** Parsing the canonical spelling gives back the fields. */
  lemma ParseFormat(dt: DateTime)
    requires InRange(dt)
    ensures Parse(Format(dt)) == Some(dt)
  {
    var date := FormatDate(dt.year, dt.month, dt.day);
    var clock := FormatClock(dt);
    assert Format(dt)[..11] == date;
    assert Format(dt)[11..] == clock;
    ParseDateFormat(dt.year, dt.month, dt.day);
    ParseClockFormat(dt);
  }

  lemma ParseDateFormat(year: int, month: int, day: int)
    requires 0 <= year <= 9999 && 1 <= month <= 12 && 1 <= day <= DaysIn(month, year)
    ensures ParseDate(FormatDate(year, month, day)) == Some((year, month, day))
  {
    var date := FormatDate(year, month, day);
    assert date[0..2] == Pad2(year / 100) && date[2..4] == Pad2(year % 100);
    assert date[5..7] == Pad2(month) && date[8..10] == Pad2(day);
  }

  lemma ParseClockFormat(dt: DateTime)
    requires InRange(dt)
    ensures ParseClock(FormatClock(dt)) == Some((dt.hour, dt.minute, dt.second, dt.fraction, dt.zone))
  {
    var rest := FormatFraction(dt.fraction) + FormatZone(dt.zone);
    var t := ClockTail(dt.minute, dt.second, rest);
    var s := FormatClock(dt);
    assert s[..2] == Pad2(dt.hour) && s[2..] == t;
    assert TwoDigits(s) && TwoDigitsValue(s) == TwoDigitsValue(Pad2(dt.hour)) == dt.hour;
    ParseClockTailFormat(dt);
  }

  lemma ParseClockTailFormat(dt: DateTime)
    requires InRange(dt)
    ensures ParseClockTail(dt.hour, ClockTail(dt.minute, dt.second, FormatFraction(dt.fraction) + FormatZone(dt.zone)))
      == Some((dt.hour, dt.minute, dt.second, dt.fraction, dt.zone))
  {
    var t := ClockTail(dt.minute, dt.second, FormatFraction(dt.fraction) + FormatZone(dt.zone));
    ParseFormattedZone(dt.zone);
    SplitFormattedFraction(dt.fraction, FormatFraction(dt.fraction), FormatZone(dt.zone));
    assert SplitFraction(t[6..]) == (dt.fraction, FormatZone(dt.zone));
  }

  lemma SplitFormattedFraction(fraction: string, frac: string, zone: string)
    requires AllDigits(fraction)
    requires frac == if fraction == "" then "" else "." + fraction
    requires |zone| > 0 && !IsDigit(zone[0]) && zone[0] != '.' && zone[0] != ','
    ensures SplitFraction(frac + zone) == (fraction, zone)
  {
    var s := frac + zone;
    if fraction != "" {
      assert s == "." + fraction + zone;
      DigitRunStops(s, fraction, zone);
      var n := 1 + |fraction|;
      assert s[1..n] == fraction && s[n..] == zone;
      assert IsDigit(s[1]);
      assert SplitFraction(s) == (s[1..n], s[n..]);
    } else {
      assert s == zone;
    }
  }

  lemma DigitRunStops(s: string, fraction: string, zone: string)
    requires AllDigits(fraction) && |fraction| > 0
    requires |zone| > 0 && !IsDigit(zone[0])
    requires s == "." + fraction + zone
    ensures DigitRun(s, 1) == 1 + |fraction|
  {
    DigitRunFrom(s, 1, 1 + |fraction|);
  }

  lemma {:induction false} DigitRunFrom(s: string, from: nat, stop: nat)
    requires from <= stop < |s|
    requires forall k :: from <= k < stop ==> IsDigit(s[k])
    requires !IsDigit(s[stop])
    ensures DigitRun(s, from) == stop
    decreases stop - from
  {
    if from < stop {
      DigitRunFrom(s, from + 1, stop);
    }
  }

  lemma ParseFormattedZone(z: Zone)
    requires z.Offset? ==> 0 <= z.hours <= 24 && 0 <= z.minutes <= 60
    ensures ParseZone(FormatZone(z)) == Some(z)
    ensures |FormatZone(z)| > 0 && !IsDigit(FormatZone(z)[0])
    ensures FormatZone(z)[0] != '.' && FormatZone(z)[0] != ','
  {
    match z
    case Utc =>
    case Offset(negative, h, m) =>
      var s := FormatZone(z);
      assert s[1..3] == Pad2(h) && s[4..6] == Pad2(m);
  }

  /** The milliseconds the fraction contributes: its first three digits,
      padded with zeros (Go keeps nanoseconds; milliseconds truncate them). */
  function FractionMillis(fraction: string): (ms: int)
    requires AllDigits(fraction)
    ensures 0 <= ms < 1000
  {
    var f := fraction + "000";
    assert AllDigits(f[..3]);
    DigitValue(f[0]) * 100 + DigitValue(f[1]) * 10 + DigitValue(f[2])
  }

  /** Days from 1970-01-01 to the given civil date (proleptic Gregorian). */
  function DaysFromCivil(year: int, month: int, day: int): int
    requires 1 <= month <= 12
  {
    var y := if month <= 2 then year - 1 else year;
    var era := y / 400;
    var yoe := y - era * 400;
    var mp := if month > 2 then month - 3 else month + 9;
    var doy := (153 * mp + 2) / 5 + day - 1;
    var doe := yoe * 365 + yoe / 4 - yoe / 100 + doy;
    era * 146097 + doe - 719468
  }

  lemma EpochIsDayZero()
    ensures DaysFromCivil(1970, 1, 1) == 0
    ensures DaysFromCivil(2000, 3, 1) == 11017
  {
  }

  /** Consecutive days of a month are consecutive day numbers. */
  lemma NextDay(year: int, month: int, day: int)
    requires 1 <= month <= 12
    ensures DaysFromCivil(year, month, day + 1) == DaysFromCivil(year, month, day) + 1
  {
  }

  function ZoneMillis(z: Zone): int {
    match z
    case Utc => 0
    case Offset(negative, h, m) => (if negative then -1 else 1) * (h * 60 + m) * 60000
  }

  /** The instant, in milliseconds since the Unix epoch. */
  function Millis(dt: DateTime): (ms: int)
    requires InRange(dt)
    ensures ms + ZoneMillis(dt.zone) == DaysFromCivil(dt.year, dt.month, dt.day) * 86400000
      + ((dt.hour * 60 + dt.minute) * 60 + dt.second) * 1000 + FractionMillis(dt.fraction)
  {
    DaysFromCivil(dt.year, dt.month, dt.day) * 86400000
      + ((dt.hour * 60 + dt.minute) * 60 + dt.second) * 1000
      + FractionMillis(dt.fraction)
      - ZoneMillis(dt.zone)
  }

  /** An offset east of UTC names an earlier instant than the same wall
      clock reading in UTC. */
  lemma OffsetShiftsInstant(dt: DateTime, h: int, m: int)
    requires InRange(dt) && dt.zone == Utc && 0 <= h <= 24 && 0 <= m <= 60
    ensures Millis(dt.(zone := Offset(false, h, m))) == Millis(dt) - (h * 60 + m) * 60000
    ensures Millis(dt.(zone := Offset(true, h, m))) == Millis(dt) + (h * 60 + m) * 60000
  {
  }

  /** `time.Parse` followed by `UnixMilli`. */
  function ParseMillis(s: string): (r: Option<int>)
    ensures r.Some? <==> Parse(s).Some?
    ensures r.Some? ==> r.value == Millis(Parse(s).value)
  {
    match Parse(s)
    case None => None
    case Some(dt) => Some(Millis(dt))
  }

  /** Where Go departs from RFC 3339: a leap second is rejected. */
  lemma RejectsLeapSecond()
    ensures Parse("2016-12-31T23:59:60Z") == None
  {
    var a := "2016-12-31T23:59:60Z";
    assert a[11..][2..][4..6] == "60";
  }

  /** Where Go departs from RFC 3339: a lower-case `t` is rejected. */
  lemma RejectsLowerCaseT()
    ensures Parse("2024-01-15t10:00:00Z") == None
  {
    var b := "2024-01-15t10:00:00Z";
    assert b[..11][10] == 't';
  }

  /** Where Go departs from RFC 3339: a one-digit hour is accepted. */
  lemma AcceptsOneDigitHour()
    ensures Parse("2024-01-15T9:30:00Z") == Some(DateTime(2024, 1, 15, 9, 30, 0, "", Utc))
  {
    var c := "2024-01-15T9:30:00Z";
    assert c[..11] == "2024-01-15T" && c[11..] == "9:30:00Z";
    SampleDate();
    OneDigitHourClock();
  }

  lemma SampleDate()
    ensures ParseDate("2024-01-15T") == Some((2024, 1, 15))
  {
    var d := "2024-01-15T";
    assert d[0..2] == "20" && d[2..4] == "24" && d[5..7] == "01" && d[8..10] == "15";
    assert TwoDigitsValue("20") == 20 && TwoDigitsValue("24") == 24;
    assert TwoDigitsValue("01") == 1 && TwoDigitsValue("15") == 15;
  }

  lemma OneDigitHourClock()
    ensures ParseClock("9:30:00Z") == Some((9, 30, 0, "", Utc))
  {
    var t := "9:30:00Z";
    assert !TwoDigits(t);
    assert t[1..] == ":30:00Z";
    var u := ":30:00Z";
    assert u[1..3] == "30" && u[4..6] == "00" && u[6..] == "Z";
    assert SplitFraction("Z") == ("", "Z");
    assert ParseClockTail(9, u) == Some((9, 30, 0, "", Utc));
  }

}
