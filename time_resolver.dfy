/**
 * The time coordinate of the converted dataset: the valid time of the WRF
 * file, its start date, the sub-day lead between them, the reference epoch
 * ("hours since" origin) and the CF time units (section 4.4 of the CF
 * Metadata Conventions) with the proleptic Gregorian calendar.
 */
module TimeResolver {
  import opened Wrappers
  import opened Calendar
  import opened TimeText
  import opened WrfData

  const CalendarName: string := "proleptic_gregorian"

  datatype TimeContext = TimeContext(
    valid: DateTime,     // b, parsed from Times[0]
    start: DateTime,     // start_date, parsed from START_DATE
    lead: real,          // hours, the sub-day remainder of b - start_date
    epoch: DateTime,     // date_sice, the origin of the time coordinate
    hoursSince: int,     // hours_since, the single time value
    units: string,       // attrs_time["units"]
    calendar: string)    // attrs_time["calendar"]

  /** `(b - start_date).seconds / 3600`: only the remainder of the difference
      after whole days counts. */
  function LeadHours(valid: DateTime, start: DateTime): real
    requires Valid(valid) && Valid(start)
  {
    (Subtract(valid, start).seconds as real) / 3600.0
  }

  /** The year the user gave as `yearsince`, else the start date's year. A
      falsy value other than None (such as 0) is kept, since neither branch
      of the test reassigns it. */
  function ReferenceYear(yearSince: Option<int>, start: DateTime): int {
    match yearSince
    case None => start.year
    case Some(y) => y
  }

  /** `strptime(str(y) + '0101 00', '%Y%m%d %H')`. `%Y` takes exactly four
      digits, so a four-digit year gives January 1 of that year, a three-digit
      year `abc` is read as year `abc0`, month 10, day 1, and every other value
      leaves text that the format cannot match (a ValueError, here `None`). */
  function EpochFromYear(y: int): (r: Option<DateTime>)
    ensures r.Some? <==> 100 <= y <= 9999
    ensures r.Some? ==> Valid(r.value) && IsMidnight(r.value)
  {
    if 1000 <= y <= 9999 then Some(DateTime(y, 1, 1, 0, 0, 0))
    else if 100 <= y <= 999 then Some(DateTime(10 * y, 10, 1, 0, 0, 0))
    else None
  }

  /** `delta.days * 24 + b.hour` with `delta = b - date_sice`. */
  function HoursSince(epoch: DateTime, valid: DateTime): int
    requires Valid(epoch) && Valid(valid)
  {
    Subtract(valid, epoch).days * 24 + valid.hour
  }

  /** `"hours since " + date_sice.strftime('%Y-%m-%dT%H:00:00Z')`. */
  function TimeUnits(epoch: DateTime): string
    requires Valid(epoch)
  {
    "hours since " + Encode(epoch.year, 4) + "-" + Encode(epoch.month, 2) + "-"
      + Encode(epoch.day, 2) + "T" + Encode(epoch.hour, 2) + ":00:00Z"
  }

  /** wrfpyx.py:123-171: every step that can raise, in the order the source
      takes them, then the derived time values. */
  function ResolveTime(f: WrfFile, yearSince: Option<int>): (r: Result<TimeContext, Failure>)
    ensures r.Success? ==> Valid(r.value.valid) && Valid(r.value.start) && Valid(r.value.epoch)
  {
    match Lookup(f, "Times")
    case None => Failure(KeyMissing("Times"))
    case Some(times) =>
      if !times.Text? then Failure(BadArray)
      else if |times.entries| == 0 then Failure(IndexOutOfRange)
      else match ParseValidTime(times.entries[0])
      case None => Failure(BadTimeFormat)
      case Some(b) =>
        match f.startDate
        case None => Failure(AttributeMissing("START_DATE"))
        case Some(text) =>
          match ParseStartDate(text)
          case None => Failure(BadTimeFormat)
          case Some(start) =>
            match EpochFromYear(ReferenceYear(yearSince, start))
            case None => Failure(BadTimeFormat)
            case Some(epoch) =>
              Success(TimeContext(b, start, LeadHours(b, start), epoch, HoursSince(epoch, b),
                                  TimeUnits(epoch), CalendarName))
  }

  /** The lead lies in [0, 24) and is the remainder, in hours, of the
      difference between the two instants after whole days; it is 0 exactly
      when they are a whole number of days apart, in either direction. */
  lemma LeadHoursIsSubDayRemainder(valid: DateTime, start: DateTime)
    requires Valid(valid) && Valid(start)
    ensures 0.0 <= LeadHours(valid, start) < 24.0
    ensures LeadHours(valid, start) * 3600.0 == ((Seconds(valid) - Seconds(start)) % SecondsPerDay) as real
    ensures LeadHours(valid, start) == 0.0 <==> (Seconds(valid) - Seconds(start)) % SecondsPerDay == 0
  {
    var d := Seconds(valid) - Seconds(start);
    var td := Subtract(valid, start);
    assert td.days == d / SecondsPerDay && td.seconds == d % SecondsPerDay;
  }

  /** On the same day, with the valid time not earlier than the start, the
      lead is the plain difference in hours. */
  lemma LeadHoursSameDay(valid: DateTime, start: DateTime)
    requires Valid(valid) && Valid(start)
    requires valid.year == start.year && valid.month == start.month && valid.day == start.day
    requires !Before(valid, start)
    ensures LeadHours(valid, start) * 3600.0 == (SecondOfDay(valid) - SecondOfDay(start)) as real
  {
    LeadHoursIsSubDayRemainder(valid, start);
    BeforeIsEarlier(valid, start);
  }

  /** With the epoch at midnight and the valid time on the hour, the time
      value is the exact number of hours from the epoch to the valid time,
      also when the valid time precedes the epoch. */
  lemma HoursSinceIsExact(epoch: DateTime, valid: DateTime)
    requires Valid(epoch) && Valid(valid) && IsMidnight(epoch) && OnTheHour(valid)
    ensures HoursSince(epoch, valid) * SecondsPerHour == Seconds(valid) - Seconds(epoch)
  {
    var days := Ordinal(valid) - Ordinal(epoch);
    var td := Subtract(valid, epoch);
    assert Seconds(valid) - Seconds(epoch) == days * SecondsPerDay + valid.hour * SecondsPerHour;
    WholeDaysUnique(td.days, td.seconds, days, valid.hour * SecondsPerHour);
  }

  /** A count of seconds splits in one way only into whole days and a
      remainder shorter than a day. */
  lemma WholeDaysUnique(d1: int, s1: int, d2: int, s2: int)
    requires 0 <= s1 < SecondsPerDay && 0 <= s2 < SecondsPerDay
    requires d1 * SecondsPerDay + s1 == d2 * SecondsPerDay + s2
    ensures d1 == d2 && s1 == s2
  {
    assert (d1 - d2) * SecondsPerDay == s2 - s1;
  }

  /** For a fixed epoch the time value strictly increases with the valid time. */
  lemma HoursSinceIncreasing(epoch: DateTime, v1: DateTime, v2: DateTime)
    requires Valid(epoch) && IsMidnight(epoch)
    requires Valid(v1) && Valid(v2) && OnTheHour(v1) && OnTheHour(v2)
    ensures Before(v1, v2) <==> HoursSince(epoch, v1) < HoursSince(epoch, v2)
  {
    HoursSinceIsExact(epoch, v1);
    HoursSinceIsExact(epoch, v2);
    BeforeIsEarlier(v1, v2);
  }

  /** For a four-digit reference year the epoch is January 1, 00:00 of that
      year, and the units read `hours since YYYY-01-01T00:00:00Z` with the
      year recoverable from characters 12 to 15. */
  lemma UnitsForYear(y: int)
    requires 1000 <= y <= 9999
    ensures EpochFromYear(y) == Some(DateTime(y, 1, 1, 0, 0, 0))
    ensures TimeUnits(DateTime(y, 1, 1, 0, 0, 0)) == "hours since " + Encode(y, 4) + "-01-01T00:00:00Z"
    ensures Decode(TimeUnits(DateTime(y, 1, 1, 0, 0, 0))[12..16]) == y
  {
    var u := TimeUnits(DateTime(y, 1, 1, 0, 0, 0));
    assert Encode(1, 2) == "01" && Encode(0, 2) == "00";
    assert u[12..16] == Encode(y, 4);
    DecodeEncode(y, 4);
  }

  /** What a successful time resolution produces: the valid time and start
      date as the file states them, the reference year chosen from
      `yearsince` or the start date, an epoch at midnight, the exact hour
      count from it and the fixed calendar. */
  lemma ResolveTimeMeaning(f: WrfFile, yearSince: Option<int>)
    requires ResolveTime(f, yearSince).Success?
    ensures var tc := ResolveTime(f, yearSince).value;
      && Lookup(f, "Times").Some? && Lookup(f, "Times").value.Text?
      && |Lookup(f, "Times").value.entries| > 0
      && Lookup(f, "Times").value.entries[0] == FormatValidTime(tc.valid) && OnTheHour(tc.valid)
      && f.startDate == Some(FormatStartDate(tc.start))
      && EpochFromYear(ReferenceYear(yearSince, tc.start)) == Some(tc.epoch)
      && (yearSince.None? ==> ReferenceYear(yearSince, tc.start) == tc.start.year)
      && IsMidnight(tc.epoch)
      && tc.hoursSince * SecondsPerHour == Seconds(tc.valid) - Seconds(tc.epoch)
      && tc.lead == LeadHours(tc.valid, tc.start) && 0.0 <= tc.lead < 24.0
      && tc.units == TimeUnits(tc.epoch)
      && tc.calendar == "proleptic_gregorian"
  {
    var tc := ResolveTime(f, yearSince).value;
    var times := Lookup(f, "Times").value;
    ValidTimeRoundTrip(times.entries[0], tc.valid);
    StartDateRoundTrip(f.startDate.value, tc.start);
    HoursSinceIsExact(tc.epoch, tc.valid);
    LeadHoursIsSubDayRemainder(tc.valid, tc.start);
  }

  /** Resolution succeeds on a file whose first Times entry and START_DATE
      are the texts of valid date-times, the valid time on the hour, when the
      reference year is one `strptime` accepts; the context then holds those
      date-times, the lead between them and the epoch of that year. */
  lemma ResolveTimeSucceeds(f: WrfFile, yearSince: Option<int>, entries: seq<string>, v: DateTime, s: DateTime)
    requires Valid(v) && OnTheHour(v) && Valid(s)
    requires Lookup(f, "Times") == Some(Text(entries)) && |entries| > 0 && entries[0] == FormatValidTime(v)
    requires f.startDate == Some(FormatStartDate(s))
    requires 100 <= ReferenceYear(yearSince, s) <= 9999
    ensures var epoch := EpochFromYear(ReferenceYear(yearSince, s)).value;
      ResolveTime(f, yearSince)
        == Success(TimeContext(v, s, LeadHours(v, s), epoch, HoursSince(epoch, v), TimeUnits(epoch), CalendarName))
  {
    ValidTimeRoundTrip(entries[0], v);
    StartDateRoundTrip(FormatStartDate(s), s);
  }

  /** `nc['Times']` raises a KeyError when the file has no Times variable. */
  lemma MissingTimesRaises(f: WrfFile, yearSince: Option<int>)
    requires Lookup(f, "Times").None?
    ensures ResolveTime(f, yearSince) == Failure(KeyMissing("Times"))
  {
  }

  /** `.data[0]` raises an IndexError when Times has no entry. */
  lemma EmptyTimesRaises(f: WrfFile, yearSince: Option<int>)
    requires Lookup(f, "Times") == Some(Text([]))
    ensures ResolveTime(f, yearSince) == Failure(IndexOutOfRange)
  {
  }

  /** `strptime(a, '%Y-%m-%d_%H:00:00')` raises a ValueError on any first
      Times entry that is not the text of a valid on-the-hour date-time. */
  lemma BadValidTimeRaises(f: WrfFile, yearSince: Option<int>, entries: seq<string>)
    requires Lookup(f, "Times") == Some(Text(entries)) && |entries| > 0
    requires forall t :: Valid(t) && OnTheHour(t) ==> entries[0] != FormatValidTime(t)
    ensures ResolveTime(f, yearSince) == Failure(BadTimeFormat)
  {
    if t :| ParseValidTime(entries[0]) == Some(t) {
      ValidTimeRoundTrip(entries[0], t);
    }
  }

  /** `nc.START_DATE` raises an AttributeError when the attribute is missing
      and the valid time was read. */
  lemma MissingStartDateRaises(f: WrfFile, yearSince: Option<int>, entries: seq<string>, v: DateTime)
    requires Valid(v) && OnTheHour(v)
    requires Lookup(f, "Times") == Some(Text(entries)) && |entries| > 0 && entries[0] == FormatValidTime(v)
    requires f.startDate.None?
    ensures ResolveTime(f, yearSince) == Failure(AttributeMissing("START_DATE"))
  {
    ValidTimeRoundTrip(entries[0], v);
  }

  /** `strptime(nc.START_DATE, '%Y-%m-%d_%H:%M:%S')` raises a ValueError on a
      text that is not that of a valid date-time. */
  lemma BadStartDateRaises(f: WrfFile, yearSince: Option<int>, entries: seq<string>, v: DateTime, text: string)
    requires Valid(v) && OnTheHour(v)
    requires Lookup(f, "Times") == Some(Text(entries)) && |entries| > 0 && entries[0] == FormatValidTime(v)
    requires f.startDate == Some(text)
    requires forall t :: Valid(t) ==> text != FormatStartDate(t)
    ensures ResolveTime(f, yearSince) == Failure(BadTimeFormat)
  {
    ValidTimeRoundTrip(entries[0], v);
    if t :| ParseStartDate(text) == Some(t) {
      StartDateRoundTrip(text, t);
    }
  }

  /** `strptime(str(yearsice) + '0101 00', '%Y%m%d %H')` raises a ValueError
      for a reference year outside 100 .. 9999. */
  lemma BadReferenceYearRaises(f: WrfFile, yearSince: Option<int>, entries: seq<string>, v: DateTime, s: DateTime)
    requires Valid(v) && OnTheHour(v) && Valid(s)
    requires Lookup(f, "Times") == Some(Text(entries)) && |entries| > 0 && entries[0] == FormatValidTime(v)
    requires f.startDate == Some(FormatStartDate(s))
    requires !(100 <= ReferenceYear(yearSince, s) <= 9999)
    ensures ResolveTime(f, yearSince) == Failure(BadTimeFormat)
  {
    ValidTimeRoundTrip(entries[0], v);
    StartDateRoundTrip(FormatStartDate(s), s);
  }

  /** A three-digit year `abc` fills `%Y` as `abc0`, leaving `10` for `%m` and
      `1` for `%d`: the epoch is October 1 of year `10 * y`, not January 1 of `y`. */
  lemma ThreeDigitEpoch(y: int)
    requires 100 <= y <= 999
    ensures EpochFromYear(y) == Some(DateTime(10 * y, 10, 1, 0, 0, 0))
    ensures EpochFromYear(y) != Some(DateTime(y, 1, 1, 0, 0, 0))
  {
  }
}
