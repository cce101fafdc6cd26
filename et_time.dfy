/**
 * The browser-side conversion of a date to New York time: the date is moved
 * back by 5 hours in winter and by 4 hours in summer, the season being told
 * apart by the calendar fields the date object reports. Summer time starts on
 * the second Sunday of March and ends on the first Sunday of November; the
 * hour of the switch is not looked at.
 */
module EtTime {
  const MsPerHour: int := 60 * 60000

  /**
   * The offset rule as written: winter in January, February and December, in
   * March before its second Sunday (`date - dayOfWeek < 8`), and in November
   * when `date - dayOfWeek > 1`. `month` is 1-based; `dayOfWeek` is 0 on Sunday.
   */
  function EtOffsetHoursAsWritten(month: int, date: int, dayOfWeek: int): (r: int)
    ensures r == -4 || r == -5
  {
    if month < 3 || month == 12 || (month == 3 && date - dayOfWeek < 8) || (month == 11 && date - dayOfWeek > 1) then -5
    else -4
  }

  /**
   * The intended rule: in November winter time starts on the first Sunday,
   * that is, once the Sunday on or before the date (`date - dayOfWeek`) is a
   * day of the month.
   */
  function EtOffsetHours(month: int, date: int, dayOfWeek: int): (r: int)
    ensures r == -4 || r == -5
  {
    if month < 3 || month == 12 || (month == 3 && date - dayOfWeek < 8) || (month == 11 && date - dayOfWeek >= 1) then -5
    else -4
  }

  /** Whether, in a month whose day `date` falls on `dayOfWeek`, a Sunday from day `lo` to `lo + 6` is on or before `date`. */
  predicate SundayReached(date: int, dayOfWeek: int, lo: int)
  {
    exists k :: lo <= k <= lo + 6 && k <= date && IsSunday(date, dayOfWeek, k)
  }

  /** Whether day `k` of the month is a Sunday, when day `date` falls on `dayOfWeek`. */
  predicate IsSunday(date: int, dayOfWeek: int, k: int)
  {
    (date - dayOfWeek - k) % 7 == 0
  }

  /** The Sunday on or before `date` is day `date - dayOfWeek`; the `lo`-week Sunday is reached iff that day is at least `lo`. */
  lemma {:induction false} SundayReachedMeaning(date: int, dayOfWeek: int, lo: int)
    requires 0 <= dayOfWeek <= 6
    ensures SundayReached(date, dayOfWeek, lo) <==> date - dayOfWeek >= lo
  {
    var s := date - dayOfWeek;
    if s >= lo {
      var q := (s - lo) / 7;
      var k := s - 7 * q;
      assert s - lo == 7 * q + (s - lo) % 7;
      assert date - dayOfWeek - k == 7 * q;
      assert lo <= k <= lo + 6 && k <= date && IsSunday(date, dayOfWeek, k);
    } else {
      forall k | lo <= k <= lo + 6 && k <= date ensures !IsSunday(date, dayOfWeek, k) {
        assert -7 < s - k < 0;
      }
    }
  }

  /** January, February and December are winter time, April to October summer time. */
  lemma {:induction false} WholeMonths(month: int, date: int, dayOfWeek: int)
    requires 1 <= month <= 12 && month != 3 && month != 11
    ensures EtOffsetHours(month, date, dayOfWeek) == (if month <= 2 || month == 12 then -5 else -4)
  {
  }

  /** In March summer time holds from the second Sunday on. */
  lemma {:induction false} MarchRule(date: int, dayOfWeek: int)
    requires 0 <= dayOfWeek <= 6
    ensures EtOffsetHours(3, date, dayOfWeek) == -4 <==> SundayReached(date, dayOfWeek, 8)
  {
    SundayReachedMeaning(date, dayOfWeek, 8);
  }

  /** In November winter time holds from the first Sunday on. */
  lemma {:induction false} NovemberRule(date: int, dayOfWeek: int)
    requires 0 <= dayOfWeek <= 6
    ensures EtOffsetHours(11, date, dayOfWeek) == -5 <==> SundayReached(date, dayOfWeek, 1)
  {
    SundayReachedMeaning(date, dayOfWeek, 1);
  }

  /** The written rule agrees with the intended one except in a November whose first day is a Sunday. */
  lemma {:induction false} AsWrittenAgrees(month: int, date: int, dayOfWeek: int)
    ensures EtOffsetHoursAsWritten(month, date, dayOfWeek) == EtOffsetHours(month, date, dayOfWeek) <==>
      !(month == 11 && date - dayOfWeek == 1)
  {
  }

  /**
   * When November 1 is a Sunday (as in 2020 and 2026), the written rule keeps
   * summer time for the whole first week although winter time has begun.
   */
  lemma {:induction false} FirstNovemberWeekMissed(date: int)
    requires 1 <= date <= 7
    ensures SundayReached(date, date - 1, 1)
    ensures EtOffsetHoursAsWritten(11, date, date - 1) == -4
    ensures EtOffsetHours(11, date, date - 1) == -5
  {
    SundayReachedMeaning(date, date - 1, 1);
  }

  /** The calendar fields a date object reports in the browser's zone: 0-based month, day of month, day of week. */
  datatype LocalFields = LocalFields(month0: int, date: int, day: int)

  /** A calendar time as the `Date` constructor takes it, month 0-based. */
  datatype CalendarTime = CalendarTime(year: int, month0: int, date: int, hours: int, minutes: int)

  /** A JavaScript `Date`: milliseconds since the epoch. */
  class JsDate {
    var time: int

    constructor (time: int)
      ensures this.time == time
    {
      this.time := time;
    }
  }

  /** The offset for the fields the date reports at `time`. */
  function OffsetAt(localFields: int -> LocalFields, time: int): int
  {
    var f := localFields(time);
    EtOffsetHours(f.month0 + 1, f.date, f.day)
  }

  /**
   * `ConvertDateUtcToEt`: the date itself is moved by the offset, in place,
   * and returned. `localFields` stands for the local-time getters.
   */
  method ConvertDateUtcToEt(utcDate: JsDate, localFields: int -> LocalFields) returns (r: JsDate)
    modifies utcDate
    ensures r == utcDate
    ensures utcDate.time == old(utcDate.time) + OffsetAt(localFields, old(utcDate.time)) * MsPerHour
    ensures old(utcDate.time) - 5 * MsPerHour <= utcDate.time <= old(utcDate.time) - 4 * MsPerHour
  {
    var f := localFields(utcDate.time);
    var offsetToNYTime := EtOffsetHours(f.month0 + 1, f.date, f.day);
    var dateEt := utcDate;
    dateEt.time := dateEt.time + offsetToNYTime * 60 * 60000;
    r := dateEt;
  }

  /**
   * `ConvertDateLocToEt`: a new date made in the local zone from the UTC
   * fields down to the minute, then converted in place; the given date is not
   * changed. `utcFields` stands for the UTC getters, `localTime` for the
   * constructor.
   */
  method ConvertDateLocToEt(locDate: JsDate, utcFields: int -> CalendarTime, localTime: CalendarTime -> int,
                            localFields: int -> LocalFields) returns (r: JsDate)
    ensures fresh(r)
    ensures var t := localTime(utcFields(locDate.time)); r.time == t + OffsetAt(localFields, t) * MsPerHour
  {
    var u := utcFields(locDate.time);
    var dateUtc := new JsDate(localTime(CalendarTime(u.year, u.month0, u.date, u.hours, u.minutes)));
    r := ConvertDateUtcToEt(dateUtc, localFields);
  }
}
