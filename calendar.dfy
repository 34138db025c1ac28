/** The calendar arithmetic of .NET's DateTime that the decoder relies on:
    building a date-time from its six fields (which raises on an impossible
    field), adding one minute with carry into hour, day, month and year, and
    the minute-rollover rule of the compact samples. Sub-second parts never
    occur in a cursor time, so a date-time is its six fields. */
module Calendar {
  import opened Common

  datatype DateTime = DateTime(year: int, month: int, day: int, hour: int, minute: int, second: int)

  predicate IsLeap(y: int)
  {
    y % 4 == 0 && (y % 100 != 0 || y % 400 == 0)
  }

  function DaysInMonth(y: int, m: int): (n: int)
    requires 1 <= m <= 12
    ensures 28 <= n <= 31
  {
    if m == 2 then (if IsLeap(y) then 29 else 28)
    else if m == 4 || m == 6 || m == 9 || m == 11 then 30
    else 31
  }

  /** The fields DateTime's constructor accepts without raising. */
  predicate Valid(t: DateTime)
  {
    1 <= t.year <= 9999 && 1 <= t.month <= 12 && 1 <= t.day <= DaysInMonth(t.year, t.month)
    && 0 <= t.hour < 24 && 0 <= t.minute < 60 && 0 <= t.second < 60
  }

  /** The constructor DateTime(year, month, day, hour, minute, second). */
  function MakeDateTime(year: int, month: int, day: int, hour: int, minute: int, second: int): (r: Outcome<DateTime>)
    ensures r.Returned? <==> Valid(DateTime(year, month, day, hour, minute, second))
    ensures r.Returned? ==> Valid(r.value) && r.value == DateTime(year, month, day, hour, minute, second)
    ensures r.Threw? ==> r.error == ArgumentOutOfRange
  {
    var t := DateTime(year, month, day, hour, minute, second);
    if Valid(t) then Returned(t) else Threw(ArgumentOutOfRange)
  }

  // ---------------------------------------------------------------------
  // A reference count of seconds since 0001-01-01 00:00:00
  // ---------------------------------------------------------------------

  function DaysBeforeYear(y: int): int
    requires y >= 1
  {
    365 * (y - 1) + (y - 1) / 4 - (y - 1) / 100 + (y - 1) / 400
  }

  function DaysBeforeMonth(y: int, m: int): int
    requires 1 <= m <= 13
  {
    if m == 1 then 0 else DaysBeforeMonth(y, m - 1) + DaysInMonth(y, m - 1)
  }

  /** Seconds since the start of the proleptic Gregorian calendar, as .NET counts ticks. */
  function Seconds(t: DateTime): int
    requires Valid(t)
  {
    var days := DaysBeforeYear(t.year) + DaysBeforeMonth(t.year, t.month) + t.day - 1;
    ((days * 24 + t.hour) * 60 + t.minute) * 60 + t.second
  }

  lemma MultipleStep(y: int, k: int)
    requires y >= 1 && (k == 4 || k == 100 || k == 400)
    ensures y / k - (y - 1) / k == if y % k == 0 then 1 else 0
  {
    var q, r := (y - 1) / k, (y - 1) % k;
    assert y == q * k + r + 1;
    if r + 1 == k {
      assert y == (q + 1) * k;
    } else {
      assert y == q * k + (r + 1);
    }
  }

  /** The twelve months of a year add up to 365 days, 366 in a leap year. */
  lemma MonthsOfYear(y: int)
    ensures DaysBeforeMonth(y, 13) == if IsLeap(y) then 366 else 365
  {
    assert DaysBeforeMonth(y, 2) == 31;
    assert DaysBeforeMonth(y, 3) == 31 + DaysInMonth(y, 2);
    assert DaysBeforeMonth(y, 4) == 62 + DaysInMonth(y, 2);
    assert DaysBeforeMonth(y, 5) == 92 + DaysInMonth(y, 2);
    assert DaysBeforeMonth(y, 6) == 123 + DaysInMonth(y, 2);
    assert DaysBeforeMonth(y, 7) == 153 + DaysInMonth(y, 2);
    assert DaysBeforeMonth(y, 8) == 184 + DaysInMonth(y, 2);
    assert DaysBeforeMonth(y, 9) == 215 + DaysInMonth(y, 2);
    assert DaysBeforeMonth(y, 10) == 245 + DaysInMonth(y, 2);
    assert DaysBeforeMonth(y, 11) == 276 + DaysInMonth(y, 2);
    assert DaysBeforeMonth(y, 12) == 306 + DaysInMonth(y, 2);
    assert DaysBeforeMonth(y, 13) == 337 + DaysInMonth(y, 2);
  }

  lemma DaysBeforeNextYear(y: int)
    requires y >= 1
    ensures DaysBeforeYear(y + 1) == DaysBeforeYear(y) + if IsLeap(y) then 366 else 365
  {
    MultipleStep(y, 4);
    MultipleStep(y, 100);
    MultipleStep(y, 400);
    if y % 400 == 0 {
      assert y == 100 * (4 * (y / 400));
    }
    if y % 100 == 0 {
      assert y == 4 * (25 * (y / 100));
    }
    assert DaysBeforeYear(y + 1) - DaysBeforeYear(y)
        == 365 + (y / 4 - (y - 1) / 4) - (y / 100 - (y - 1) / 100) + (y / 400 - (y - 1) / 400);
  }

  /** A year is as long as its twelve months. */
  lemma YearLength(y: int)
    requires y >= 1
    ensures DaysBeforeYear(y + 1) == DaysBeforeYear(y) + DaysBeforeMonth(y, 13)
  {
    MonthsOfYear(y);
    DaysBeforeNextYear(y);
  }

  // ---------------------------------------------------------------------
  // AddMinutes(1)
  // ---------------------------------------------------------------------

  /** t.AddMinutes(1): raises only when the result would lie past 9999-12-31 23:59:59. */
  function AddOneMinute(t: DateTime): (r: Outcome<DateTime>)
    requires Valid(t)
    ensures r.Returned? ==> Valid(r.value)
    ensures r.Threw? <==> t.year == 9999 && t.month == 12 && t.day == 31 && t.hour == 23 && t.minute == 59
  {
    if t.minute < 59 then Returned(t.(minute := t.minute + 1))
    else if t.hour < 23 then Returned(t.(hour := t.hour + 1, minute := 0))
    else if t.day < DaysInMonth(t.year, t.month) then Returned(t.(day := t.day + 1, hour := 0, minute := 0))
    else if t.month < 12 then Returned(t.(month := t.month + 1, day := 1, hour := 0, minute := 0))
    else if t.year < 9999 then Returned(DateTime(t.year + 1, 1, 1, 0, 0, t.second))
    else Threw(ArgumentOutOfRange)
  }

  /** Adding a minute with carry moves the time exactly sixty seconds on. */
  lemma AddOneMinuteAdvances(t: DateTime)
    requires Valid(t) && AddOneMinute(t).Returned?
    ensures Seconds(AddOneMinute(t).value) == Seconds(t) + 60
  {
    if t.minute == 59 && t.hour == 23 && t.day == DaysInMonth(t.year, t.month) && t.month == 12 {
      YearLength(t.year);
    }
  }

  // ---------------------------------------------------------------------
  // SetNewTime
  // ---------------------------------------------------------------------

  /** The time of a compact sample, which carries only a minute and a second:
      the second replaces the cursor's; when the minute differs from the
      cursor's, one minute is added (with carry) whatever the new minute is. */
  function SetNewTime(t: DateTime, newMin: int, newSec: int): (r: Outcome<DateTime>)
    requires Valid(t)
    ensures r.Returned? ==> Valid(r.value)
    ensures newMin == t.minute ==> r == MakeDateTime(t.year, t.month, t.day, t.hour, t.minute, newSec)
    ensures !(0 <= newSec < 60) ==> r == Threw(ArgumentOutOfRange)
  {
    var s := MakeDateTime(t.year, t.month, t.day, t.hour, t.minute, newSec);
    if s.Threw? then s
    else if newMin == t.minute then s
    else AddOneMinute(s.value)
  }

  /** Whatever the new minute, the result lies the old second's distance back
      plus the new second, plus one minute exactly when the minutes differ. */
  lemma SetNewTimeAdvances(t: DateTime, newMin: int, newSec: int)
    requires Valid(t) && SetNewTime(t, newMin, newSec).Returned?
    ensures 0 <= newSec < 60
    ensures Seconds(SetNewTime(t, newMin, newSec).value)
         == Seconds(t) - t.second + newSec + (if newMin == t.minute then 0 else 60)
    ensures SetNewTime(t, newMin, newSec).value.second == newSec
  {
    var s := t.(second := newSec);
    assert Valid(s);
    if newMin != t.minute {
      AddOneMinuteAdvances(s);
    }
  }

  lemma SetNewTimeExamples()
    ensures SetNewTime(DateTime(2008, 5, 17, 12, 5, 58), 5, 59) == Returned(DateTime(2008, 5, 17, 12, 5, 59))
    ensures SetNewTime(DateTime(2008, 5, 17, 12, 5, 58), 6, 1) == Returned(DateTime(2008, 5, 17, 12, 6, 1))
    ensures SetNewTime(DateTime(2008, 12, 31, 23, 59, 30), 0, 2) == Returned(DateTime(2009, 1, 1, 0, 0, 2))
    ensures SetNewTime(DateTime(2008, 2, 28, 23, 59, 30), 0, 2) == Returned(DateTime(2008, 2, 29, 0, 0, 2))
  {
  }
}
