/** `date_to_week_count` (exercises/hard/solutiont4/src/calc_time.rs): the
    ISO 8601 week number, in which week 1 is the week, Monday to Sunday,
    holding the year's first Thursday. `WeekCountAsWritten` is the code as
    it stands; `IsoWeek` keeps its shape (a count from the weekday of
    1 January, a fall-back to the previous 31 December, the December
    override) with the branch for a year starting on Friday or Saturday
    mended, and is proved equal to the week of the date's Thursday. */
module WeekNumber {
  import opened Calendar
  import opened DayOfWeek

  /** Lines 61-64: the weekday of 1 January as the code computes it, with
      Sunday counted as 0. */
  function JanFirstAsWritten(year: nat): (w: nat)
    ensures w <= 6
  {
    var w := WeekdayAsWritten(year, 1, 1);
    if w == 7 then 0 else w
  }

  /** The inputs on which `date_to_week_count` runs to the end: the day of
      the year does not pass the year (line 54), December days are at most
      31 (line 82), `days + week_day - 2` does not go below 0 (line 76,
      which fails on 1 January of a year that starts on a Sunday) and the
      fall-back to the previous year does not go below year 0 (line 71). */
  predicate WeekCountDefined(year: nat, month: nat, day: nat)
  {
    && InYear(year, month, day)
    && (month == 12 ==> day <= 31)
    && var w := JanFirstAsWritten(year);
       (w <= 4 ==> DaysBefore(year, month) + day + w >= 2)
       && (w > 4 && day <= 8 - w ==> year >= 1)
  }

  /** `date_to_week_count` as written. For a year starting on Friday or
      Saturday it tests the day of the MONTH against 8 - w, so the first
      days of every month fall back to the previous year's last week, and
      it counts one week too many after that. */
  function WeekCountAsWritten(year: nat, month: nat, day: nat): (n: nat)
    requires WeekCountDefined(year, month, day)
    ensures 1 <= n
    decreases if day <= 3 then 1 else 0
  {
    var w := JanFirstAsWritten(year);
    var days := CountDays(year, month, day).0;
    var ans :=
      if w > 4 then
        if day <= 7 - w + 1 then
          DaysBeforeTable(year - 1, 13);
          WeekCountAsWritten(year - 1, 12, 31)
        else (days + w - 3) / 7 + 1
      else (days + w - 2) / 7 + 1;
    if month == 12 then
      var last := WeekdayAsWritten(year, 12, 31);
      if last < 4 && 31 - day < last then 1 else ans
    else ans
  }

  /** The week count with the Friday/Saturday branch mended: w is the
      weekday of 1 January (Sunday 7), the date lies in week
      (doy + w - 2) / 7 counting 1 January's week as 0, and that week is
      week 1 when it holds a Thursday of the year (w <= 4); week 0 belongs
      to the previous year, and the last days of December belong to week 1
      of the next year when 31 December falls before Thursday. */
  function IsoWeek(year: nat, month: nat, day: nat): (n: nat)
    requires year >= 1 && ValidDate(year, month, day)
    ensures 1 <= n
    decreases if month == 12 && day == 31 then 0 else 1
  {
    var doy := DaysBefore(year, month) + day;
    var wk := WeekIndex(doy, Weekday(year, 1, 1));
    var ans :=
      if wk == 0 then
        DaysBeforeTable(year, month);
        DaysBeforeTable(year - 1, 12);
        YearOneStartsMonday();
        IsoWeek(year - 1, 12, 31)
      else wk;
    if month == 12 && LateDecember(Weekday(year, 12, 31), 31 - day) then 1 else ans
  }

  /** The week of day `doy` of a year whose 1 January has weekday w: weeks
      counted from 1 January's week as 0, plus one when that week holds a
      Thursday of the year. */
  function WeekIndex(doy: int, w: int): int
  {
    (doy + w - 2) / 7 + if w <= 4 then 1 else 0
  }

  /** A December day `left` days before 31 December, which has weekday
      `last`, lies in a week whose Thursday is in the next year. */
  predicate LateDecember(last: int, left: int)
  {
    last < 4 && left < last
  }

  /** 1 January of year 1 was a Monday, so the count never falls back to
      year 0. */
  lemma YearOneStartsMonday()
    ensures Weekday(1, 1, 1) == 1
  {
  }

  /** The Thursday of the week (Monday to Sunday) a date lies in, as a day
      count. */
  function Thursday(year: nat, month: nat, day: nat): int
    requires month <= 13
  {
    AbsDay(year, month, day) - RefWeekday(year, month, day) + 4
  }

  /** The ISO week from its definition: the number of the Thursday's week
      within the Thursday's own year, which is the date's year or the one
      before or after. */
  function IsoWeekRef(year: nat, month: nat, day: nat): int
    requires year >= 1 && month <= 13
  {
    var th := Thursday(year, month, day);
    var first := AbsDay(year, 1, 1);
    var next := AbsDay(year + 1, 1, 1);
    if th < first then (th - AbsDay(year - 1, 1, 1)) / 7 + 1
    else if th >= next then (th - next) / 7 + 1
    else (th - first) / 7 + 1
  }

  /** The week count within one year, on offsets from 1 January: w is the
      weekday of 1 January, d that of day `doy`, lw that of the year's last
      day `len`, and the Thursday of day `doy`'s week is day doy - d + 4. A
      Thursday before the year gives week index 0, and can only belong to
      one of the first three days. */
  lemma ArithBefore(len: int, doy: int, w: int, d: int, lw: int)
    requires len == 365 || len == 366
    requires 1 <= doy <= len && 1 <= w <= 7
    requires d == (w - 1 + doy - 1) % 7 + 1 && lw == (w - 1 + len - 1) % 7 + 1
    requires doy - d + 3 < 0
    ensures WeekIndex(doy, w) == 0 && -3 <= doy - d + 3 && doy <= 3
  {
    var s := w - 1 + doy - 1;
    var n := s / 7;
    assert s == 7 * n + (d - 1);
  }

  /** A Thursday within the year: the week index counts its week, and the
      December test does not fire. */
  lemma ArithWithin(len: int, doy: int, w: int, d: int, lw: int)
    requires len == 365 || len == 366
    requires 1 <= doy <= len && 1 <= w <= 7
    requires d == (w - 1 + doy - 1) % 7 + 1 && lw == (w - 1 + len - 1) % 7 + 1
    requires 0 <= doy - d + 3 < len
    ensures WeekIndex(doy, w) == (doy - d + 3) / 7 + 1
    ensures !LateDecember(lw, len - doy)
  {
    var s, e := w - 1 + doy - 1, w - 1 + len - 1;
    var n, m := s / 7, e / 7;
    assert s == 7 * n + (d - 1) && e == 7 * m + (lw - 1);
    if w <= 4 {
      assert doy - d + 3 == 7 * n + (4 - w);
    } else {
      assert doy - d + 3 == 7 * (n - 1) + (11 - w);
    }
  }

  /** A Thursday after the year: the day is one of the year's last three
      and the December test fires. */
  lemma ArithAfter(len: int, doy: int, w: int, d: int, lw: int)
    requires len == 365 || len == 366
    requires 1 <= doy <= len && 1 <= w <= 7
    requires d == (w - 1 + doy - 1) % 7 + 1 && lw == (w - 1 + len - 1) % 7 + 1
    requires len <= doy - d + 3
    ensures doy - d + 3 < len + 3 && LateDecember(lw, len - doy)
  {
    var s, e := w - 1 + doy - 1, w - 1 + len - 1;
    var n, m := s / 7, e / 7;
    assert s == 7 * n + (d - 1) && e == 7 * m + (lw - 1);
  }

  /** Adding to a number adds to its remainder modulo 7. */
  lemma ModShift(b: int, x: int)
    ensures (b + x) % 7 == (b % 7 + x) % 7
  {
    var k := b / 7;
    assert b + x == 7 * k + (b % 7 + x);
  }

  /** The weekday of the date from the weekday of 1 January. */
  lemma WeekdayOffset(year: nat, month: nat, day: nat)
    requires ValidDate(year, month, day)
    ensures Weekday(year, month, day) == (Weekday(year, 1, 1) - 1 + DaysBefore(year, month) + day - 1) % 7 + 1
      && Thursday(year, month, day) == AbsDay(year, 1, 1) + DaysBefore(year, month) + day - Weekday(year, month, day) + 3
  {
    WeekdayCorrect(year, 1, 1);
    WeekdayCorrect(year, month, day);
    var x := DaysBefore(year, month) + day - 1;
    assert AbsDay(year, month, day) == AbsDay(year, 1, 1) + x;
    ModShift(AbsDay(year, 1, 1) + 4, x);
  }

  /** 31 December, its weekday from that of 1 January, and how a date's
      December test reads in days of the year. */
  lemma YearEnd(year: nat, month: nat, day: nat)
    requires ValidDate(year, month, day)
    ensures ValidDate(year, 12, 31) && DaysBefore(year, 12) + 31 == YearLength(year)
    ensures Weekday(year, 12, 31) == (Weekday(year, 1, 1) - 1 + YearLength(year) - 1) % 7 + 1
    ensures var doy := DaysBefore(year, month) + day;
      && 1 <= doy <= YearLength(year)
      && (month == 12 ==> 31 - day == YearLength(year) - doy)
      && (month < 12 ==> YearLength(year) - doy >= 31)
  {
    DaysBeforeTable(year, 12);
    DaysBeforeTable(year, 13);
    WeekdayOffset(year, 12, 31);
    ValidDayOfYear(year, month, day);
    if month < 12 {
      DaysBeforeMonotone(year, month + 1, 12);
    }
  }

  /** 1 January of the next year comes a year's length later. */
  lemma NewYearNext(year: nat)
    ensures AbsDay(year + 1, 1, 1) == AbsDay(year, 1, 1) + YearLength(year)
  {
    MonthsFillYear(year);
  }

  /** 1 January comes a year's length after the previous one. */
  lemma NewYearPrev(year: nat)
    requires year >= 1
    ensures AbsDay(year, 1, 1) == AbsDay(year - 1, 1, 1) + YearLength(year - 1)
  {
    MonthsFillYear(year - 1);
  }

  /** A date whose Thursday comes before 1 January is one of the year's
      first three days, the year is not year 1 (which began on a Monday),
      and the mended count falls back to the previous 31 December. */
  lemma IsoWeekBefore(year: nat, month: nat, day: nat)
    requires year >= 1 && ValidDate(year, month, day)
    requires Thursday(year, month, day) < AbsDay(year, 1, 1)
    ensures year >= 2 && DaysBefore(year, month) + day <= 3
    ensures AbsDay(year, 1, 1) - 3 <= Thursday(year, month, day)
    ensures IsoWeek(year, month, day) == IsoWeek(year - 1, 12, 31)
  {
    WeekdayOffset(year, month, day);
    YearEnd(year, month, day);
    ArithBefore(YearLength(year), DaysBefore(year, month) + day, Weekday(year, 1, 1), Weekday(year, month, day), Weekday(year, 12, 31));
    YearOneStartsMonday();
    IsoWeekFallsBack(year, month, day);
  }

  /** Week index 0 outside December: the count of the previous 31
      December. */
  lemma IsoWeekFallsBack(year: nat, month: nat, day: nat)
    requires year >= 2 && ValidDate(year, month, day) && month < 12
    requires WeekIndex(DaysBefore(year, month) + day, Weekday(year, 1, 1)) == 0
    ensures IsoWeek(year, month, day) == IsoWeek(year - 1, 12, 31)
  {
  }

  /** A date whose Thursday lies in its own year has the number of that
      Thursday's week. */
  lemma IsoWeekWithin(year: nat, month: nat, day: nat)
    requires year >= 1 && ValidDate(year, month, day)
    requires AbsDay(year, 1, 1) <= Thursday(year, month, day) < AbsDay(year, 1, 1) + YearLength(year)
    ensures IsoWeek(year, month, day) == (Thursday(year, month, day) - AbsDay(year, 1, 1)) / 7 + 1
  {
    WeekdayOffset(year, month, day);
    YearEnd(year, month, day);
    ArithWithin(YearLength(year), DaysBefore(year, month) + day, Weekday(year, 1, 1), Weekday(year, month, day), Weekday(year, 12, 31));
  }

  /** A date whose Thursday lies in the next year is one of the last days
      of December, in week 1. */
  lemma IsoWeekAfter(year: nat, month: nat, day: nat)
    requires year >= 1 && ValidDate(year, month, day)
    requires AbsDay(year, 1, 1) + YearLength(year) <= Thursday(year, month, day)
    ensures Thursday(year, month, day) < AbsDay(year, 1, 1) + YearLength(year) + 3
    ensures IsoWeek(year, month, day) == 1
  {
    WeekdayOffset(year, month, day);
    YearEnd(year, month, day);
    ArithAfter(YearLength(year), DaysBefore(year, month) + day, Weekday(year, 1, 1), Weekday(year, month, day), Weekday(year, 12, 31));
  }

  /** A date whose Thursday lies before its year: both counts give the
      week of that Thursday in the previous year. */
  lemma CorrectBefore(year: nat, month: nat, day: nat)
    requires year >= 1 && ValidDate(year, month, day)
    requires Thursday(year, month, day) < AbsDay(year, 1, 1)
    ensures year >= 2 && IsoWeek(year, month, day) == (Thursday(year, month, day) - AbsDay(year - 1, 1, 1)) / 7 + 1
  {
    IsoWeekBefore(year, month, day);
    NewYearPrev(year);
    SameThursday(year, month, day);
    YearEnd(year - 1, 12, 31);
    IsoWeekWithin(year - 1, 12, 31);
  }

  /** The mended count is the ISO week of every date from year 1 on. */
  lemma IsoWeekCorrect(year: nat, month: nat, day: nat)
    requires year >= 1 && ValidDate(year, month, day)
    ensures IsoWeek(year, month, day) == IsoWeekRef(year, month, day)
  {
    var th, a1 := Thursday(year, month, day), AbsDay(year, 1, 1);
    NewYearNext(year);
    if th < a1 {
      CorrectBefore(year, month, day);
    } else if th < a1 + YearLength(year) {
      IsoWeekWithin(year, month, day);
    } else {
      IsoWeekAfter(year, month, day);
    }
  }

  /** 31 December is the day before the next 1 January. */
  lemma YearEve(year: nat)
    requires year >= 1
    ensures AbsDay(year - 1, 12, 31) == AbsDay(year, 1, 1) - 1
  {
    DaysBeforeTable(year - 1, 12);
    NewYearPrev(year);
  }

  /** A date in the first three days of the year whose Thursday comes
      before 1 January shares its Thursday with the previous 31 December. */
  lemma SameThursday(year: nat, month: nat, day: nat)
    requires year >= 1 && ValidDate(year, month, day)
    requires DaysBefore(year, month) + day <= 3
    requires Thursday(year, month, day) < AbsDay(year, 1, 1)
    ensures Thursday(year, month, day) == Thursday(year - 1, 12, 31)
  {
    YearEve(year);
    MondaysAgree(AbsDay(year, month, day), AbsDay(year - 1, 12, 31));
  }

  /** A day between the Monday of a's week and a has the same Monday. */
  lemma MondaysAgree(a: int, b: int)
    requires a - (a + 4) % 7 <= b <= a
    ensures b - (b + 4) % 7 == a - (a + 4) % 7
  {
    var k := (a + 4) / 7;
    assert a + 4 == 7 * k + (a + 4) % 7;
    var j := (b + 4) / 7;
    assert b + 4 == 7 * j + (b + 4) % 7;
  }

  /** A week number runs from 1 to 53. */
  lemma IsoWeekRange(year: nat, month: nat, day: nat)
    requires year >= 1 && ValidDate(year, month, day)
    ensures 1 <= IsoWeek(year, month, day) <= 53
  {
    var th, a1 := Thursday(year, month, day), AbsDay(year, 1, 1);
    if th < a1 {
      CorrectBefore(year, month, day);
      NewYearPrev(year);
    } else if th < a1 + YearLength(year) {
      IsoWeekWithin(year, month, day);
    } else {
      IsoWeekAfter(year, month, day);
    }
  }

  /** For a year that starts on Monday to Thursday (outside the century
      years divisible by 400, where the weekday of 1 January is off), and
      for one that starts on Sunday from 2 January on, the code as written
      runs to the end and gives the ISO week. */
  lemma AsWrittenAgrees(year: nat, month: nat, day: nat)
    requires year >= 1 && ValidDate(year, month, day) && year % 400 != 0
    requires var w := Weekday(year, 1, 1);
      w <= 4 || (w == 7 && DaysBefore(year, month) + day >= 2)
    ensures WeekCountDefined(year, month, day)
    ensures WeekCountAsWritten(year, month, day) == IsoWeek(year, month, day)
  {
    DayOfWeek.AsWrittenAgrees(year, 1, 1);
    DayOfWeek.AsWrittenAgrees(year, 12, 31);
    ValidDayOfYear(year, month, day);
  }

  /** In a year that starts on a Friday, 5 January is in ISO week 1 but
      the code counts week 2. */
  lemma FridayStartFifthJanuary(year: nat)
    requires year >= 1 && year % 400 != 0 && Weekday(year, 1, 1) == 5
    ensures WeekCountDefined(year, 1, 5) && WeekCountAsWritten(year, 1, 5) == 2
    ensures IsoWeek(year, 1, 5) == 1
  {
    DayOfWeek.AsWrittenAgrees(year, 1, 1);
  }

  /** In a year that starts on a Friday, 1 February (a Monday, in ISO week
      5) passes the code's day-of-month test and gets the week of the
      previous 31 December. */
  lemma FridayStartFirstFebruary(year: nat)
    requires year >= 2 && year % 400 != 0 && Weekday(year, 1, 1) == 5
    ensures WeekCountDefined(year, 2, 1) && WeekCountDefined(year - 1, 12, 31)
    ensures WeekCountAsWritten(year, 2, 1) == WeekCountAsWritten(year - 1, 12, 31)
    ensures IsoWeek(year, 2, 1) == 5
  {
    DayOfWeek.AsWrittenAgrees(year, 1, 1);
    DaysBeforeTable(year - 1, 13);
    assert DaysBefore(year, 2) == 31;
  }

  /** A leap year that starts on a Wednesday ends in week 53. */
  lemma WednesdayLeapYearEnd(year: nat)
    requires year >= 1 && year % 400 != 0 && IsLeapYear(year) && Weekday(year, 1, 1) == 3
    ensures WeekCountDefined(year, 12, 31) && WeekCountAsWritten(year, 12, 31) == 53
  {
    YearEnd(year, 12, 31);
    AsWrittenAgrees(year, 12, 31);
  }

  /** In a year that starts on a Sunday, the code subtracts below zero on
      1 January, which belongs to the last week of the previous year. */
  lemma SundayStartFirstJanuary(year: nat)
    requires year >= 1 && year % 400 != 0 && Weekday(year, 1, 1) == 7
    ensures !WeekCountDefined(year, 1, 1)
    ensures IsoWeek(year, 1, 1) == IsoWeek(year - 1, 12, 31)
  {
    DayOfWeek.AsWrittenAgrees(year, 1, 1);
    YearOneStartsMonday();
  }

  /** A common year that starts on a Saturday ends in week 52. */
  lemma SaturdayCommonYearEnd(year: nat)
    requires year >= 1 && !IsLeapYear(year) && Weekday(year, 1, 1) == 6
    ensures IsoWeek(year, 12, 31) == 52
  {
    YearEnd(year, 12, 31);
  }

  /** 2021 starts on a Friday, so 5 January 2021 (ISO week 1) is counted
      as week 2. */
  lemma CounterexampleFifthJanuary()
    ensures WeekCountAsWritten(2021, 1, 5) == 2 && IsoWeek(2021, 1, 5) == 1
  {
    assert Weekday(2021, 1, 1) == 5;
    FridayStartFifthJanuary(2021);
  }

  /** 1 February 2021 (ISO week 5) falls back to the end of 2020, a leap
      year that started on a Wednesday, and is counted as week 53. */
  lemma CounterexampleFirstFebruary()
    ensures WeekCountAsWritten(2021, 2, 1) == 53 && IsoWeek(2021, 2, 1) == 5
  {
    assert Weekday(2021, 1, 1) == 5 && Weekday(2020, 1, 1) == 3;
    FridayStartFirstFebruary(2021);
    WednesdayLeapYearEnd(2020);
  }

  /** 2023 starts on a Sunday after a common year that started on a
      Saturday: the code fails on 1 January 2023, ISO week 52. */
  lemma CounterexampleSundayStart()
    ensures !WeekCountDefined(2023, 1, 1) && IsoWeek(2023, 1, 1) == 52
  {
    assert Weekday(2023, 1, 1) == 7 && Weekday(2022, 1, 1) == 6;
    SundayStartFirstJanuary(2023);
    SaturdayCommonYearEnd(2022);
  }
}
