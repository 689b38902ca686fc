/** The Gregorian calendar of exercises/hard/solutiont4/src/calc_time.rs:
    leap years, month lengths, the position of a date in its year, the
    next date and the day difference between two dates. Dates are counted
    from 1 January of year 0 (proleptic Gregorian) by `AbsDay`, the
    reference every operation here is proved against. */
module Calendar {

  /** `is_leapyear`: divisible by 4 and not by 100, or divisible by 400. */
  predicate IsLeapYear(year: int)
  {
    (year % 4 == 0 && year % 100 != 0) || year % 400 == 0
  }

  /** The table `get_month_days` starts from; index 0 is unused. */
  const BaseMonthDays: seq<nat> := [0, 31, 28, 31, 30, 31, 30, 31, 31, 30, 31, 30, 31]

  /** The length of a month (entry `month` of `get_month_days(year)`). */
  function MonthLength(year: int, month: nat): (n: nat)
    requires month <= 12
    ensures 1 <= month ==> 28 <= n <= 31
  {
    if month == 2 && IsLeapYear(year) then 29 else BaseMonthDays[month]
  }

  /** `get_month_days`: the base table with February set to 29 in a leap
      year. It differs from the base table in February only, and there
      exactly when the year is a leap year. */
  method GetMonthDays(year: int) returns (monthDays: seq<nat>)
    ensures |monthDays| == 13
    ensures forall m :: 0 <= m <= 12 && m != 2 ==> monthDays[m] == BaseMonthDays[m]
    ensures monthDays[2] == 29 <==> IsLeapYear(year)
    ensures monthDays[2] == 28 <==> !IsLeapYear(year)
    ensures forall m :: 0 <= m <= 12 ==> monthDays[m] == MonthLength(year, m)
  {
    var table := new nat[13](i requires 0 <= i < 13 => BaseMonthDays[i]);
    if IsLeapYear(year) {
      table[2] := 29;
    }
    monthDays := table[..];
  }

  /** 365, or 366 in a leap year. */
  function YearLength(year: int): nat
  {
    if IsLeapYear(year) then 366 else 365
  }

  /** A real date: a month 1 to 12 and a day within it. */
  predicate ValidDate(year: int, month: nat, day: nat)
  {
    1 <= month <= 12 && 1 <= day <= MonthLength(year, month)
  }

  /** The days of the months before `month`: `(1..month).map(...).sum()`. */
  function DaysBefore(year: int, month: nat): nat
    requires month <= 13
  {
    if month <= 1 then 0 else DaysBefore(year, month - 1) + MonthLength(year, month - 1)
  }

  /** The days before each month of a common year; a leap year adds one
      from March on. */
  const CommonDaysBefore: seq<nat> := [0, 0, 31, 59, 90, 120, 151, 181, 212, 243, 273, 304, 334, 365]

  lemma {:induction false} DaysBeforeTable(year: int, month: nat)
    requires month <= 13
    ensures DaysBefore(year, month) == CommonDaysBefore[month] + if month >= 3 && IsLeapYear(year) then 1 else 0
  {
    if month > 1 {
      DaysBeforeTable(year, month - 1);
    }
  }

  /** The twelve months fill the year. */
  lemma MonthsFillYear(year: int)
    ensures DaysBefore(year, 13) == YearLength(year)
  {
    DaysBeforeTable(year, 13);
  }

  /** Days before `month` grow with the month. */
  lemma {:induction false} DaysBeforeMonotone(year: int, a: nat, b: nat)
    requires a <= b <= 13
    ensures DaysBefore(year, a) <= DaysBefore(year, b)
    decreases b
  {
    if a < b {
      DaysBeforeMonotone(year, a, b - 1);
    }
  }

  /** The day of the year does not pass the year's length. */
  predicate InYear(year: int, month: nat, day: nat)
  {
    month <= 13 && DaysBefore(year, month) + day <= YearLength(year)
  }

  /** `count_days`: the day of the year and the days left after it. The
      source subtracts in `u32`, so the day of the year must not pass the
      year's length. The two parts always make up the year. */
  function CountDays(year: int, month: nat, day: nat): (r: (nat, nat))
    requires InYear(year, month, day)
    ensures r.0 == DaysBefore(year, month) + day
    ensures r.0 + r.1 == YearLength(year) && r.1 == if IsLeapYear(year) then 366 - r.0 else 365 - r.0
  {
    var passed := DaysBefore(year, month) + day;
    (passed, YearLength(year) - passed)
  }

  /** A valid date lies within its year, so `count_days` never underflows on
      one, and its day of the year is 1 to the year's length. */
  lemma ValidDayOfYear(year: int, month: nat, day: nat)
    requires ValidDate(year, month, day)
    ensures InYear(year, month, day) && 1 <= DaysBefore(year, month) + day
  {
    DaysBeforeMonotone(year, month + 1, 13);
    MonthsFillYear(year);
    assert DaysBefore(year, month + 1) == DaysBefore(year, month) + MonthLength(year, month);
  }

  /** The days of the years before `year`, from year 0. */
  function DaysBeforeYear(year: nat): nat
  {
    if year == 0 then 0 else DaysBeforeYear(year - 1) + YearLength(year - 1)
  }

  /** The number of a date counting 1 January of year 0 as day 1. */
  function AbsDay(year: nat, month: nat, day: nat): nat
    requires month <= 13
  {
    DaysBeforeYear(year) + DaysBefore(year, month) + day
  }

  /** The days of the years before `year` in closed form: 365 a year plus
      one per leap year, that is per multiple of 4, less one per multiple
      of 100, plus one per multiple of 400. With Y = year - 1 and floor
      division this is 365 Y + Y/4 - Y/100 + Y/400 + 366. */
  function LeapCount(y: int): int
  {
    365 * y + y / 4 - y / 100 + y / 400
  }

  /** Floor division by 4, 100 and 400 steps up by one exactly at the
      multiples, which is where the year is one day longer or shorter. */
  lemma LeapCountStep(y: int)
    ensures LeapCount(y) - LeapCount(y - 1) == YearLength(y)
  {
    var a, b, c := y / 4 - (y - 1) / 4, y / 100 - (y - 1) / 100, y / 400 - (y - 1) / 400;
    DivStep4(y);
    DivStep100(y);
    DivStep400(y);
    assert LeapCount(y) - LeapCount(y - 1) == 365 + a - b + c;
  }

  lemma DivStep4(y: int)
    ensures y / 4 - (y - 1) / 4 == if y % 4 == 0 then 1 else 0
  {
    var q := (y - 1) / 4;
    assert y - 1 == 4 * q + (y - 1) % 4;
  }

  lemma DivStep100(y: int)
    ensures y / 100 - (y - 1) / 100 == if y % 100 == 0 then 1 else 0
  {
    var q := (y - 1) / 100;
    assert y - 1 == 100 * q + (y - 1) % 100;
  }

  lemma DivStep400(y: int)
    ensures y / 400 - (y - 1) / 400 == if y % 400 == 0 then 1 else 0
  {
    var q := (y - 1) / 400;
    assert y - 1 == 400 * q + (y - 1) % 400;
  }

  lemma {:induction false} DaysBeforeYearClosed(year: nat)
    ensures DaysBeforeYear(year) == LeapCount(year - 1) + 366
  {
    if year == 0 {
      assert LeapCount(-1) == -366;
    } else {
      DaysBeforeYearClosed(year - 1);
      LeapCountStep(year - 1);
    }
  }

  /** The leap rule repeats every 400 years. */
  lemma LeapPeriod(year: int)
    ensures IsLeapYear(year + 400) == IsLeapYear(year)
  {
    assert (year + 400) % 4 == year % 4;
    assert (year + 400) % 100 == year % 100;
    assert (year + 400) % 400 == year % 400;
  }

  /** 400 years hold 146097 days. */
  lemma LeapCountPeriod(y: int)
    ensures LeapCount(y + 400) == LeapCount(y) + 146097
  {
    assert (y + 400) / 4 == y / 4 + 100;
    assert (y + 400) / 100 == y / 100 + 4;
    assert (y + 400) / 400 == y / 400 + 1;
  }

  /** The calendar repeats every 400 years, which hold 146097 days, a whole
      number of weeks. */
  lemma FourCenturies(year: nat)
    ensures IsLeapYear(year + 400) == IsLeapYear(year)
    ensures DaysBeforeYear(year + 400) == DaysBeforeYear(year) + 146097 && 146097 == 7 * 20871
  {
    LeapPeriod(year);
    var y: int := year - 1;
    var later: nat := year + 400;
    DaysBeforeYearClosed(year);
    DaysBeforeYearClosed(later);
    LeapCountPeriod(y);
    assert later - 1 == y + 400;
  }

  /** A date as `next_day` returns it. */
  datatype Date = Date(year: nat, month: nat, day: nat)

  /** `next_day`: the next day of the month, else the first of the next
      month, else 1 January of the next year. The month indexes the table,
      so it is at most 12. */
  function NextDay(year: nat, month: nat, day: nat): (d: Date)
    requires month <= 12
    ensures d.month <= 12
  {
    if day < MonthLength(year, month) then Date(year, month, day + 1)
    else if month < 12 then Date(year, month + 1, 1)
    else Date(year + 1, 1, 1)
  }

  /** The next day of a valid date is a valid date, and it is the next day
      in the absolute count. */
  lemma NextDayAbs(year: nat, month: nat, day: nat)
    requires ValidDate(year, month, day)
    ensures var n := NextDay(year, month, day);
      ValidDate(n.year, n.month, n.day) && AbsDay(n.year, n.month, n.day) == AbsDay(year, month, day) + 1
  {
    if day >= MonthLength(year, month) && month == 12 {
      MonthsFillYear(year);
    }
  }

  /** The date k days after a date, by repeated `next_day`. */
  function After(d: Date, k: nat): (r: Date)
    requires d.month <= 12
    ensures r.month <= 12
  {
    if k == 0 then d else var n := After(d, k - 1); NextDay(n.year, n.month, n.day)
  }

  /** k steps of `next_day` from a valid date advance the count by k. */
  lemma {:induction false} AfterAbs(d: Date, k: nat)
    requires ValidDate(d.year, d.month, d.day)
    ensures var r := After(d, k);
      ValidDate(r.year, r.month, r.day) && AbsDay(r.year, r.month, r.day) == AbsDay(d.year, d.month, d.day) + k
  {
    if k > 0 {
      AfterAbs(d, k - 1);
      var n := After(d, k - 1);
      NextDayAbs(n.year, n.month, n.day);
    }
  }

  /** `compute_diff_of_date`: within one year the saturating difference of
      the days of the year; across years the day of the year of the first
      date plus the days left in the year of the second. */
  function DiffOfDate(year0: nat, month0: nat, day0: nat, year1: nat, month1: nat, day1: nat): (n: nat)
    requires InYear(year0, month0, day0) && InYear(year1, month1, day1)
    ensures year0 == year1 ==> n < YearLength(year0) + 1
    ensures year0 == year1 ==>
      (n == 0 <==> DaysBefore(year0, month0) + day0 <= DaysBefore(year1, month1) + day1)
    ensures year0 != year1 ==>
      n == DaysBefore(year0, month0) + day0 + YearLength(year1) - (DaysBefore(year1, month1) + day1)
  {
    if year0 == year1 then
      var d0 := CountDays(year0, month0, day0).0;
      var d1 := CountDays(year1, month1, day1).0;
      if d0 >= d1 then d0 - d1 else 0
    else
      CountDays(year0, month0, day0).0 + CountDays(year1, month1, day1).1
  }

  /** For two dates of one year, or the first in the year after the
      second, the difference is the number of days from the second to the
      first (0 when the first comes earlier in the same year). */
  lemma DiffOfDateAbs(year0: nat, month0: nat, day0: nat, year1: nat, month1: nat, day1: nat)
    requires ValidDate(year0, month0, day0) && ValidDate(year1, month1, day1)
    requires InYear(year0, month0, day0) && InYear(year1, month1, day1)
    requires year0 == year1 || year0 == year1 + 1
    ensures var a0, a1 := AbsDay(year0, month0, day0), AbsDay(year1, month1, day1);
      DiffOfDate(year0, month0, day0, year1, month1, day1) == if a0 >= a1 then a0 - a1 else 0
  {
    ValidDayOfYear(year0, month0, day0);
    ValidDayOfYear(year1, month1, day1);
  }

  /** Earlier years start earlier. */
  lemma {:induction false} DaysBeforeYearMonotone(a: nat, b: nat)
    requires a <= b
    ensures DaysBeforeYear(a) + 365 * (b - a) <= DaysBeforeYear(b)
    decreases b
  {
    if a < b {
      DaysBeforeYearMonotone(a, b - 1);
    }
  }

  /** Two valid dates less than 366 days apart, the second not before the
      first, lie in the same year or in consecutive years. */
  lemma YearsApart(year0: nat, month0: nat, day0: nat, year1: nat, month1: nat, day1: nat)
    requires ValidDate(year0, month0, day0) && ValidDate(year1, month1, day1)
    requires AbsDay(year0, month0, day0) <= AbsDay(year1, month1, day1) < AbsDay(year0, month0, day0) + 366
    ensures year0 <= year1 <= year0 + 1
  {
    ValidDayOfYear(year0, month0, day0);
    ValidDayOfYear(year1, month1, day1);
    if year1 < year0 {
      DaysBeforeYearMonotone(year1 + 1, year0);
    } else if year1 >= year0 + 2 {
      DaysBeforeYearMonotone(year0 + 2, year1);
    }
  }

  /** A later date of the same year has a larger count. */
  lemma AbsDayOrder(year: nat, month0: nat, day0: nat, month1: nat, day1: nat)
    requires ValidDate(year, month0, day0) && ValidDate(year, month1, day1)
    ensures (month0, day0) == (month1, day1) <==> AbsDay(year, month0, day0) == AbsDay(year, month1, day1)
    ensures month0 < month1 || (month0 == month1 && day0 < day1) ==> AbsDay(year, month0, day0) < AbsDay(year, month1, day1)
  {
    if month0 < month1 {
      DaysBeforeMonotone(year, month0 + 1, month1);
    } else if month1 < month0 {
      DaysBeforeMonotone(year, month1 + 1, month0);
    }
  }
}
