/** The Spring Festival part of exercises/hard/solutiont4/src/calc_time.rs:
    the days to the next lunar new year (`date_to_newyear`) and the holiday
    test (`is_holiday`). The lunar new year of each year comes from a table
    that `time_info` fills in; a year missing from it makes the source
    panic, which is `None` here. */
module Holidays {
  import opened Wrappers
  import opened Calendar
  import opened DayOfWeek
  import Arith

  /** The table from a year to the month and day of its lunar new year. */
  type NewYearTable = map<nat, (nat, nat)>

  /** Every entry of the table is a date of its year. */
  predicate ValidTable(table: NewYearTable)
  {
    forall y :: y in table ==> ValidDate(y, table[y].0, table[y].1)
  }

  /** The table `time_info` builds: 29 January 2025 and 17 February 2026. */
  const SpringFestival: NewYearTable := map[2025 := (1, 29), 2026 := (2, 17)]

  lemma SpringFestivalValid()
    ensures ValidTable(SpringFestival)
  {
  }

  /** Whether a date comes after the lunar new year (nm, nd) of its year. */
  predicate Passed(month: nat, day: nat, nm: nat, nd: nat)
  {
    month > nm || (month == nm && day > nd)
  }

  /** `date_to_newyear`: the days from a date to this year's lunar new year
      when it has not passed yet (0 on the day itself), else to next
      year's; `None` when the table lacks the year needed. */
  function DateToNewYear(year: nat, month: nat, day: nat, table: NewYearTable): (r: Option<nat>)
    requires ValidTable(table) && InYear(year, month, day)
    ensures r.None? <==>
      year !in table || (Passed(month, day, table[year].0, table[year].1) && year + 1 !in table)
  {
    if year !in table then None
    else
      var nm, nd := table[year].0, table[year].1;
      if Passed(month, day, nm, nd) then
        if year + 1 !in table then None
        else
          var next := table[year + 1];
          ValidDayOfYear(year + 1, next.0, next.1);
          Some(DiffOfDate(year + 1, next.0, next.1, year, month, day))
      else
        ValidDayOfYear(year, nm, nd);
        Some(DiffOfDate(year, nm, nd, year, month, day))
  }

  /** The days to the next lunar new year are the difference of the day
      counts: to this year's when the date is on or before it, else to next
      year's; a year missing from the table gives `None`. */
  lemma NewYearDistance(year: nat, month: nat, day: nat, table: NewYearTable)
    requires ValidTable(table) && ValidDate(year, month, day)
    ensures InYear(year, month, day)
    ensures year !in table ==> DateToNewYear(year, month, day, table) == None
    ensures year in table ==>
      var a := AbsDay(year, month, day);
      var ny := AbsDay(year, table[year].0, table[year].1);
      && (a <= ny ==> DateToNewYear(year, month, day, table) == Some(ny - a))
      && (a > ny ==>
            DateToNewYear(year, month, day, table) ==
            (if year + 1 in table then Some(AbsDay(year + 1, table[year + 1].0, table[year + 1].1) - a) else None))
  {
    ValidDayOfYear(year, month, day);
    if year in table {
      var nm, nd := table[year].0, table[year].1;
      ValidDayOfYear(year, nm, nd);
      AbsDayOrder(year, month, day, nm, nd);
      AbsDayOrder(year, nm, nd, month, day);
      if Passed(month, day, nm, nd) {
        if year + 1 in table {
          var next := table[year + 1];
          ValidDayOfYear(year + 1, next.0, next.1);
          DiffOfDateAbs(year + 1, next.0, next.1, year, month, day);
          NewYearAfter(year, month, day, next.0, next.1);
        }
      } else {
        DiffOfDateAbs(year, nm, nd, year, month, day);
      }
    }
  }

  /** Every date of the next year comes after every date of this one. */
  lemma NewYearAfter(year: nat, month: nat, day: nat, month1: nat, day1: nat)
    requires ValidDate(year, month, day) && ValidDate(year + 1, month1, day1)
    ensures AbsDay(year, month, day) < AbsDay(year + 1, month1, day1)
  {
    ValidDayOfYear(year, month, day);
    MonthsFillYear(year);
  }

  /** `(month, day)`, the key of the holiday set. */
  function MonthDay(d: Date): (nat, nat)
  {
    (d.month, d.day)
  }

  /** The eve the source adds: the day before the lunar new year in the
      same month, else the last day of the previous month, else 31
      December. */
  function Eve(year: nat, nm: nat, nd: nat): (nat, nat)
    requires 1 <= nm <= 12
  {
    if nd > 1 then (nm, nd - 1)
    else if nm > 1 then (nm - 1, MonthLength(year, nm - 1))
    else (12, 31)
  }

  /** The eve is the day before the lunar new year: within the year the
      next day of the eve is the new year, and for 1 January it is
      31 December of the year before. */
  lemma EveIsDayBefore(year: nat, nm: nat, nd: nat)
    requires ValidDate(year, nm, nd)
    ensures var e := Eve(year, nm, nd);
      (nm, nd) != (1, 1) ==> ValidDate(year, e.0, e.1) && NextDay(year, e.0, e.1) == Date(year, nm, nd)
    ensures (nm, nd) == (1, 1) ==> Eve(year, nm, nd) == (12, 31) && NextDay(year, 12, 31) == Date(year + 1, 1, 1)
  {
  }

  /** The month-day pairs of the first n dates from `start`. */
  function Visited(start: Date, n: nat): set<(nat, nat)>
    requires start.month <= 12
  {
    if n == 0 then {} else Visited(start, n - 1) + {MonthDay(After(start, n - 1))}
  }

  /** A pair is visited exactly when one of the first n dates has it. */
  lemma {:induction false} VisitedContents(start: Date, n: nat, p: (nat, nat))
    requires start.month <= 12
    ensures p in Visited(start, n) <==> exists k :: 0 <= k < n && MonthDay(After(start, k)) == p
  {
    if n > 0 {
      VisitedContents(start, n - 1, p);
      if MonthDay(After(start, n - 1)) == p {
        assert exists k :: 0 <= k < n && MonthDay(After(start, k)) == p;
      }
    }
  }

  /** 1 May to n May. */
  function MayDays(n: nat): set<(nat, nat)>
  {
    if n == 0 then {} else MayDays(n - 1) + {(5, n)}
  }

  lemma {:induction false} MayDaysContents(n: nat, p: (nat, nat))
    ensures p in MayDays(n) <==> p.0 == 5 && 1 <= p.1 <= n
  {
    if n > 0 {
      MayDaysContents(n - 1, p);
    }
  }

  /** The holiday set of a year with lunar new year (nm, nd): New Year's
      Day, the eve, the seven days from the lunar new year and 1 to 5 May. */
  function HolidaySet(year: nat, nm: nat, nd: nat): set<(nat, nat)>
    requires 1 <= nm <= 12
  {
    {(1, 1), Eve(year, nm, nd)} + Visited(Date(year, nm, nd), 7) + MayDays(5)
  }

  /** `is_holiday` as a value: `None` when the table lacks the year;
      otherwise a date of the holiday set, or a day that `date_to_week_day`
      as written numbers 6 or 7. */
  function Holiday(year: nat, month: nat, day: nat, table: NewYearTable): (r: Option<bool>)
    requires ValidTable(table)
    ensures r.None? <==> year !in table
    ensures year in table && ((month, day) == (1, 1) || (month == 5 && 1 <= day <= 5)) ==> r == Some(true)
  {
    MayDaysContents(5, (month, day));
    if year !in table then None
    else Some((month, day) in HolidaySet(year, table[year].0, table[year].1) || WeekdayAsWritten(year, month, day) >= 6)
  }

  /** What makes a day a holiday, spelled out: New Year's Day, 1 to 5 May,
      the eve, one of the seven days from the lunar new year, or a weekend
      day. */
  lemma HolidayMeaning(year: nat, month: nat, day: nat, table: NewYearTable)
    requires ValidTable(table) && year in table
    ensures var nm, nd := table[year].0, table[year].1;
      Holiday(year, month, day, table) == Some(
        || (month, day) == (1, 1)
        || (month == 5 && 1 <= day <= 5)
        || (month, day) == Eve(year, nm, nd)
        || (exists k :: 0 <= k < 7 && MonthDay(After(Date(year, nm, nd), k)) == (month, day))
        || WeekdayAsWritten(year, month, day) >= 6)
  {
    var nm, nd := table[year].0, table[year].1;
    VisitedContents(Date(year, nm, nd), 7, (month, day));
    MayDaysContents(5, (month, day));
  }

  /** The weekend test as written picks the real Saturdays and Sundays,
      except in January and February of years divisible by 400, where the
      weekday as written is one day late: there it takes Fridays and
      Saturdays. */
  lemma WeekendAsWritten(year: nat, month: nat, day: nat)
    ensures !((month == 1 || month == 2) && year % 400 == 0) ==>
      (WeekdayAsWritten(year, month, day) >= 6 <==> Weekday(year, month, day) >= 6)
    ensures (month == 1 || month == 2) && year % 400 == 0 ==>
      (WeekdayAsWritten(year, month, day) >= 6 <==> Weekday(year, month, day) == 5 || Weekday(year, month, day) == 6)
  {
    AsWrittenAgrees(year, month, day);
    if (month == 1 || month == 2) && year % 400 == 0 {
      OneDayLate(Weekday(year, month, day), WeekdayAsWritten(year, month, day));
    }
  }

  /** A weekday one day late is 6 or 7 exactly when the real one is 5 or 6. */
  lemma OneDayLate(w: int, late: int)
    requires 1 <= w <= 7 && late == w % 7 + 1
    ensures late >= 6 <==> w == 5 || w == 6
  {
  }

  /** So for every year not divisible by 400 a date is a holiday exactly
      when it is in the holiday set or falls on a real Saturday or Sunday. */
  lemma HolidayOnRealWeekend(year: nat, month: nat, day: nat, table: NewYearTable)
    requires ValidTable(table) && year in table && year % 400 != 0
    ensures Holiday(year, month, day, table) ==
      Some((month, day) in HolidaySet(year, table[year].0, table[year].1) || Weekday(year, month, day) >= 6)
  {
    WeekendAsWritten(year, month, day);
  }

  /** 9 January 2000, a Sunday, is a working day to the code as written. */
  lemma WeekendCounterexample()
    ensures Holiday(2000, 1, 9, map[2000 := (2, 5)]) == Some(false)
    ensures Weekday(2000, 1, 9) == 7
  {
    NotInHolidaySet();
    NinthJanuary2000();
  }

  /** 9 January is none of the listed days of 2000, whose lunar new year
      fell on 5 February. */
  lemma NotInHolidaySet()
    ensures (1, 9) !in HolidaySet(2000, 2, 5)
  {
    assert (1, 9) !in Visited(Date(2000, 2, 5), 7) by {
      VisitedContents(Date(2000, 2, 5), 7, (1, 9));
      forall k | 0 <= k < 7 ensures MonthDay(After(Date(2000, 2, 5), k)) != (1, 9) {
        AfterFebruary(k);
      }
    }
    MayDaysContents(5, (1, 9));
  }

  /** 9 January 2000 was a Sunday; the code as written calls it a Monday. */
  lemma NinthJanuary2000()
    ensures Weekday(2000, 1, 9) == 7 && WeekdayAsWritten(2000, 1, 9) == 1
  {
    assert ZellerSum(2000, 1, 9) == 133;
    assert Arith.Quot(-1, 4) == 0;
    assert ZellerSumAsWritten(2000, 1, 9) == 8;
    FixUpIsMod(8);
  }

  /** Up to seven days from 5 February 2000 stay in February. */
  lemma AfterFebruary(k: nat)
    requires k < 7
    ensures After(Date(2000, 2, 5), k) == Date(2000, 2, 5 + k)
  {
    if k > 0 {
      AfterFebruary(k - 1);
    }
  }

  /** `is_holiday`: collect the holiday set of the year in a `HashSet`
      (New Year's Day, the eve, the seven days from the lunar new year by
      repeated `next_day`, then 1 to 5 May) and test the date against it,
      falling back to the weekday. */
  method IsHoliday(year: nat, month: nat, day: nat, table: NewYearTable) returns (r: Option<bool>)
    requires ValidTable(table)
    ensures r == Holiday(year, month, day, table)
  {
    var monthDays := GetMonthDays(year);
    var holidays: set<(nat, nat)> := {(1, 1)};
    if year !in table {
      return None;
    }
    var nm, nd := table[year].0, table[year].1;
    if nd > 1 {
      holidays := holidays + {(nm, nd - 1)};
    } else if nm > 1 {
      holidays := holidays + {(nm - 1, monthDays[nm - 1])};
    } else {
      holidays := holidays + {(12, 31)};
    }
    var start := Date(year, nm, nd);
    var current := start;
    for i := 0 to 7
      invariant current == After(start, i)
      invariant holidays == {(1, 1), Eve(year, nm, nd)} + Visited(start, i)
    {
      holidays := holidays + {(current.month, current.day)};
      current := NextDay(current.year, current.month, current.day);
    }
    for d := 1 to 6
      invariant holidays == {(1, 1), Eve(year, nm, nd)} + Visited(start, 7) + MayDays(d - 1)
    {
      holidays := holidays + {(5, d)};
    }
    if (month, day) in holidays {
      return Some(true);
    }
    var weekDay := WeekdayAsWritten(year, month, day);
    return Some(weekDay >= 6);
  }
}
