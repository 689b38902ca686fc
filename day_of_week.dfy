/** `date_to_week_day` (exercises/hard/solutiont4/src/calc_time.rs): the day
    of the week by Zeller's congruence, 1 for Monday to 7 for Sunday. The
    source moves January and February to the end of the previous year but
    keeps the century of the current one; `WeekdayAsWritten` is the code as
    it stands, `Weekday` the congruence with the previous year's century,
    and both are compared with the day count of `Calendar.AbsDay`. */
module DayOfWeek {
  import Arith
  import opened Calendar

  /** The shift Rust applies at the end: `h % 7`, then 7 added to a
      remainder that is not positive. */
  function FixUp(s: int): (h: int)
  {
    var h := Arith.Rem(s, 7);
    if h <= 0 then h + 7 else h
  }

  /** The fix-up is the floor remainder with 0 read as 7. */
  lemma FixUpIsMod(s: int)
    ensures FixUp(s) == if s % 7 == 0 then 7 else s % 7
  {
    var q := Arith.Quot(s, 7);
    if s < 0 {
      assert s == 7 * q + Arith.Rem(s, 7);
      if Arith.Rem(s, 7) < 0 {
        assert s == 7 * (q - 1) + (Arith.Rem(s, 7) + 7);
      }
    }
  }

  /** The sum of `date_to_week_day` as written: c = year / 100 and
      y = year % 100, and for January and February m = month + 12 and
      y - 1 (which is -1 in a year divisible by 100; `y / 4` then truncates
      to 0). */
  function ZellerSumAsWritten(year: nat, month: nat, day: nat): int
  {
    var c := year / 100;
    var early := month == 1 || month == 2;
    var m := if early then month + 12 else month;
    var y := if early then year % 100 - 1 else year % 100;
    y + Arith.Quot(y, 4) + c / 4 - 2 * c + 13 * (m + 1) / 5 + day - 1
  }

  /** `date_to_week_day` as written. */
  function WeekdayAsWritten(year: nat, month: nat, day: nat): (w: int)
    ensures 1 <= w <= 7
  {
    FixUpIsMod(ZellerSumAsWritten(year, month, day));
    FixUp(ZellerSumAsWritten(year, month, day))
  }

  /** The congruence with January and February counted in the previous
      year, century included: Y is that year, K = Y mod 100, J = Y div 100
      (floor division, so that year 0 gives Y = -1, J = -1, K = 99). */
  function ZellerSum(year: nat, month: nat, day: nat): int
  {
    var early := month == 1 || month == 2;
    var yy: int := if early then year - 1 else year;
    var m := if early then month + 12 else month;
    var j, k := yy / 100, yy % 100;
    k + k / 4 + j / 4 - 2 * j + 13 * (m + 1) / 5 + day - 1
  }

  /** The day of the week, 1 (Monday) to 7 (Sunday), as the source means
      it. */
  function Weekday(year: nat, month: nat, day: nat): (w: nat)
    ensures 1 <= w <= 7
  {
    var h := ZellerSum(year, month, day) % 7;
    if h == 0 then 7 else h
  }

  /** The day of the week from the day count: 1 January of year 0 was a
      Saturday. */
  function RefWeekday(year: nat, month: nat, day: nat): (w: nat)
    requires month <= 13
    ensures 1 <= w <= 7
  {
    (AbsDay(year, month, day) + 4) % 7 + 1
  }

  /** Days from 1 March to the first of month M, counting January and
      February as months 13 and 14 of the year before. */
  const FromMarch: seq<int> := [0, 0, 0, 0, 31, 61, 92, 122, 153, 184, 214, 245, 275, 306, 337]

  /** 13(M + 1)/5 runs 3 ahead of FromMarch modulo 7 for every month
      3 .. 14. */
  lemma MonthTerm(m: nat)
    requires 3 <= m <= 14
    ensures (13 * (m + 1) / 5 - FromMarch[m] - 3) % 7 == 0
  {
  }

  /** A date's count, from the 1 March that begins its Zeller year. */
  lemma AbsFromMarch(year: nat, month: nat, day: nat)
    requires 1 <= month <= 12
    ensures var early := month == 1 || month == 2;
      var yy: int := if early then year - 1 else year;
      var m := if early then month + 12 else month;
      AbsDay(year, month, day) == LeapCount(yy) + 60 + FromMarch[m] + day
  {
    DaysBeforeYearClosed(year);
    DaysBeforeTable(year, month);
    LeapCountStep(year);
  }

  /** Splitting Y into centuries J and years K: Y/4, Y/100 and Y/400 in
      terms of J and K. */
  lemma CenturySplit(yy: int)
    ensures var j, k := yy / 100, yy % 100;
      LeapCount(yy) == 36524 * j + 365 * k + k / 4 + j / 4
  {
    var j, k := yy / 100, yy % 100;
    assert yy == 100 * j + k;
    assert yy / 4 == 25 * j + k / 4;
    var a, b := j / 4, j % 4;
    assert j == 4 * a + b;
    assert yy == 400 * a + (100 * b + k);
    assert yy / 400 == a;
  }

  /** The linear core of the comparison: with the quotients named, the
      two sums differ by a multiple of 7. */
  lemma Combine(s: int, a: int, lc: int, j: int, k: int, k4: int, j4: int, tm: int, fm: int, day: int, t: int)
    requires s == k + k4 + j4 - 2 * j + tm + day - 1
    requires a == lc + 60 + fm + day
    requires lc == 36524 * j + 365 * k + k4 + j4
    requires tm - fm - 3 == 7 * t
    ensures s == a + 5 + 7 * (t - 9 - 52 * k - 5218 * j)
  {
  }

  /** Adding whole weeks keeps the remainder modulo 7. */
  lemma ModSeven(x: int, q: int)
    ensures (x + 7 * q) % 7 == x % 7
  {
  }

  /** Zeller's sum is the day count plus 5, modulo 7. */
  lemma ZellerCount(year: nat, month: nat, day: nat)
    requires 1 <= month <= 12
    ensures ZellerSum(year, month, day) % 7 == (AbsDay(year, month, day) + 5) % 7
  {
    var early := month == 1 || month == 2;
    var yy: int := if early then year - 1 else year;
    var m := if early then month + 12 else month;
    AbsFromMarch(year, month, day);
    CenturySplit(yy);
    MonthTerm(m);
    var j, k := yy / 100, yy % 100;
    var tm := 13 * (m + 1) / 5;
    var t := (tm - FromMarch[m] - 3) / 7;
    Combine(ZellerSum(year, month, day), AbsDay(year, month, day), LeapCount(yy), j, k, k / 4, j / 4, tm, FromMarch[m], day, t);
    ModSeven(AbsDay(year, month, day) + 5, t - 9 - 52 * k - 5218 * j);
  }

  /** A sum congruent to the count plus 5 names the count's weekday. */
  lemma ModWeek(s: int, a: int)
    requires s % 7 == (a + 5) % 7
    ensures (if s % 7 == 0 then 7 else s % 7) == (a + 4) % 7 + 1
  {
  }

  /** The congruence gives the day of the week of every date. */
  lemma WeekdayCorrect(year: nat, month: nat, day: nat)
    requires 1 <= month <= 12
    ensures Weekday(year, month, day) == RefWeekday(year, month, day)
  {
    ZellerCount(year, month, day);
    ModWeek(ZellerSum(year, month, day), AbsDay(year, month, day));
  }

  /** The century step the code misses: stepping back from a century
      year c * 100 lowers (c - 1) / 4 below c / 4 exactly when c is a
      multiple of 4, that is when the year is a multiple of 400. */
  lemma CenturyStep(year: nat, c: int)
    requires year == 100 * c
    ensures (year - 1) / 100 == c - 1 && (year - 1) % 100 == 99
    ensures (c - 1) / 4 - c / 4 == if year % 400 == 0 then -1 else 0
  {
    var q, r := c / 4, c % 4;
    assert c == 4 * q + r;
    assert year == 400 * q + 100 * r;
  }

  /** From March on, and in January and February outside century years,
      the code's y and c are the K and J of the congruence. */
  lemma SumsAgree(year: nat, month: nat, day: nat)
    requires !((month == 1 || month == 2) && year % 100 == 0)
    ensures ZellerSumAsWritten(year, month, day) == ZellerSum(year, month, day)
  {
    if month == 1 || month == 2 {
      var yy: int := year - 1;
      var c := year / 100;
      assert year == 100 * c + year % 100;
      assert yy == 100 * c + (year % 100 - 1);
      assert yy / 100 == c && yy % 100 == year % 100 - 1;
    }
  }

  /** In January and February of a century year y = -1 stands for K = 99
      and the century is not stepped back: the sums differ by 126
      (18 weeks), plus one day when the year is divisible by 400. */
  lemma SumsAtCentury(year: nat, month: nat, day: nat)
    requires (month == 1 || month == 2) && year % 100 == 0
    ensures ZellerSumAsWritten(year, month, day) - ZellerSum(year, month, day) ==
      if year % 400 == 0 then 1 - 126 else -126
  {
    var c := year / 100;
    CenturyStep(year, c);
    assert Arith.Quot(-1, 4) == 0;
  }

  /** The two sums compared on every input. */
  lemma SumsCompared(year: nat, month: nat, day: nat)
    ensures var early := month == 1 || month == 2;
      ZellerSumAsWritten(year, month, day) - ZellerSum(year, month, day) ==
        if early && year % 400 == 0 then 1 - 126
        else if early && year % 100 == 0 then -126
        else 0
  {
    if (month == 1 || month == 2) && year % 100 == 0 {
      SumsAtCentury(year, month, day);
    } else {
      assert year % 400 == 0 ==> year % 100 == 0;
      SumsAgree(year, month, day);
    }
  }

  /** A sum one day and 18 weeks apart names the following day. */
  lemma DayAfterMod(s: int, sw: int)
    requires sw == s + 1 - 126
    ensures (if sw % 7 == 0 then 7 else sw % 7) == (if s % 7 == 0 then 7 else s % 7) % 7 + 1
  {
    assert sw == (s + 1) - 7 * 18;
  }

  /** The code as written agrees with the congruence except in January and
      February of a year divisible by 400, where it gives the following
      day: its century term misses the step back from year 2000 to 1999. */
  lemma AsWrittenAgrees(year: nat, month: nat, day: nat)
    ensures WeekdayAsWritten(year, month, day) ==
      if (month == 1 || month == 2) && year % 400 == 0 then Weekday(year, month, day) % 7 + 1
      else Weekday(year, month, day)
  {
    var sw, s := ZellerSumAsWritten(year, month, day), ZellerSum(year, month, day);
    SumsCompared(year, month, day);
    FixUpIsMod(sw);
    if (month == 1 || month == 2) && year % 400 == 0 {
      DayAfterMod(s, sw);
    } else if (month == 1 || month == 2) && year % 100 == 0 {
      ModSeven(s, -18);
    }
  }

  /** 1 January 2000 was a Saturday; the code as written says Sunday. */
  lemma AsWrittenCounterexample()
    ensures Weekday(2000, 1, 1) == 6 && RefWeekday(2000, 1, 1) == 6
    ensures WeekdayAsWritten(2000, 1, 1) == 7
  {
    WeekdayCorrect(2000, 1, 1);
    DaysBeforeYearClosed(2000);
  }

  /** A week on is the same day of the week. */
  lemma WeekLater(year: nat, month: nat, day: nat, k: nat)
    requires ValidDate(year, month, day)
    ensures var later := After(Date(year, month, day), 7 * k);
      Weekday(later.year, later.month, later.day) == Weekday(year, month, day)
  {
    var later := After(Date(year, month, day), 7 * k);
    AfterAbs(Date(year, month, day), 7 * k);
    WeekdayCorrect(year, month, day);
    WeekdayCorrect(later.year, later.month, later.day);
    ModSeven(AbsDay(year, month, day) + 4, k);
  }

  /** One more day in the count is one more day of the week. */
  lemma RefStep(a: int)
    ensures (a + 1 + 4) % 7 + 1 == ((a + 4) % 7 + 1) % 7 + 1
  {
  }

  /** The next day is the next day of the week, Sunday being followed by
      Monday. */
  lemma NextWeekday(year: nat, month: nat, day: nat)
    requires ValidDate(year, month, day)
    ensures var n := NextDay(year, month, day);
      Weekday(n.year, n.month, n.day) == Weekday(year, month, day) % 7 + 1
  {
    var n := NextDay(year, month, day);
    NextDayAbs(year, month, day);
    WeekdayCorrect(year, month, day);
    WeekdayCorrect(n.year, n.month, n.day);
    RefStep(AbsDay(year, month, day));
  }
}
