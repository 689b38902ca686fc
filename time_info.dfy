/** `time_info` (exercises/hard/solutiont4/src/calc_time.rs): parse a
    `yyyy-MM-dd` date and report its week number, weekday, day of the year,
    days left in the year, days to the lunar new year and days to the next
    trading day as six comma-separated decimals. */
module TimeInfo {
  import opened Wrappers
  import Text
  import Calendar
  import DayOfWeek
  import WeekNumber
  import Holidays
  import Trading

  /** The answer to an input that is not three `-`-separated parts. */
  const FormatError: string := "格式错误: 请使用yyyy-MM-dd格式"

  /** The six values joined by commas, each printed as with `{}`. */
  function Report(values: seq<nat>): (s: string)
    requires |values| >= 1
  {
    Text.Join(seq(|values|, i requires 0 <= i < |values| => Text.FormatNat(values[i])), ',')
  }

  /** A report reads back: its comma-separated fields are decimals whose
      values are the values reported. */
  lemma ReportDecodes(values: seq<nat>)
    requires |values| >= 1
    ensures var fields := Text.Split(Report(values), ',');
      && |fields| == |values|
      && forall i :: 0 <= i < |fields| ==>
           Text.AllDecimal(fields[i]) && Text.ParseDecimal(fields[i]) == values[i]
  {
    var pieces := seq(|values|, i requires 0 <= i < |values| => Text.FormatNat(values[i]));
    Text.SplitJoin(pieces, ',');
    forall i | 0 <= i < |values|
      ensures Text.ParseDecimal(pieces[i]) == values[i]
    {
      Text.ParseFormat(values[i]);
    }
  }

  /** A report never reads as the format error: it starts with a digit. */
  lemma ReportIsNotError(values: seq<nat>)
    requires |values| >= 1
    ensures Report(values) != FormatError
  {
    var pieces := seq(|values|, i requires 0 <= i < |values| => Text.FormatNat(values[i]));
    ReportStartsWithDigit(pieces);
    assert !Text.IsDecimalDigit(FormatError[0]);
  }

  /** Joined pieces start with the first piece. */
  lemma {:induction false} ReportStartsWithDigit(pieces: seq<string>)
    requires |pieces| >= 1 && |pieces[0]| >= 1 && Text.IsDecimalDigit(pieces[0][0])
    ensures |Text.Join(pieces, ',')| >= 1 && Text.IsDecimalDigit(Text.Join(pieces, ',')[0])
  {
    if |pieces| > 1 {
      assert Text.Join(pieces, ',') == pieces[0] + [','] + Text.Join(pieces[1..], ',');
    }
  }

  /** The year, month and day of an input of three decimal parts. */
  function ParsedDate(time: string): (nat, nat, nat)
    requires var parts := Text.Split(time, '-');
      |parts| == 3 && Text.AllDecimal(parts[0]) && Text.AllDecimal(parts[1]) && Text.AllDecimal(parts[2])
  {
    var parts := Text.Split(time, '-');
    (Text.ParseDecimal(parts[0]), Text.ParseDecimal(parts[1]), Text.ParseDecimal(parts[2]))
  }

  /** What the source needs of its input to run to the end: three parts
      (or the format error), all digits, making a valid date of year 1 on. */
  predicate WellFormed(time: string)
  {
    var parts := Text.Split(time, '-');
    |parts| == 3 ==>
      && Text.AllDecimal(parts[0]) && Text.AllDecimal(parts[1]) && Text.AllDecimal(parts[2])
      && var (y, m, d) := ParsedDate(time);
         y >= 1 && Calendar.ValidDate(y, m, d)
  }

  /** The six values reported for a date: ISO week number, weekday
      (1 Monday to 7 Sunday), day of the year, days left in the year, days
      to the lunar new year and days to the next trading day. `None` where
      a year the answer needs is missing from the lunar new year table. */
  function Values(year: nat, month: nat, day: nat, table: Holidays.NewYearTable): (vs: Option<seq<nat>>)
    requires year >= 1 && Calendar.ValidDate(year, month, day) && Holidays.ValidTable(table)
    ensures vs.Some? ==> |vs.value| == 6 && vs.value[1] == DayOfWeek.Weekday(year, month, day) <= 7
  {
    Calendar.ValidDayOfYear(year, month, day);
    var newYear := Holidays.DateToNewYear(year, month, day, table);
    var trading := Trading.Search(Trading.Status(Calendar.Date(year, month, day), table), 0);
    if newYear.None? || trading.None? then None
    else
      var (passed, left) := Calendar.CountDays(year, month, day);
      Some([WeekNumber.IsoWeek(year, month, day), DayOfWeek.Weekday(year, month, day),
            passed, left, newYear.value, trading.value])
  }

  /** Wherever the source's table lets `time_info` answer (2025 and 2026),
      the corrected week number and weekday it reports are the ones the
      code as written computes, and the week count as written runs to the
      end: both years start on a Wednesday or Thursday and neither is a
      multiple of 400. */
  lemma ValuesAsWritten(year: nat, month: nat, day: nat)
    requires year >= 1 && Calendar.ValidDate(year, month, day)
    ensures Holidays.ValidTable(Holidays.SpringFestival)
    ensures var vs := Values(year, month, day, Holidays.SpringFestival);
      vs.Some? ==>
        && (year == 2025 || year == 2026)
        && WeekNumber.WeekCountDefined(year, month, day)
        && vs.value[0] == WeekNumber.WeekCountAsWritten(year, month, day)
        && vs.value[1] == DayOfWeek.WeekdayAsWritten(year, month, day)
  {
    Holidays.SpringFestivalValid();
    Calendar.ValidDayOfYear(year, month, day);
    if Values(year, month, day, Holidays.SpringFestival).Some? {
      assert Holidays.DateToNewYear(year, month, day, Holidays.SpringFestival).Some?;
      TableYearsAsWritten(year, month, day);
    }
  }

  /** On the dates of 2025 and 2026 the corrected week number and weekday
      are those of the code as written. */
  lemma TableYearsAsWritten(year: nat, month: nat, day: nat)
    requires (year == 2025 || year == 2026) && Calendar.ValidDate(year, month, day)
    ensures WeekNumber.WeekCountDefined(year, month, day)
    ensures WeekNumber.WeekCountAsWritten(year, month, day) == WeekNumber.IsoWeek(year, month, day)
    ensures DayOfWeek.WeekdayAsWritten(year, month, day) == DayOfWeek.Weekday(year, month, day)
  {
    assert DayOfWeek.ZellerSum(2025, 1, 1) == 31;
    assert DayOfWeek.ZellerSum(2026, 1, 1) == 32;
    DayOfWeek.AsWrittenAgrees(year, month, day);
    WeekNumber.AsWrittenAgrees(year, month, day);
  }

  /** `time_info`: the format error exactly when the input is not three
      `-`-separated parts; otherwise the report of the date's six values
      under the table the source builds,
      which `ReportDecodes` reads back. The week number and weekday are the
      ISO ones (see `WeekNumber.IsoWeek` and `DayOfWeek.Weekday`), which
      `ValuesAsWritten` shows to be those of the code as written on every
      date reported. */
  method TimeInfo(time: string) returns (r: Option<string>)
    requires WellFormed(time)
    ensures Holidays.ValidTable(Holidays.SpringFestival)
    ensures |Text.Split(time, '-')| != 3 <==> r == Some(FormatError)
    ensures |Text.Split(time, '-')| == 3 ==>
      var (y, m, d) := ParsedDate(time);
      var vs := Values(y, m, d, Holidays.SpringFestival);
      r == if vs.None? then None else Some(Report(vs.value))
  {
    var parts := Text.Split(time, '-');
    if |parts| != 3 {
      return Some(FormatError);
    }
    var year := Text.ParseDecimal(parts[0]);
    var month := Text.ParseDecimal(parts[1]);
    var day := Text.ParseDecimal(parts[2]);
    var weekCount := WeekNumber.IsoWeek(year, month, day);
    var weekDay := DayOfWeek.Weekday(year, month, day);
    Calendar.ValidDayOfYear(year, month, day);
    var (passed, left) := Calendar.CountDays(year, month, day);
    var table := Holidays.SpringFestival;
    Holidays.SpringFestivalValid();
    var toNewYear := Holidays.DateToNewYear(year, month, day, table);
    var toTrading := Trading.DateToTradingDays(year, month, day, table);
    if toNewYear.None? || toTrading.None? {
      return None;
    }
    var values := [weekCount, weekDay, passed, left, toNewYear.value, toTrading.value];
    ReportIsNotError(values);
    r := Some(Report(values));
  }
}
