/** `date_to_trading_days` (exercises/hard/solutiont4/src/calc_time.rs):
    from a date, step with `next_day` past every holiday and report how
    many days were skipped before the next trading day. */
module Trading {
  import opened Wrappers
  import opened Calendar
  import opened Holidays

  /** The longest run of holidays the search steps past. The source's loop
      has no bound; the holiday set of a year never holds that many days
      in a row, and within the bound the next trading day is at most one
      year ahead, which `compute_diff_of_date` needs. */
  const MaxSkip: nat := 364

  /** The holiday status of the j-th date after `start` (`None` where the
      table lacks its year). */
  function Status(start: Date, table: NewYearTable): nat -> Option<bool>
    requires ValidTable(table) && start.month <= 12
  {
    (j: nat) => var d := After(start, j); Holiday(d.year, d.month, d.day, table)
  }

  /** The search once the first k days are known to be holidays: the
      number of holidays before the first day that is not one, or `None`
      where a status is missing or the bound is reached. */
  function Search(status: nat -> Option<bool>, k: nat): (r: Option<nat>)
    requires k <= MaxSkip
    ensures r.Some? ==> k <= r.value <= MaxSkip
    decreases MaxSkip - k
  {
    match status(k + 1)
    case None => None
    case Some(holiday) =>
      if !holiday then Some(k)
      else if k == MaxSkip then None
      else Search(status, k + 1)
  }

  /** The search finds n exactly when day n + 1 is not a holiday and the
      days before it, from day k + 1 on, are. */
  lemma {:induction false} SearchMeaning(status: nat -> Option<bool>, k: nat, n: nat)
    requires k <= n <= MaxSkip
    ensures Search(status, k) == Some(n) <==>
      status(n + 1) == Some(false) && forall j :: k < j <= n ==> status(j) == Some(true)
    decreases MaxSkip - k
  {
    if k < n {
      SearchMeaning(status, k + 1, n);
      if status(k + 1) == Some(true) {
        assert Search(status, k) == Search(status, k + 1);
      } else {
        assert !(forall j :: k < j <= n ==> status(j) == Some(true)) by {
          assert status(k + 1) != Some(true);
        }
      }
    }
  }

  /** The n days after `start` are holidays and the day after them is a
      trading day, all of their years being in the table. */
  predicate HolidaysThenTrading(start: Date, table: NewYearTable, n: nat)
    requires ValidTable(table) && start.month <= 12
  {
    && (var t := After(start, n + 1); Holiday(t.year, t.month, t.day, table) == Some(false))
    && forall j :: 0 < j <= n ==>
         var d := After(start, j); Holiday(d.year, d.month, d.day, table) == Some(true)
  }

  /** In the system's terms: the search from a date finds n exactly when
      the n days after the date are holidays and the day after them is a
      trading day. */
  lemma TradingMeaning(start: Date, table: NewYearTable, n: nat)
    requires ValidTable(table) && start.month <= 12 && n <= MaxSkip
    ensures Search(Status(start, table), 0) == Some(n) <==> HolidaysThenTrading(start, table, n)
  {
    var status := Status(start, table);
    SearchMeaning(status, 0, n);
    var t := After(start, n + 1);
    assert status(n + 1) == Holiday(t.year, t.month, t.day, table);
    if Search(status, 0) == Some(n) {
      forall j | 0 < j <= n
        ensures var d := After(start, j); Holiday(d.year, d.month, d.day, table) == Some(true)
      {
        assert status(j) == Some(true);
      }
    }
    if HolidaysThenTrading(start, table, n) {
      forall j | 0 < j <= n
        ensures status(j) == Some(true)
      {
        var d := After(start, j);
        assert Holiday(d.year, d.month, d.day, table) == Some(true);
      }
    }
  }

  /** A holiday at day k + 1 below the bound passes the search on. */
  lemma SearchStep(status: nat -> Option<bool>, k: nat)
    requires k < MaxSkip && status(k + 1) == Some(true)
    ensures Search(status, k) == Search(status, k + 1)
  {
  }

  /** A day k + 1 that is not a holiday ends the search at k. */
  lemma SearchStop(status: nat -> Option<bool>, k: nat)
    requires k <= MaxSkip && status(k + 1) != Some(true)
    ensures Search(status, k) == if status(k + 1) == None then None else Some(k)
  {
  }

  /** The trading day found n + 1 days after a valid date is at most a
      year ahead, so `compute_diff_of_date` counts exactly those days. */
  lemma TradingDistance(start: Date, n: nat)
    requires ValidDate(start.year, start.month, start.day) && n <= MaxSkip
    ensures var t := After(start, n + 1);
      && ValidDate(t.year, t.month, t.day)
      && InYear(t.year, t.month, t.day) && InYear(start.year, start.month, start.day)
      && DiffOfDate(t.year, t.month, t.day, start.year, start.month, start.day) == n + 1
  {
    var t := After(start, n + 1);
    AfterAbs(start, n + 1);
    YearsApart(start.year, start.month, start.day, t.year, t.month, t.day);
    ValidDayOfYear(start.year, start.month, start.day);
    ValidDayOfYear(t.year, t.month, t.day);
    DiffOfDateAbs(t.year, t.month, t.day, start.year, start.month, start.day);
  }

  /** The loop of `date_to_trading_days`: from the day after `start`, step
      with `next_day` while the day is a holiday. The day it stops at is the
      one the search finds, n + 1 days after `start`. */
  method NextTradingDay(start: Date, table: NewYearTable) returns (r: Option<Date>)
    requires ValidTable(table) && start.month <= 12
    ensures var n := Search(Status(start, table), 0);
      r.Some? <==> n.Some?
    ensures var n := Search(Status(start, table), 0);
      r.Some? ==> r.value == After(start, n.value + 1)
  {
    var status := Status(start, table);
    var trading := NextDay(start.year, start.month, start.day);
    var skipped: nat := 0;
    var holiday := IsHoliday(trading.year, trading.month, trading.day, table);
    while holiday == Some(true)
      invariant skipped <= MaxSkip
      invariant trading == After(start, skipped + 1)
      invariant holiday == status(skipped + 1)
      invariant Search(status, 0) == Search(status, skipped)
      decreases MaxSkip - skipped
    {
      if skipped == MaxSkip {
        return None;
      }
      SearchStep(status, skipped);
      trading := NextDay(trading.year, trading.month, trading.day);
      skipped := skipped + 1;
      holiday := IsHoliday(trading.year, trading.month, trading.day, table);
    }
    SearchStop(status, skipped);
    if holiday == None {
      return None;
    }
    return Some(trading);
  }

  /** `date_to_trading_days`: the days from the date to the next trading
      day, less the trading day itself, which is the number of holidays the
      search steps past. */
  method DateToTradingDays(year: nat, month: nat, day: nat, table: NewYearTable) returns (r: Option<nat>)
    requires ValidTable(table) && ValidDate(year, month, day)
    ensures r == Search(Status(Date(year, month, day), table), 0)
  {
    var start := Date(year, month, day);
    var trading := NextTradingDay(start, table);
    if trading.None? {
      return None;
    }
    var t := trading.value;
    ghost var n := Search(Status(start, table), 0).value;
    TradingDistance(start, n);
    r := Some(DiffOfDate(t.year, t.month, t.day, year, month, day) - 1);
  }
}
