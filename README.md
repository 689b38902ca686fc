# Rust-Professional solutions, modelled in Dafny

This project models the exercise solutions of the Rust-Professional repository and proves what they compute:

- **The date engine of `calc_time.rs`**:
  - the Gregorian leap rule, month lengths, the day of the year and the next date;
  - the weekday by Zeller's congruence and the ISO 8601 week number;
  - day differences, the days to the lunar new year and the holiday set;
  - the search for the next trading day, and the `yyyy-MM-dd` front end `time_info`.
- **The union-find of `district.rs`**, with path compression, and the loop that numbers cities and unites them. The result is the number of provinces.
- **The retirement arithmetic of `retirement.rs`**.
- **The smaller exercises**:
  - a binary search tree;
  - interval merging;
  - the longest window of distinct characters;
  - Fibonacci numbers by 2x2 matrix powers;
  - the missing number by a sum;
  - the sieve and the largest-prime-factor search;
  - the search for odd composites that are not a prime plus twice a square;
  - radix conversion;
  - coin change by dynamic programming;
  - counting distinct comma-separated pieces.

The code that works step by step keeps that form:

- **Methods with loop invariants**: the loops become `method`s with `while`/`for` loops and their invariants.
- **Class**: the union-find is a class whose `parent` field the methods change in place.
- **Array**: the sieve works on an `array<bool>`, and so does the coin table.
- **Pure functions**: the pure parts (leap years, month arithmetic, the retirement formulas) are functions.

Each operation is proved against an independent reference:

- a date count from 1 January of year 0 (`Calendar.AbsDay`);
- the recursive optimum of coin change (`CoinChange.MinCoins`);
- the connected components of the listed connections (`District.ComponentCount`);
- the matrix power `Q^n` and the Fibonacci recurrence;
- the digit value of a string;
- the set of values stored in a tree;
- and so on.

Shared modules:

- `Wrappers`: `Option` and `Result`.
- `Arith`: Rust's truncating `/` and `%`, and the integer square root.
- `Text`:
  - `split` on a character, decimal parsing and formatting;
  - `{:0N}` padding, `char::to_digit`, and `u32::from_str_radix`.

Four faults in `calc_time.rs` are recorded under "## Findings": one in the weekday and three in the week number. For each one, the code as written is modelled and the discrepancy is exhibited on a concrete date.

- `is_holiday`, and with it the trading-day search, uses the weekday as written (`Holidays.Holiday`). It agrees with the real weekend except in January and February of years divisible by 400 (`Holidays.WeekendAsWritten`).
- `time_info` reports the corrected week and weekday. On every date it reports, those equal the code as written (`TimeInfo.ValuesAsWritten`), since its table holds only 2025 and 2026.

## Model

| member | source | states |
|---|---|---|
| Arith.Quot | exercises/hard/solutiont5/src/retirement.rs:83 | Rust's `/` by a positive divisor rounds toward zero: bounds on `q * b` for either sign of the dividend |
| Arith.Rem | exercises/hard/solutiont5/src/retirement.rs:97 | Rust's `%`: recombines with `Quot` to the dividend, carries the dividend's sign, magnitude below the divisor |
| Arith.Isqrt | exercises/hard/solutiont2/src/prime_factor.rs:13 | `isqrt(n)` is the r with r^2 <= n < (r+1)^2 |
| Arith.IsqrtUnique | exercises/hard/solutiont2/src/prime_factor.rs:74 | any r with r^2 <= n < (r+1)^2 is the integer square root |
| Text.Split | exercises/normal/solution1/src/count_distinct.rs:5 | `split(sep)` yields at least one piece, and no piece holds the separator |
| Text.JoinSplit | exercises/normal/solution1/src/count_distinct.rs:5 | splitting loses nothing: joining the pieces with the separator gives the input back |
| Text.SplitCount | exercises/normal/solution1/src/count_distinct.rs:5 | there is exactly one piece more than there are separators |
| Text.SplitJoin | exercises/hard/solutiont4/src/calc_time.rs:210 | splitting separator-free pieces joined by the separator gives the pieces back |
| Text.SplitNoSeparator | exercises/hard/solutiont4/src/calc_time.rs:210 | a separator-free prefix joins the first piece and leaves the other pieces alone |
| Text.CharDigit | exercises/normal/solution2/src/converter.rs:11 | `to_digit(36)`: a digit below 36, and below 10 exactly for '0'-'9' |
| Text.DigitChar | exercises/normal/solution2/src/converter.rs:25-29 | the digit character written for d is 0-9 or a-z and reads back as d |
| Text.ToDigits | exercises/normal/solution2/src/converter.rs:23-32 | the digits of n are below the base, none for zero, and the leading digit of a positive n is not 0 |
| Text.DigitString | exercises/normal/solution2/src/converter.rs:24-30 | one character per digit, each reading back as its digit |
| Text.FromToDigits | exercises/normal/solution2/src/converter.rs:23-32 | reading the digits of n back in the same base gives n |
| Text.FormatNat | exercises/hard/solutiont4/src/calc_time.rs:235-243 | `{}` of a natural number is a non-empty string of decimal digits with no leading zero |
| Text.ParseFormat | exercises/hard/solutiont4/src/calc_time.rs:9-12 | the left fold `acc * 10 + digit` of `str_to_num` reads back what `{}` prints |
| Text.ParseDigitString | exercises/hard/solutiont4/src/calc_time.rs:9-12 | `str_to_num` of a string of decimal digits is the digits' value |
| Text.ParseDecimal | exercises/hard/solutiont4/src/calc_time.rs:9-12 | `str_to_num` of k digits is below 10^k; with `Text.ParseFormat` it inverts `{}` |
| Text.PadZeros | exercises/hard/solutiont5/src/retirement.rs:122 | `{:0N}` padding: width max(N, length), zeros in front, the original text at the end |
| Text.ParsePadded | exercises/hard/solutiont5/src/retirement.rs:122 | leading zeros do not change the value of a decimal string |
| Text.FormatPadded | exercises/hard/solutiont5/src/retirement.rs:42 | `{:0N}` of a non-negative number is at least N digits and reads back as it; a negative one is '-' followed by the digits of its magnitude |
| Text.RadixDigits | exercises/normal/solution2/src/converter.rs:11 | digit values of a string are found exactly when every character is a digit below the radix |
| Text.FromStrRadix | exercises/normal/solution2/src/converter.rs:11 | a value `from_str_radix` accepts fits in `u32` |
| Text.FromStrRadixDecimal | exercises/normal/solution2/src/converter.rs:8 | a non-empty decimal string whose value fits in 32 bits parses in radix 10 to that value |
| Calendar.IsLeapYear | exercises/hard/solutiont4/src/calc_time.rs:4-6 | the leap rule; `Calendar.LeapPeriod`, `Calendar.DaysBeforeYearClosed` and `Calendar.FourCenturies` prove it repeats every 400 years with 97 leap years among them |
| Calendar.MonthLength | exercises/hard/solutiont4/src/calc_time.rs:37-43 | every month of the table has 28 to 31 days |
| Calendar.GetMonthDays | exercises/hard/solutiont4/src/calc_time.rs:37-43 | 13 entries, equal to the base table except February, which is 29 exactly in a leap year and 28 otherwise |
| Calendar.DaysBeforeTable | exercises/hard/solutiont4/src/calc_time.rs:50 | the sum of the earlier month lengths is the common-year table plus one from March on in a leap year |
| Calendar.MonthsFillYear | exercises/hard/solutiont4/src/calc_time.rs:53 | the twelve months add up to 365, or 366 in a leap year |
| Calendar.CountDays | exercises/hard/solutiont4/src/calc_time.rs:46-57 | the day of the year is the earlier months plus the day; the two parts sum to 366 in a leap year and to 365 otherwise |
| Calendar.ValidDayOfYear | exercises/hard/solutiont4/src/calc_time.rs:54 | a valid date never makes the `u32` subtraction underflow; its day of the year is at least 1 |
| Calendar.LeapCountStep | exercises/hard/solutiont4/src/calc_time.rs:4-6 | the closed count 365Y + Y/4 - Y/100 + Y/400 grows by exactly the year's length under the leap rule |
| Calendar.DaysBeforeYearClosed | exercises/hard/solutiont4/src/calc_time.rs:4-6 | the days before a year, summed year by year, equal the closed count |
| Calendar.LeapPeriod | exercises/hard/solutiont4/src/calc_time.rs:5 | the leap rule repeats every 400 years |
| Calendar.FourCenturies | exercises/hard/solutiont4/src/calc_time.rs:4-6 | 400 years hold 146097 days, a whole number of weeks |
| Calendar.NextDay | exercises/hard/solutiont4/src/calc_time.rs:108-121 | the successor's month still indexes the table |
| Calendar.NextDayAbs | exercises/hard/solutiont4/src/calc_time.rs:108-121 | the successor of a valid date is valid and is the next day of the absolute count (31 December goes to 1 January) |
| Calendar.After | exercises/hard/solutiont4/src/calc_time.rs:199-201 | repeated `next_day` keeps the month within the table |
| Calendar.AfterAbs | exercises/hard/solutiont4/src/calc_time.rs:196-201 | k repeated `next_day` steps from a valid date reach a valid date k days later |
| Calendar.DiffOfDate | exercises/hard/solutiont4/src/calc_time.rs:93-105 | within one year: 0 exactly when the first date is not later (the saturating subtraction), and at most the year's length; across years: the first date's day of the year plus the days left in the second's year |
| Calendar.DiffOfDateAbs | exercises/hard/solutiont4/src/calc_time.rs:93-105 | for dates of one year, or the first in the year after the second, the difference is the number of days between them (saturating at 0) |
| Calendar.YearsApart | exercises/hard/solutiont4/src/calc_time.rs:99-104 | dates less than 366 days apart lie in the same or consecutive years |
| Calendar.AbsDayOrder | exercises/hard/solutiont4/src/calc_time.rs:94-98 | within a year the count is injective and follows the order of month and day |
| DayOfWeek.FixUpIsMod | exercises/hard/solutiont4/src/calc_time.rs:28-31 | the truncating `% 7` followed by `+7` when not positive is the floor remainder with 0 read as 7 |
| DayOfWeek.ZellerSumAsWritten | exercises/hard/solutiont4/src/calc_time.rs:15-28 | the sum of `date_to_week_day` as written, with `y - 1` truncated by `/ 4`; `DayOfWeek.SumsCompared` proves it equals the congruence's sum except in January and February of century years |
| DayOfWeek.WeekdayAsWritten | exercises/hard/solutiont4/src/calc_time.rs:15-34 | the code as written returns a value from 1 to 7 |
| DayOfWeek.RefWeekday | exercises/hard/solutiont4/src/calc_time.rs:15-34 | the reference weekday from the day count (1 January of year 0 a Saturday) is from 1 to 7 |
| DayOfWeek.Weekday | exercises/hard/solutiont4/src/calc_time.rs:15-34 | the intended congruence returns a value from 1 to 7 |
| DayOfWeek.ZellerCount | exercises/hard/solutiont4/src/calc_time.rs:28 | the congruence's sum is the day count plus 5, modulo 7 |
| DayOfWeek.WeekdayCorrect | exercises/hard/solutiont4/src/calc_time.rs:15-34 | the intended congruence gives the weekday of the day count, Monday 1 to Sunday 7, for every date |
| DayOfWeek.SumsCompared | exercises/hard/solutiont4/src/calc_time.rs:16-23 | the sum as written differs from the congruence's only in January and February of century years: by -126, a whole number of weeks, or by -125 in years divisible by 400 |
| DayOfWeek.AsWrittenAgrees | exercises/hard/solutiont4/src/calc_time.rs:16-28 | the code as written agrees with the congruence except in January and February of years divisible by 400, where it gives the following day |
| DayOfWeek.AsWrittenCounterexample | exercises/hard/solutiont4/src/calc_time.rs:21-23 | 1 January 2000 was a Saturday (6); the code as written gives 7 |
| DayOfWeek.WeekLater | exercises/hard/solutiont4/src/calc_time.rs:189-190 | seven `next_day` steps keep the weekday |
| DayOfWeek.NextWeekday | exercises/hard/solutiont4/src/calc_time.rs:108-121 | the next date has the next weekday, Sunday followed by Monday |
| WeekNumber.JanFirstAsWritten | exercises/hard/solutiont4/src/calc_time.rs:61-64 | the weekday of 1 January with Sunday as 0 lies in 0..6 |
| WeekNumber.WeekCountAsWritten | exercises/hard/solutiont4/src/calc_time.rs:60-90 | the code as written returns a week of at least 1 wherever it runs to the end; the recursion is at most one level deep |
| WeekNumber.IsoWeek | exercises/hard/solutiont4/src/calc_time.rs:60-90 | the count with the Friday/Saturday branch mended is at least 1 |
| WeekNumber.YearOneStartsMonday | exercises/hard/solutiont4/src/calc_time.rs:71 | 1 January of year 1 was a Monday, so the fall-back never reaches year 0 |
| WeekNumber.IsoWeekBefore | exercises/hard/solutiont4/src/calc_time.rs:68-71 | a date whose Thursday precedes its year is one of the first three days and gets the week of the previous 31 December |
| WeekNumber.IsoWeekWithin | exercises/hard/solutiont4/src/calc_time.rs:76 | a date whose Thursday lies in its year is in that Thursday's week of the year |
| WeekNumber.IsoWeekAfter | exercises/hard/solutiont4/src/calc_time.rs:80-84 | a date whose Thursday lies in the next year is in week 1 |
| WeekNumber.CorrectBefore | exercises/hard/solutiont4/src/calc_time.rs:70-71 | the fall-back gives the week of the Thursday in the previous year |
| WeekNumber.IsoWeekFallsBack | exercises/hard/solutiont4/src/calc_time.rs:68-71 | with the fall-back keyed on the day of the year, a date before the first week takes the week of the previous 31 December |
| WeekNumber.IsoWeekCorrect | exercises/hard/solutiont4/src/calc_time.rs:59-90 | the mended count equals the ISO 8601 week (the week of the date's Thursday within the Thursday's year) for every date from year 1 |
| WeekNumber.IsoWeekRange | exercises/hard/solutiont4/src/calc_time.rs:60-90 | a week number runs from 1 to 53 |
| WeekNumber.AsWrittenAgrees | exercises/hard/solutiont4/src/calc_time.rs:76 | for a year starting Monday to Thursday (and a Sunday start after 1 January), outside years divisible by 400, the code as written runs to the end and gives the ISO week |
| WeekNumber.FridayStartFifthJanuary | exercises/hard/solutiont4/src/calc_time.rs:73 | in any year starting on a Friday the code counts 5 January as week 2; it is ISO week 1 |
| WeekNumber.FridayStartFirstFebruary | exercises/hard/solutiont4/src/calc_time.rs:70 | in any year starting on a Friday the code as written gives 1 February the week of the previous 31 December; it is ISO week 5 |
| WeekNumber.WednesdayLeapYearEnd | exercises/hard/solutiont4/src/calc_time.rs:80-84 | the code as written puts 31 December of a leap year starting on a Wednesday in week 53 |
| WeekNumber.SundayStartFirstJanuary | exercises/hard/solutiont4/src/calc_time.rs:76 | in a year starting on a Sunday the code as written cannot finish for 1 January (`days + week_day - 2` goes below zero); the day belongs to the previous 31 December's week |
| WeekNumber.SaturdayCommonYearEnd | exercises/hard/solutiont4/src/calc_time.rs:80-84 | a common year starting on a Saturday ends in week 52 |
| WeekNumber.CounterexampleFifthJanuary | exercises/hard/solutiont4/src/calc_time.rs:73 | 5 January 2021: the code gives week 2, ISO week 1 |
| WeekNumber.CounterexampleFirstFebruary | exercises/hard/solutiont4/src/calc_time.rs:70 | 1 February 2021: the code gives week 53, ISO week 5 |
| WeekNumber.CounterexampleSundayStart | exercises/hard/solutiont4/src/calc_time.rs:76 | 1 January 2023: the code underflows; ISO week 52 |
| Holidays.SpringFestivalValid | exercises/hard/solutiont4/src/calc_time.rs:225-227 | the table `time_info` builds holds real dates |
| Holidays.DateToNewYear | exercises/hard/solutiont4/src/calc_time.rs:124-147 | `None` (the panic) exactly when the year is missing from the table, or its lunar new year has passed and the next year is missing |
| Holidays.NewYearDistance | exercises/hard/solutiont4/src/calc_time.rs:124-147 | the days to this year's lunar new year when on or before it (0 on the day), else to next year's; `None` (the panic) when the table lacks the year needed |
| Holidays.NewYearAfter | exercises/hard/solutiont4/src/calc_time.rs:132-139 | every date of the next year comes after every date of this one |
| Holidays.EveIsDayBefore | exercises/hard/solutiont4/src/calc_time.rs:163-171 | the eve is the date whose `next_day` is the lunar new year; for 1 January it is 31 December |
| Holidays.VisitedContents | exercises/hard/solutiont4/src/calc_time.rs:174-178 | the seven-step loop collects exactly the month-days of the first seven dates from the lunar new year |
| Holidays.MayDaysContents | exercises/hard/solutiont4/src/calc_time.rs:181-183 | the May loop adds exactly 1 to 5 May |
| Holidays.Holiday | exercises/hard/solutiont4/src/calc_time.rs:150-192 | `None` (the panic) exactly when the year is missing from the table; otherwise New Year's Day and 1-5 May are always holidays |
| Holidays.HolidayMeaning | exercises/hard/solutiont4/src/calc_time.rs:150-192 | a date is a holiday exactly when it is New Year's Day, 1-5 May, the eve, one of the seven days from the lunar new year, or `date_to_week_day` as written gives 6 or 7 |
| Holidays.IsHoliday | exercises/hard/solutiont4/src/calc_time.rs:150-192 | the loops that fill the holiday set compute the holiday test |
| Holidays.WeekendAsWritten | exercises/hard/solutiont4/src/calc_time.rs:189 | the weekend test as written takes the real Saturdays and Sundays, except in January and February of years divisible by 400, where it takes Fridays and Saturdays |
| Holidays.HolidayOnRealWeekend | exercises/hard/solutiont4/src/calc_time.rs:150-192 | for a year not divisible by 400, a date is a holiday exactly when it is in the holiday set or is a real Saturday or Sunday |
| Holidays.NinthJanuary2000 | exercises/hard/solutiont4/src/calc_time.rs:15-34 | 9 January 2000 was a Sunday (7); `date_to_week_day` as written gives 1 |
| Holidays.WeekendCounterexample | exercises/hard/solutiont4/src/calc_time.rs:186-191 | with lunar new year 5 February 2000, `is_holiday` gives false for Sunday 9 January 2000 |
| Trading.Search | exercises/hard/solutiont4/src/calc_time.rs:199-201 | a count found is at least the starting offset and within the bound |
| Trading.SearchMeaning | exercises/hard/solutiont4/src/calc_time.rs:199-201 | the search finds n exactly when day n + 1 is not a holiday and every day before it is |
| Trading.TradingMeaning | exercises/hard/solutiont4/src/calc_time.rs:196-201 | in calendar terms: the n dates after the start are holidays and the one after them is a trading day |
| Trading.SearchStep | exercises/hard/solutiont4/src/calc_time.rs:199-200 | a holiday passes the search to the next day |
| Trading.SearchStop | exercises/hard/solutiont4/src/calc_time.rs:199 | a trading day ends the search |
| Trading.TradingDistance | exercises/hard/solutiont4/src/calc_time.rs:204 | the day difference to the trading day found n + 1 days on is n + 1, so the final `- 1` cannot underflow |
| Trading.NextTradingDay | exercises/hard/solutiont4/src/calc_time.rs:196-201 | the loop stops at the date n + 1 days after the start, where n is what the search finds |
| Trading.DateToTradingDays | exercises/hard/solutiont4/src/calc_time.rs:195-205 | the result is the number of holidays before the next trading day |
| TimeInfo.ReportDecodes | exercises/hard/solutiont4/src/calc_time.rs:235-243 | the output splits at commas into as many decimal fields as values, each reading back as its value |
| TimeInfo.ReportIsNotError | exercises/hard/solutiont4/src/calc_time.rs:211-213 | a report is never the format-error text |
| TimeInfo.Values | exercises/hard/solutiont4/src/calc_time.rs:220-232 | six values, the second the weekday 1 to 7 |
| TimeInfo.TimeInfo | exercises/hard/solutiont4/src/calc_time.rs:208-244 | the format error exactly when the input is not three `-` parts; otherwise the report of week, weekday, day of year, days left, days to the lunar new year and to the next trading day |
| TimeInfo.ValuesAsWritten | exercises/hard/solutiont4/src/calc_time.rs:220-232 | whenever a report is produced, its week and weekday equal `date_to_week_count` and `date_to_week_day` as written |
| TimeInfo.TableYearsAsWritten | exercises/hard/solutiont4/src/calc_time.rs:225-227 | in 2025 and 2026, the table's years, the week and weekday as written run to the end and equal the ISO week and the real weekday |
| District.Root | exercises/hard/solutiont3/src/district.rs:22-26 | following parents ends at a self-parent no larger than the first parent |
| District.RootsAreSelfParents | exercises/hard/solutiont3/src/district.rs:51-52 | the representatives are exactly the self-parents |
| District.CompressKeeps | exercises/hard/solutiont3/src/district.rs:24 | pointing an entry straight at its representative keeps the forest and every representative |
| District.LinkKeeps | exercises/hard/solutiont3/src/district.rs:36-40 | making the smaller root the parent of the larger moves one set onto the other and leaves every other set alone |
| District.AddKeeps | exercises/hard/solutiont3/src/district.rs:17-18 | appending index n as its own parent adds a singleton and changes no representative |
| District.DisjointSets.constructor | exercises/hard/solutiont3/src/district.rs:10-14 | the parent vector starts empty |
| District.DisjointSets.Add | exercises/hard/solutiont3/src/district.rs:17-19 | `add(n)` pushes n |
| District.DisjointSets.Find | exercises/hard/solutiont3/src/district.rs:22-27 | returns the representative and leaves `parent[x]` pointing at it; entries only decrease, no representative changes, nothing above x moves |
| District.DisjointSets.Union | exercises/hard/solutiont3/src/district.rs:30-42 | afterwards x and y share a representative, their two sets become one under the smaller root, every other set is unchanged |
| District.DisjointSets.GetIsolatedPart | exercises/hard/solutiont3/src/district.rs:45-53 | the count is the number of representatives, and no representative changes |
| District.UnionJoined | exercises/hard/solutiont3/src/district.rs:134-135 | after uniting two cities the sets are the connected components of the pairs with that pair added |
| District.AddJoined | exercises/hard/solutiont3/src/district.rs:121-125 | numbering a new city as its own root keeps the sets equal to the components |
| District.SameKernel | exercises/hard/solutiont3/src/district.rs:51-52 | two labellings that identify the same elements have equally many labels |
| District.RootsCountComponents | exercises/hard/solutiont3/src/district.rs:138-139 | the number of representatives is the number of connected components |
| District.SameComponent | exercises/hard/solutiont3/src/district.rs:119-137 | two cities are linked exactly when their components are equal |
| District.NodeOf | exercises/hard/solutiont3/src/district.rs:129-133 | the first time a city is met it gets the next number as a new root; known cities keep theirs |
| District.UniteListed | exercises/hard/solutiont3/src/district.rs:127-136 | after the inner loop every listed city is numbered and the sets are the components of the pairs so far |
| District.CountComponents | exercises/hard/solutiont3/src/district.rs:114-139 | the count of one province is the number of connected components of its cities |
| District.CountProvinces | exercises/hard/solutiont3/src/district.rs:112-140 | one count per province, each the number of its connected components |
| Retirement.EligibleMonths | exercises/hard/solutiont5/src/retirement.rs:62-64 | non-negative for a birth on or after the policy year with month at least 1 |
| Retirement.Delay | exercises/hard/solutiont5/src/retirement.rs:68 | at most the cap, and at least 1 for a non-negative count under a positive cap |
| Retirement.DelayMonotone | exercises/hard/solutiont5/src/retirement.rs:68 | a later birth month is never delayed less |
| Retirement.RetirementMonth | exercises/hard/solutiont5/src/retirement.rs:96-98 | a real month 1 to 12 for a non-negative count |
| Retirement.YearMonthInverse | exercises/hard/solutiont5/src/retirement.rs:82-98 | year and month recombine into the month count, also for negative counts under truncating division |
| Retirement.RetirementYear | exercises/hard/solutiont5/src/retirement.rs:82-84 | the policy year plus the whole years in the count: 12 times the years added is at most the count and within 12 of it, rounded toward zero for a negative count |
| Retirement.Plan | exercises/hard/solutiont5/src/retirement.rs:66-103 | the delay is the capped one of the eligible months; retirement comes the base years plus the delay after the birth month, and exactly those months are counted as worked |
| Retirement.PlanBounds | exercises/hard/solutiont5/src/retirement.rs:66-102 | delay 1 to the cap, month 1 to 12, year at least birth year plus base years |
| Retirement.FormatInt | exercises/hard/solutiont5/src/retirement.rs:114 | `{}` of a non-negative integer reads back as it |
| Retirement.Hundredths | exercises/hard/solutiont5/src/retirement.rs:116 | k/12 rounded to hundredths: within half a hundredth |
| Retirement.FormatAge | exercises/hard/solutiont5/src/retirement.rs:112-118 | whole years print as digits that read back as the years; a negative count that is not whole years starts with '-' |
| Retirement.FormatAgeFraction | exercises/hard/solutiont5/src/retirement.rs:115-117 | other counts print as whole years, a point and two digits of rounded hundredths |
| Retirement.BaseRetirement | exercises/hard/solutiont5/src/retirement.rs:41-43 | the undelayed text is the delayed format with the base years worked and no delay |
| Retirement.WholeYears | exercises/hard/solutiont5/src/retirement.rs:113 | a whole number of years of months divides by 12 without remainder |
| Retirement.Calc | exercises/hard/solutiont5/src/retirement.rs:29-128 | before the policy year: birth year plus base, same month, base years, no delay; otherwise the delayed plan |
| Retirement.RetireTime | exercises/hard/solutiont5/src/retirement.rs:150-172 | the three person types select 60/1965/36, 55/1970/36 and 50/1975/60; any other type gives "未知" |
| Retirement.BaseExample | exercises/hard/solutiont5/src/retirement.rs:39-43 | the comment's example: born March 1960 with 60 base years gives "2020-03,60,0" |
| Retirement.Examples | exercises/hard/solutiont5/src/retirement.rs:60-98 | the comments' examples: 62 eligible months for March 1975 under 1970, and 372 months after 1970 is January 2001; one more worked case: a woman born April 1971 under the 55-year policy retires August 2026, after 55 years and 4 months |
| SearchTree.Inserted | exercises/easy/algorithm4.rs:52-82 | the tree after insertion holds the old values and v, and is not empty |
| SearchTree.NodeInsert | exercises/easy/algorithm4.rs:110-125 | the recursive `TreeNode::insert` puts the value where the iterative walk does |
| SearchTree.InsertedBst | exercises/easy/algorithm4.rs:61-75 | insertion keeps smaller values on the left and larger on the right |
| SearchTree.InsertedPresent | exercises/easy/algorithm4.rs:76-78 | inserting a stored value leaves the tree unchanged |
| SearchTree.BinarySearchTree.constructor | exercises/easy/algorithm4.rs:47-49 | a new tree is empty |
| SearchTree.BinarySearchTree.Insert | exercises/easy/algorithm4.rs:52-82 | the loop that walks down and hangs a new leaf produces the inserted tree |
| SearchTree.BinarySearchTree.Search | exercises/easy/algorithm4.rs:85-102 | a value found is stored; on an ordered tree it is found exactly when stored |
| SearchTree.InsertThenSearch | exercises/easy/algorithm4.rs:141-152 | after inserting v into an ordered tree it stays ordered, holds old values plus v, and search finds v |
| SearchTree.Examples | exercises/easy/algorithm4.rs:134-157 | the test's tree from 5, 3, 7, 2, 4 is ordered and holds exactly those values, not 1 or 6 |
| SearchTree.DuplicateExample | exercises/easy/algorithm4.rs:160-178 | inserting 1 twice gives a single leaf with no children |
| MergeIntervals.SortByStart | exercises/easy/algorithm18.rs:24 | the sort is a permutation ordered by start |
| MergeIntervals.InsertByStart | exercises/easy/algorithm18.rs:24 | inserting into a sorted list adds the interval and keeps the order |
| MergeIntervals.Merge | exercises/easy/algorithm18.rs:16-47 | empty exactly for empty input; no longer than the input; outputs separated by gaps and ordered; every input inside an output; output ends taken from inputs; the same points and the same unit segments covered, so intervals that only come close, like [1,2] and [3,4], stay apart |
| MergeIntervals.MergeSorted | exercises/easy/algorithm18.rs:30-44 | the fold keeps its shape, covers every folded interval, adds no new point and no new unit segment, and takes its ends from the input |
| MergeIntervals.WidenStep | exercises/easy/algorithm18.rs:38-39 | stretching the last output keeps every invariant of the fold |
| MergeIntervals.AppendStep | exercises/easy/algorithm18.rs:40-43 | pushing a disjoint interval keeps every invariant of the fold |
| MergeIntervals.InsideCovers | exercises/easy/algorithm18.rs:38-43 | every point an input covers, the output covers |
| MergeIntervals.WidenNoNewSpans | exercises/easy/algorithm18.rs:38-39 | stretching the last output over an interval that starts inside it spans only segments it or that interval spanned |
| MergeIntervals.InsideSpans | exercises/easy/algorithm18.rs:38-43 | every unit segment an input spans, the output spans |
| MergeIntervals.TouchingStayApart | exercises/easy/algorithm18.rs:38 | [1,4] spans a segment that [1,2] and [3,4] do not, so it cannot be their merge |
| LongestWindow.LongestSubstring | exercises/easy/algorithm15.rs:15-36 | the result is the length of some window without repeats, no such window is longer, it is at most the length, and an all-distinct string gives its length |
| LongestWindow.DropFront | exercises/easy/algorithm15.rs:25-28 | removing the front character from the set slides the window's front |
| LongestWindow.NotInWindow | exercises/easy/algorithm15.rs:30 | a character outside the window extends it without a repeat |
| Fibonacci.MulAssociative | exercises/easy/algorithm19.rs:24-35 | the 2x2 product is associative |
| Fibonacci.Mul | exercises/easy/algorithm19.rs:24-35 | the identity matrix (the starting value at line 38) is neutral on either side of the product |
| Fibonacci.PowAdd | exercises/easy/algorithm19.rs:37-47 | m^(i+j) = m^i m^j |
| Fibonacci.PowSquare | exercises/easy/algorithm19.rs:43-44 | squaring the base while halving the exponent keeps the power |
| Fibonacci.MatrixPow | exercises/easy/algorithm19.rs:37-47 | square-and-multiply returns base^exp, and the identity for a non-positive exponent |
| Fibonacci.PowQ | exercises/easy/algorithm19.rs:49-51 | [[1,1],[1,0]]^n is [[F(n+1), F(n)], [F(n), F(n-1)]], with 1 in the corner for n = 0 |
| Fibonacci.FibMatrix | exercises/easy/algorithm19.rs:14-52 | `fib(n)` is the n-th Fibonacci number for 0 <= n <= 32, and 1 for a negative n |
| Fibonacci.Examples | exercises/easy/algorithm19.rs:86-98 | fib(10) = 55 and fib(20) = 6765 |
| MissingNumber.FindMissingNumber | exercises/easy/algorithm11.rs:16-29 | the result plus the sum of the input is the sum of 1..n |
| MissingNumber.GaussSum | exercises/easy/algorithm11.rs:22 | 1 + ... + n = n(n+1)/2 |
| MissingNumber.SumPermutation | exercises/easy/algorithm11.rs:25 | the sum depends only on the multiset of elements |
| MissingNumber.OrderIndependent | exercises/easy/algorithm11.rs:16-29 | the answer does not depend on the order of the input |
| MissingNumber.FindsMissing | exercises/easy/algorithm11.rs:16-28 | when the input is 1..n without m, the result is m |
| MissingNumber.PartialSumsBounded | exercises/easy/algorithm11.rs:25 | on such an input every running total of the `i32` sum stays within 0..n(n+1)/2 |
| MissingNumber.Sum | exercises/easy/algorithm11.rs:25 | a sum of non-negative numbers is non-negative, and of non-positive numbers non-positive |
| MissingNumber.PremiseNoOverflow | exercises/easy/algorithm11.rs:16-28 | on 1..n with one number missing and n(n+1) within `i32`, no step of the `i32` arithmetic overflows |
| MissingNumber.Examples | exercises/easy/algorithm11.rs:35-57 | [3,7,1,2,8,4,5] gives 6 and [2..9] gives 1 |
| Primes.PrimeBySquareRoot | exercises/hard/solutiont1/src/conjecture.rs:7-12 | no divisor up to the square root makes a number prime |
| PrimeFactor.Strip | exercises/hard/solutiont2/src/prime_factor.rs:5-10 | dividing out p leaves a divisor of n not divisible by p |
| PrimeFactor.DivideStep | exercises/hard/solutiont2/src/prime_factor.rs:7-8 | one division keeps `number` and `max_prime` divisors of the input and keeps an odd number odd |
| PrimeFactor.PrimeDivisor | exercises/hard/solutiont2/src/prime_factor.rs:47-50 | on a prime input the first divisor found is the input itself, leaving 1 |
| PrimeFactor.DivideAll | exercises/hard/solutiont2/src/prime_factor.rs:6-9 | the inner loop strips every factor p and keeps the divisor invariant |
| PrimeFactor.FindMaxPrimeFactor | exercises/hard/solutiont2/src/prime_factor.rs:1-51 | the result is at least 2 and divides the input, and a prime input is its own result |
| PrimeFactor.WheelSearch | exercises/hard/solutiont2/src/prime_factor.rs:28-44 | the wheel keeps the divisor invariant and an odd `number` |
| PrimeFactor.Sieve | exercises/hard/solutiont2/src/prime_factor.rs:69-88 | exactly the primes up to the limit, ascending |
| PrimeFactor.CrossOff | exercises/hard/solutiont2/src/prime_factor.rs:76-78 | crossing off from i*i in steps of i leaves marked exactly the numbers with no factor up to i |
| PrimeFactor.Collect | exercises/hard/solutiont2/src/prime_factor.rs:82-87 | the marked indices, ascending, are the primes up to the limit |
| PrimeFactor.SkipComposite | exercises/hard/solutiont2/src/prime_factor.rs:75 | skipping a composite i loses nothing: its multiples were already crossed off |
| Conjecture.IsPrime | exercises/hard/solutiont1/src/conjecture.rs:3-13 | trial division up to the square root decides primality |
| Conjecture.TwiceSquareMonotone | exercises/hard/solutiont1/src/conjecture.rs:18 | 2k^2 grows strictly with k, so the loop may stop at the first 2k^2 >= n |
| Conjecture.CanBeExpressed | exercises/hard/solutiont1/src/conjecture.rs:16-26 | true exactly when n is a prime plus twice a positive square |
| Conjecture.SearchStep | exercises/hard/solutiont1/src/conjecture.rs:31-35 | examining the next odd number keeps `results` the ascending list of counterexamples so far |
| Conjecture.GoldbachConjecture | exercises/hard/solutiont1/src/conjecture.rs:28-38 | at most two results, ascending counterexamples from 9; two results are the first two counterexamples, formatted "a,b"; fewer means none was missed among the odd numbers examined, and no answer |
| Converter.Header | exercises/normal/solution2/src/converter.rs:3-8 | the digit text has no '('; failures are a missing '(' or an unreadable base |
| Converter.Value | exercises/normal/solution2/src/converter.rs:3-11 | a value read fits in `u32` |
| Converter.ConvertBase | exercises/normal/solution2/src/converter.rs:1-35 | the panic cases as errors; "0" for zero; otherwise the digits of the value in the target base |
| Converter.WriteDigits | exercises/normal/solution2/src/converter.rs:23-32 | the prepend loop writes the digits most significant first |
| Converter.RenderDigits | exercises/normal/solution2/src/converter.rs:25-29 | every output character is 0-9 or a-z and a digit below the target base |
| Converter.NoLeadingZero | exercises/normal/solution2/src/converter.rs:23-32 | a non-zero value has no leading '0' |
| Converter.RoundTrip | exercises/normal/solution2/src/converter.rs:19-34 | reading the output back in the target base gives the value |
| Converter.ParseDigits | exercises/normal/solution2/src/converter.rs:11 | digit characters below the radix parse to the digits' value when it fits in 32 bits |
| CoinChange.DpRecMc | exercises/normal/solution4/src/rec_mc.rs:1-24 | the table's last entry is the fewest coins that pay the amount, and at most the amount |
| CoinChange.Relax | exercises/normal/solution4/src/rec_mc.rs:12-19 | the inner loop sets the current entry to its optimum and touches no other entry |
| CoinChange.MinCoinsAtMost | exercises/normal/solution4/src/rec_mc.rs:5 | the optimum never exceeds the amount, so the sentinel never survives |
| CoinChange.MinCoinsStep | exercises/normal/solution4/src/rec_mc.rs:14-17 | for every coin c <= a the optimum at a is at most one more than at a - c |
| CoinChange.MinCoinsOptimal | exercises/normal/solution4/src/rec_mc.rs:3-23 | no list of coins paying the amount is shorter than the optimum |
| CoinChange.NotACoin | exercises/normal/solution4/src/rec_mc.rs:3 | an amount that is not a coin needs at least two coins |
| CoinChange.Change | exercises/normal/solution4/src/rec_mc.rs:3-23 | the optimum is attained by a list of coins paying exactly the amount |
| CoinChange.TwoCoins | exercises/normal/solution4/src/rec_mc.rs:3 | an amount that is the sum of two coins but not a coin takes exactly two |
| CoinChange.Examples | exercises/normal/solution4/src/rec_mc.rs:3 | 3 and 7 take two coins each |
| CountDistinct.NewCountDistinct | exercises/normal/solution1/src/count_distinct.rs:3-17 | the number of distinct pieces, at least 1 and at most the commas plus one |
| CountDistinct.DistinctAtMostLength | exercises/normal/solution1/src/count_distinct.rs:11-16 | a set of pieces is no larger than the list |
| CountDistinct.ReorderedPieces | exercises/normal/solution1/src/count_distinct.rs:11-13 | reordering the pieces does not change what is counted |
| CountDistinct.NoTrimming | exercises/normal/solution1/src/count_distinct.rs:5 | pieces compare exactly: "a, a" has two |

## Left out

- **Fixed-width integers.** Integers are unbounded, and overflow is excluded by preconditions:
  - `CoinChange.DpRecMc` needs amount < `u32::MAX`;
  - `Fibonacci.FibMatrix` needs n <= 32, since 33 overflows `i32` in the final squaring;
  - `MissingNumber.FindMissingNumber` needs `NoOverflow`: the product n(n+1), every running total of the sum and the final difference fit in `i32`. Every input that is 1..n with one number missing, and n(n+1) within `i32`, meets it (`MissingNumber.PremiseNoOverflow`);
  - `Calendar.CountDays` needs `InYear`.

  Wrapping is not modelled.
- **Retirement arithmetic** (`Retirement`). It is computed on unbounded integers, with Rust's truncating `/` and `%` written out. `i32` overflow of the month counts is not modelled.
- **`str_to_num` on a byte that is not a digit** (calc_time.rs:11) underflows. `TimeInfo.TimeInfo` requires `WellFormed`: three parts of decimal digits forming a valid date from year 1. A non-digit, an invalid date and year 0 are not modelled.
- TimeInfo.TimeInfo: its first ensures (`ValidTable(SpringFestival)`) only makes the third well-formed; it says nothing about the result.
- **Panic on a missing lunar-new-year entry** (calc_time.rs:128, 137, 160) is modelled as `None`. The table is a parameter, and `time_info` passes the two-entry table of lines 225-227.
- Trading.DateToTradingDays: the source's `while` loop has no bound. The model stops after `Trading.MaxSkip` (364) consecutive holidays. `None` covers both a table miss and reaching that bound, though no holiday set of one year holds that many days in a row.
- **`date_to_week_count` panics** at lines 54, 71 and 76. They are modelled by the `WeekNumber.WeekCountDefined` precondition of `WeekNumber.WeekCountAsWritten`.
- **The corrected definitions in `time_info`.** `TimeInfo.TimeInfo` is stated with the corrected week (`WeekNumber.IsoWeek`) and weekday (`DayOfWeek.Weekday`). `TimeInfo.ValuesAsWritten` proves these equal the code as written on every date a report is produced for. See "## Findings".
- **Floating point:**
  - `is_prime` bounds its loop by `(n as f64).sqrt() as u32` (conjecture.rs:7). The model uses the integer square root, which is the same value on every `u32`.
  - `format_age` prints `months as f64 / 12.0` with `{:.2}` (retirement.rs:116). The model writes the same digits in integer arithmetic, rounding to nearest; no month count lies halfway.
- **calc_logic.rs** (a floating-point probability exercise) is not part of this model.
- Conjecture.GoldbachConjecture: the source's search loop has no bound, and its termination depends on a number-theoretic fact. The model examines at most `candidates` odd numbers. It returns `None` if fewer than two counterexamples were found by then.
- PrimeFactor.FindMaxPrimeFactor: the contract does not claim the result is the largest prime factor.
  - The wheel starting at the last sieved prime, or its square, skips candidates. Only divisibility, and the result for a prime input, are proved.
  - Input 0 loops forever in the source. Inputs whose part left after stripping 2 and 3 is below 4 panic in the sieve or at `unwrap`. Both are excluded by the precondition.
- **`u128`/`u64` widths** in prime_factor.rs are not modelled.
- **Converter.ConvertBase with `to_base` outside 2..36.** For a non-zero value this is excluded by the precondition: 0 divides by zero, 1 loops forever, and above 36 the characters run past 'z'.
- **Parsing in `retire_time`.** The `unwrap` parsing of the birth date (retirement.rs:145-147) is left out. `Retirement.RetireTime` takes the parsed year and month.
- **District input:**
  - The file read and the line-based JSON scraping of `count_provinces` (district.rs:62-110) are left out. The province data is a parameter: a sequence of (city, listed cities) entries in place of the `HashMap`, whose iteration order is unspecified.
  - The final sort by province id and the joining of the counts with commas (district.rs:142-150) are left out.
- **Library sorts** (`sort_by` in algorithm18.rs:24). `MergeIntervals.SortByStart` is an insertion sort specified as a permutation ordered by start. It is one such order, and the result of `merge_intervals` does not depend on which.
- **`Box` ownership in the search tree.** A subtree is an immutable value, and `Insert` rebuilds the path it walks. The tree holds integers, not a generic `T: Ord`.

## Findings

| source | as written | input that shows it | evidently intended | confidence | as-written member | corrected member |
|---|---|---|---|---|---|---|
| exercises/hard/solutiont4/src/calc_time.rs:21-28 | January and February move to the previous year in `y` but keep the current century `c`. In years divisible by 400, `c/4` is not stepped back, and the weekday is one day late. | 2000-01-01 gives 7 (Sunday) | 6 (Saturday): the congruence with the previous year's century | not executed | DayOfWeek.AsWrittenCounterexample | DayOfWeek.WeekdayCorrect |
| exercises/hard/solutiont4/src/calc_time.rs:73 | For a year starting on Friday or Saturday, `(days + week_day - 3) / 7 + 1` counts one week too many on every day but Monday. | 2021-01-05 gives week 2 | ISO week 1: `(days + week_day - 2) / 7` | not executed | WeekNumber.CounterexampleFifthJanuary | WeekNumber.IsoWeekCorrect |
| exercises/hard/solutiont4/src/calc_time.rs:70 | The fall-back to the previous year tests the day of the month, not the day of the year, so the first days of every month fall back. | 2021-02-01 gives week 53 | ISO week 5: fall back only in the first days of January | not executed | WeekNumber.CounterexampleFirstFebruary | WeekNumber.IsoWeekFallsBack |
| exercises/hard/solutiont4/src/calc_time.rs:76 | For a year starting on Sunday, 1 January computes `1 + 0 - 2` in `u32`, which underflows. | 2023-01-01 panics | ISO week 52 of 2022: Sunday counted as 7, falling back to the previous 31 December | not executed | WeekNumber.CounterexampleSundayStart | WeekNumber.IsoWeekBefore |
