/** `retire_time` and `calc` (exercises/hard/solutiont5/src/retirement.rs): the
    retirement month under the gradual-delay policy, as month arithmetic on
    `i32` with Rust's truncating `/` and `%`. */
module Retirement {
  import Arith
  import Text

  /** `Policy`: years of work before retirement, the first birth year the
      delay applies to, and the longest delay in months. */
  datatype Policy = Policy(baseWorkYears: int, startDelayYear: int, maxDelayMonths: int)

  const Male: Policy := Policy(60, 1965, 36)
  const Female55: Policy := Policy(55, 1970, 36)
  const Female50: Policy := Policy(50, 1975, 60)

  /** The numbers `calc` prints: the retirement year and month, the months
      worked and the months of delay. */
  datatype Outcome = Outcome(year: int, month: int, workedMonths: int, delay: int)

  /** `eligible_months`: months from January of the policy year to the
      birth month. */
  function EligibleMonths(birthYear: int, birthMonth: int, policyYear: int): (m: int)
    ensures birthYear >= policyYear && birthMonth >= 1 ==> m >= 0
  {
    (birthYear - policyYear) * 12 + birthMonth - 1
  }

  /** `min(eligible / 4 + 1, max_delay_months)`: one month of delay per four
      eligible months, the first month included, capped. */
  function Delay(eligible: int, maxDelay: int): (d: int)
    ensures d <= maxDelay
    ensures eligible >= 0 && maxDelay >= 1 ==> 1 <= d
  {
    var grown := Arith.Quot(eligible, 4) + 1;
    if grown < maxDelay then grown else maxDelay
  }

  /** `retirement_year`: the policy year plus the whole years in `months`,
      rounded toward zero. */
  function RetirementYear(policyYear: int, months: int): (y: int)
    ensures 0 <= months ==> 12 * (y - policyYear) <= months < 12 * (y - policyYear) + 12
    ensures months < 0 ==> 12 * (y - policyYear) - 12 < months <= 12 * (y - policyYear)
  {
    policyYear + Arith.Quot(months, 12)
  }

  /** `retirement_month`: `months % 12 + 1`. */
  function RetirementMonth(months: int): (m: int)
    ensures months >= 0 ==> 1 <= m <= 12
  {
    Arith.Rem(months, 12) + 1
  }

  /** Year and month together give back the month count, for every count
      (the truncating quotient and remainder still recombine). */
  lemma YearMonthInverse(policyYear: int, months: int)
    ensures (RetirementYear(policyYear, months) - policyYear) * 12 + RetirementMonth(months) - 1 == months
  {
  }

  /** The delayed branch of `calc`. Retirement comes `base` years plus the
      delay after the birth month, and exactly those months are counted as
      worked. */
  function Plan(year: int, month: int, policy: Policy): (o: Outcome)
    ensures o.delay == Delay(EligibleMonths(year, month, policy.startDelayYear), policy.maxDelayMonths)
    ensures o.year * 12 + o.month - 1 == year * 12 + month - 1 + policy.baseWorkYears * 12 + o.delay
    ensures o.workedMonths == policy.baseWorkYears * 12 + o.delay
  {
    var eligible := EligibleMonths(year, month, policy.startDelayYear);
    var delay := Delay(eligible, policy.maxDelayMonths);
    var total := eligible + policy.baseWorkYears * 12 + delay;
    YearMonthInverse(policy.startDelayYear, total);
    Outcome(RetirementYear(policy.startDelayYear, total), RetirementMonth(total), total - eligible, delay)
  }

  /** For a birth on or after the policy year (month 1 to 12) under a policy
      with a positive cap, the delay is 1 to the cap and the month is a real
      month. */
  lemma PlanBounds(year: int, month: int, policy: Policy)
    requires year >= policy.startDelayYear && 1 <= month <= 12
    requires policy.maxDelayMonths >= 1 && policy.baseWorkYears >= 0
    ensures var o := Plan(year, month, policy);
      && 1 <= o.delay <= policy.maxDelayMonths
      && 1 <= o.month <= 12
      && o.year >= year + policy.baseWorkYears
  {
    var o := Plan(year, month, policy);
  }

  /** A later birth month is never delayed less. */
  lemma DelayMonotone(e1: int, e2: int, maxDelay: int)
    requires 0 <= e1 <= e2
    ensures Delay(e1, maxDelay) <= Delay(e2, maxDelay)
  {
    assert e1 / 4 <= e2 / 4;
  }

  /** `{}` for an integer. */
  function FormatInt(n: int): (s: string)
    ensures n >= 0 ==> Text.AllDecimal(s) && Text.ParseDecimal(s) == n
  {
    Text.FormatPadded(n, 0)
  }

  /** The hundredths of k / 12 rounded to the nearest (no k lies halfway). */
  function Hundredths(k: nat): (h: nat)
    requires k < 12
    ensures h < 100
    ensures 12 * h - 6 <= 100 * k < 12 * h + 6
  {
    (k * 100 + 6) / 12
  }

  /** `format_age`: whole years as an integer, otherwise years with two
      decimals. The source prints `months as f64 / 12.0` with `{:.2}`; the
      model writes the same digits in integer arithmetic. */
  function FormatAge(months: int): (s: string)
    ensures months >= 0 && months % 12 == 0 ==> Text.AllDecimal(s) && Text.ParseDecimal(s) * 12 == months
    ensures months < 0 && Arith.Rem(months, 12) != 0 ==> |s| >= 1 && s[0] == '-'
  {
    if Arith.Rem(months, 12) == 0 then FormatInt(Arith.Quot(months, 12))
    else if months < 0 then "-" + Fraction(-months)
    else Fraction(months)
  }

  /** Years with two decimals for a positive count that is not whole
      years. */
  function Fraction(a: nat): string
    requires a % 12 != 0
  {
    Text.FormatNat(a / 12) + "." + Text.PadZeros(Text.FormatNat(Hundredths(a % 12)), 2)
  }

  /** Other month counts carry the whole years, a decimal point and two
      digits of hundredths of a year, rounded. */
  lemma FormatAgeFraction(months: int)
    requires months >= 0 && months % 12 != 0
    ensures var s := FormatAge(months);
      && |s| >= 4 && s[|s| - 3] == '.'
      && Text.AllDecimal(s[..|s| - 3]) && Text.ParseDecimal(s[..|s| - 3]) == months / 12
      && Text.AllDecimal(s[|s| - 2..]) && Text.ParseDecimal(s[|s| - 2..]) == Hundredths(months % 12)
  {
    FormatAgeIsFraction(months);
    FractionLayout(months);
  }

  /** A positive count that is not whole years prints as `Fraction`. */
  lemma FormatAgeIsFraction(months: int)
    requires months >= 0 && months % 12 != 0
    ensures FormatAge(months) == Fraction(months)
  {
    assert Arith.Rem(months, 12) == months % 12;
  }

  /** The layout of `Fraction`: whole years, a point, two digits. */
  lemma FractionLayout(a: nat)
    requires a % 12 != 0
    ensures var s := Fraction(a);
      && |s| >= 4 && s[|s| - 3] == '.'
      && Text.AllDecimal(s[..|s| - 3]) && Text.ParseDecimal(s[..|s| - 3]) == a / 12
      && Text.AllDecimal(s[|s| - 2..]) && Text.ParseDecimal(s[|s| - 2..]) == Hundredths(a % 12)
  {
    var whole := Text.FormatNat(a / 12);
    var digits := Text.FormatNat(Hundredths(a % 12));
    var frac := Text.PadZeros(digits, 2);
    ShortFormat(Hundredths(a % 12));
    Text.ParseFormat(a / 12);
    Text.ParseFormat(Hundredths(a % 12));
    Text.ParsePadded(digits, 2);
    PointLayout(Fraction(a), whole, frac, a / 12, Hundredths(a % 12));
  }

  /** Whole part, point and two-digit fraction can be read off the end of
      the string. */
  lemma PointLayout(s: string, whole: string, frac: string, w: nat, h: nat)
    requires s == whole + "." + frac
    requires |whole| >= 1 && Text.AllDecimal(whole) && Text.ParseDecimal(whole) == w
    requires |frac| == 2 && Text.AllDecimal(frac) && Text.ParseDecimal(frac) == h
    ensures && |s| >= 4 && s[|s| - 3] == '.'
      && Text.AllDecimal(s[..|s| - 3]) && Text.ParseDecimal(s[..|s| - 3]) == w
      && Text.AllDecimal(s[|s| - 2..]) && Text.ParseDecimal(s[|s| - 2..]) == h
  {
    assert s[..|s| - 3] == whole;
    assert s[|s| - 2..] == frac;
  }

  /** A number below 100 has at most two decimal digits. */
  lemma ShortFormat(n: nat)
    requires n < 100
    ensures |Text.FormatNat(n)| <= 2
  {
    if n >= 10 {
      assert Text.ToDigits(n, 10) == Text.ToDigits(n / 10, 10) + [n % 10];
      assert Text.ToDigits(n / 10, 10) == Text.ToDigits(0, 10) + [n / 10];
    } else if n > 0 {
      assert Text.ToDigits(n, 10) == Text.ToDigits(0, 10) + [n];
    }
  }

  /** `"{:04}-{:02},{},{:.0}"` (the precision is ignored for an integer). */
  function Render(o: Outcome): string
  {
    Text.FormatPadded(o.year, 4) + "-" + Text.FormatPadded(o.month, 2) + ","
      + FormatAge(o.workedMonths) + "," + FormatInt(o.delay)
  }

  /** `base_retirement`: `"{:04}-{:02},{},0"`, which is the delayed format
      for `work_years` whole years worked and no delay. */
  function BaseRetirement(year: int, month: int, workYears: int): (s: string)
    ensures s == Render(Outcome(year + workYears, month, workYears * 12, 0))
  {
    var date := Text.FormatPadded(year + workYears, 4) + "-" + Text.FormatPadded(month, 2) + ",";
    WholeYearsAge(workYears);
    ZeroText();
    TrailingZero(date + FormatInt(workYears));
    date + FormatInt(workYears) + ",0"
  }

  /** A whole number of years prints as that number. */
  lemma WholeYearsAge(years: int)
    ensures FormatAge(years * 12) == FormatInt(years)
  {
    WholeYears(years);
  }

  lemma ZeroText()
    ensures FormatInt(0) == "0"
  {
    assert Text.FormatNat(0) == "0";
  }

  lemma TrailingZero(p: string)
    ensures p + "," + "0" == p + ",0"
  {
  }

  /** A whole number of years of months divides evenly. */
  lemma WholeYears(years: int)
    ensures Arith.Quot(years * 12, 12) == years && Arith.Rem(years * 12, 12) == 0
  {
  }

  /** `calc`: a birth year before the policy year retires after exactly the
      base years, in the birth month, with no delay; otherwise the delayed
      plan. Both branches print an Outcome. */
  function Calc(year: int, month: int, policy: Policy): (s: string)
    ensures year < policy.startDelayYear ==>
      s == Render(Outcome(year + policy.baseWorkYears, month, policy.baseWorkYears * 12, 0))
    ensures year >= policy.startDelayYear ==> s == Render(Plan(year, month, policy))
  {
    if year < policy.startDelayYear then
      var early := BaseRetirement(year, month, policy.baseWorkYears);
      assert early == Render(Outcome(year + policy.baseWorkYears, month, policy.baseWorkYears * 12, 0));
      early
    else Render(Plan(year, month, policy))
  }

  /** `retire_time` once the birth date is parsed: the person type selects
      the policy; any other type is "未知". */
  function RetireTime(year: int, month: int, tp: string): (s: string)
    ensures tp == "男职工" ==> s == Calc(year, month, Male)
    ensures tp == "原法定退休年龄55周岁女职工" ==> s == Calc(year, month, Female55)
    ensures tp == "原法定退休年龄50周岁女职工" ==> s == Calc(year, month, Female50)
    ensures tp !in {"男职工", "原法定退休年龄55周岁女职工", "原法定退休年龄50周岁女职工"} ==> s == "未知"
  {
    match tp
    case "男职工" => Calc(year, month, Male)
    case "原法定退休年龄55周岁女职工" => Calc(year, month, Female55)
    case "原法定退休年龄50周岁女职工" => Calc(year, month, Female50)
    case _ => "未知"
  }

  /** The worked example of the comment on `base_retirement`: a birth in
      March 1960 with 60 base years retires in March 2020. */
  lemma BaseExample()
    ensures BaseRetirement(1960, 3, 60) == "2020-03,60,0"
  {
    BaseFields(1960, 3, 60);
    YearField();
    MonthField();
    YearsField();
    ExampleText();
  }

  /** The fields of `base_retirement`, in print order. */
  lemma BaseFields(year: int, month: int, workYears: int)
    ensures BaseRetirement(year, month, workYears) ==
      Text.FormatPadded(year + workYears, 4) + "-" + Text.FormatPadded(month, 2) + "," + FormatInt(workYears) + ",0"
  {
  }

  lemma ExampleText()
    ensures "2020" + "-" + "03" + "," + "60" + ",0" == "2020-03,60,0"
  {
  }

  /** The worked examples of the comments on `eligible_months`,
      `retirement_year` and `retirement_month`: a birth in March 1975 under
      a 1970 policy has 62 eligible months, and 372 months after 1970 is
      January 2001. One more case of the delayed plan: a woman born in
      April 1971 under the 55-year policy retires in August 2026, four
      months late. */
  lemma Examples()
    ensures EligibleMonths(1975, 3, 1970) == 62
    ensures RetirementYear(1970, 372) == 2001 && RetirementMonth(372) == 1
    ensures Plan(1971, 4, Female55) == Outcome(2026, 8, 55 * 12 + 4, 4)
  {
  }

  lemma YearField()
    ensures Text.FormatPadded(2020, 4) == "2020"
  {
    PaddedNat(2020, 4);
    YearDigits();
  }

  lemma YearDigits()
    ensures Text.FormatNat(2020) == "2020"
  {
    YearDigitValues();
    YearDigitText();
  }

  lemma YearDigitValues()
    ensures Text.ToDigits(2020, 10) == [2, 0, 2, 0]
  {
    assert Text.ToDigits(2, 10) == [2];
    assert Text.ToDigits(20, 10) == [2, 0];
    assert Text.ToDigits(202, 10) == [2, 0, 2];
  }

  lemma YearDigitText()
    ensures Text.DigitString([2, 0, 2, 0]) == "2020"
  {
  }

  lemma MonthField()
    ensures Text.FormatPadded(3, 2) == "03"
  {
    PaddedNat(3, 2);
    MonthDigits();
    MonthPadding();
  }

  lemma MonthDigits()
    ensures Text.FormatNat(3) == "3"
  {
    assert Text.ToDigits(3, 10) == [3];
    assert Text.DigitString([3]) == "3";
  }

  lemma MonthPadding()
    ensures Text.PadZeros("3", 2) == "03"
  {
    assert seq(1, _ => '0') == "0";
  }

  /** `{:0N}` of a non-negative number pads its decimal digits. */
  lemma PaddedNat(n: nat, width: nat)
    ensures Text.FormatPadded(n, width) == Text.PadZeros(Text.FormatNat(n), width)
  {
  }

  lemma YearsField()
    ensures FormatInt(60) == "60"
  {
    assert Text.ToDigits(60, 10) == [6, 0] by {
      assert Text.ToDigits(6, 10) == [6];
    }
    assert Text.DigitString([6, 0]) == "60";
  }
}
