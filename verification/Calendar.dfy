/**
  Epoch seconds to a calendar date (Stripe bridge): the loop over years and months
  against the proleptic Gregorian calendar of ISO 8601:2004, section 3.2.1.
 */
module Calendar {

  const SECONDS_PER_DAY := 86_400

  predicate IsLeapYear(year: int) {
    (year % 4 == 0 && year % 100 != 0) || year % 400 == 0
  }

  function YearDays(year: int): int {
    if IsLeapYear(year) then 366 else 365
  }

  function MonthLengths(year: int): (months: seq<int>)
    ensures |months| == 12
  {
    if IsLeapYear(year)
    then [31, 29, 31, 30, 31, 30, 31, 31, 30, 31, 30, 31]
    else [31, 28, 31, 30, 31, 30, 31, 31, 30, 31, 30, 31]
  }

  /** A date; months and days count from one. */
  datatype Date = Date(year: int, month: int, day: int)

  predicate IsValid(d: Date) {
    1 <= d.month <= 12 && 1 <= d.day <= MonthLengths(d.year)[d.month - 1]
  }

  /** Days from 1970-01-01 to the first of January of `year`, in closed form. */
  function DaysBeforeYear(year: int): int {
    var y := year - 1;
    365 * y + y / 4 - y / 100 + y / 400 - 719162
  }

  /** Days from the first of January to the first of `month`, in closed form. */
  function DaysBeforeMonth(year: int, month: int): int {
    (367 * month - 362) / 12 - if month <= 2 then 0 else if IsLeapYear(year) then 1 else 2
  }

  /** The day number of a date, counted from 1970-01-01. */
  function DayNumber(d: Date): int {
    DaysBeforeYear(d.year) + DaysBeforeMonth(d.year, d.month) + d.day - 1
  }

  lemma YearStep(year: int)
    ensures DaysBeforeYear(year + 1) == DaysBeforeYear(year) + YearDays(year)
  {
    Quotient(year, 4);
    Quotient(year, 100);
    Quotient(year, 400);
  }

  /** Integer division steps up exactly at the multiples of the divisor. */
  lemma Quotient(n: int, k: int)
    requires k > 0
    ensures n / k == (n - 1) / k + if n % k == 0 then 1 else 0
  {
    var q, r := (n - 1) / k, (n - 1) % k;
    assert n == k * q + r + 1;
    if r + 1 == k {
      assert n == k * (q + 1);
      DivisionIs(n, k, q + 1, 0);
    } else {
      DivisionIs(n, k, q, r + 1);
    }
  }

  lemma DivisionIs(n: int, k: int, q: int, r: int)
    requires k > 0 && n == k * q + r && 0 <= r < k
    ensures n / k == q && n % k == r
  {
    var d := n / k - q;
    assert k * d == r - n % k;
    MultipleIsFar(k, d);
  }

  lemma MultipleIsFar(k: int, d: int)
    requires k > 0
    ensures d >= 1 ==> k * d >= k
    ensures d <= -1 ==> k * d <= -k
  {
  }

  lemma MonthStep(year: int, month: int)
    requires 1 <= month <= 12
    ensures DaysBeforeMonth(year, month + 1) == DaysBeforeMonth(year, month) + MonthLengths(year)[month - 1] ||
      month == 12
    ensures month == 12 ==> DaysBeforeMonth(year, 12) + MonthLengths(year)[11] == YearDays(year)
  {
    if month == 1 {} else if month == 2 {} else if month == 3 {} else if month == 4 {} else if month == 5 {}
    else if month == 6 {} else if month == 7 {} else if month == 8 {} else if month == 9 {}
    else if month == 10 {} else if month == 11 {}
  }

  // ----------------------------------------------------------- uniqueness

  lemma {:induction false} YearsMonotone(a: int, b: int)
    requires a <= b
    ensures DaysBeforeYear(a) + 365 * (b - a) <= DaysBeforeYear(b)
    decreases b - a
  {
    if a < b {
      YearsMonotone(a, b - 1);
      YearStep(b - 1);
    }
  }

  lemma {:induction false} MonthsMonotone(year: int, a: int, b: int)
    requires 1 <= a <= b <= 12
    ensures a < b ==> DaysBeforeMonth(year, a) + MonthLengths(year)[a - 1] <= DaysBeforeMonth(year, b)
    ensures DaysBeforeMonth(year, a) <= DaysBeforeMonth(year, b)
    decreases b - a
  {
    if a < b {
      MonthsMonotone(year, a, b - 1);
      MonthStep(year, b - 1);
    }
  }

  /** A valid date lies inside its year. */
  lemma DateWithinYear(d: Date)
    requires IsValid(d)
    ensures DaysBeforeYear(d.year) <= DayNumber(d) < DaysBeforeYear(d.year + 1)
  {
    YearStep(d.year);
    MonthsMonotone(d.year, 1, d.month);
    MonthsMonotone(d.year, d.month, 12);
    MonthStep(d.year, 12);
  }

  /** Calendar order: year, then month, then day. */
  predicate Earlier(d: Date, e: Date) {
    d.year < e.year || (d.year == e.year && (d.month < e.month || (d.month == e.month && d.day < e.day)))
  }

  lemma EarlierYearIsLess(d: Date, e: Date)
    requires IsValid(d) && IsValid(e) && d.year < e.year
    ensures DayNumber(d) < DayNumber(e)
  {
    DateWithinYear(d);
    DateWithinYear(e);
    YearsMonotone(d.year + 1, e.year);
  }

  lemma EarlierInYearIsLess(d: Date, e: Date)
    requires IsValid(d) && IsValid(e) && d.year == e.year && d.month < e.month
    ensures DayNumber(d) < DayNumber(e)
  {
    MonthsMonotone(d.year, d.month, e.month);
  }

  lemma EarlierIsLess(d: Date, e: Date)
    requires IsValid(d) && IsValid(e) && Earlier(d, e)
    ensures DayNumber(d) < DayNumber(e)
  {
    if d.year < e.year {
      EarlierYearIsLess(d, e);
    } else if d.month < e.month {
      EarlierInYearIsLess(d, e);
    }
  }

  /** Day numbers order valid dates as the calendar does, and no two share one. */
  lemma DayNumberOrders(d: Date, e: Date)
    requires IsValid(d) && IsValid(e)
    ensures DayNumber(d) < DayNumber(e) <==> Earlier(d, e)
    ensures DayNumber(d) == DayNumber(e) <==> d == e
  {
    if Earlier(d, e) {
      EarlierIsLess(d, e);
    } else if Earlier(e, d) {
      EarlierIsLess(e, d);
    }
  }

  /** The day after a date, as a calendar turns its pages. */
  function NextDay(d: Date): Date
    requires IsValid(d)
  {
    if d.day < MonthLengths(d.year)[d.month - 1] then d.(day := d.day + 1)
    else if d.month < 12 then Date(d.year, d.month + 1, 1)
    else Date(d.year + 1, 1, 1)
  }

  /** Day zero is 1970-01-01, and each day's number is one more than the day's before. */
  lemma DayNumberCountsDays(d: Date)
    requires IsValid(d)
    ensures IsValid(Date(1970, 1, 1)) && DayNumber(Date(1970, 1, 1)) == 0
    ensures IsValid(NextDay(d)) && DayNumber(NextDay(d)) == DayNumber(d) + 1
  {
    MonthStep(d.year, d.month);
    YearStep(d.year);
  }

  // ------------------------------------------------------------- conversion

  /** `unix_to_yyyy_mm_dd_utc`, up to the formatting of its result. */
  method CivilFromEpoch(epoch: int) returns (d: Date)
    ensures IsValid(d)
    ensures DayNumber(d) == epoch / SECONDS_PER_DAY
    ensures forall e :: IsValid(e) && DayNumber(e) == epoch / SECONDS_PER_DAY ==> e == d
  {
    var days := epoch / SECONDS_PER_DAY;
    var year := 1970;
    ghost var target := days;
    while days < 0 || days >= YearDays(year)
      invariant DaysBeforeYear(year) + days == target
      decreases if days < 0 then 367 - days else days
    {
      if days >= YearDays(year) {
        YearStep(year);
        days := days - YearDays(year);
        year := year + 1;
      } else {
        YearStep(year - 1);
        year := year - 1;
        days := days + YearDays(year);
      }
    }
    var months := MonthLengths(year);
    var month := 0;
    while month < 12 && days >= months[month]
      invariant 0 <= month <= 12 && days >= 0
      invariant month < 12 ==> DaysBeforeYear(year) + DaysBeforeMonth(year, month + 1) + days == target
      invariant month < 12 ==> DaysBeforeMonth(year, month + 1) + days < YearDays(year)
      invariant month < 12
      decreases 12 - month
    {
      MonthStep(year, month + 1);
      days := days - months[month];
      month := month + 1;
    }
    d := Date(year, month + 1, days + 1);
    forall e | IsValid(e) && DayNumber(e) == target ensures e == d {
      DayNumberOrders(d, e);
    }
  }
}
