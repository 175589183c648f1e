/** Printed dates, and the validity windows that compare them as texts. */
module DateText {
  import opened Calendar
  import opened Digits
  import opened JsonModel
  import opened Text

  /** Rust's `{:0width$}`: a sign counts towards the width. */
  function PadInt(n: int, width: nat): string {
    if n < 0 then "-" + Pad(ToDigits(-n), if width == 0 then 0 else width - 1) else Pad(ToDigits(n), width)
  }

  function FormatDate(d: Date): string
    requires d.month >= 0 && d.day >= 0
  {
    PadInt(d.year, 4) + "-" + PadInt(d.month, 2) + "-" + PadInt(d.day, 2)
  }

  /** `unix_to_yyyy_mm_dd_utc`. */
  method UnixToDateText(epoch: int) returns (text: string)
    ensures exists d :: IsValid(d) && DayNumber(d) == epoch / SECONDS_PER_DAY && text == FormatDate(d)
  {
    var d := CivilFromEpoch(epoch);
    text := FormatDate(d);
  }

  lemma PadIntFixed(n: nat, width: nat)
    requires width >= 1 && n < Pow10(width)
    ensures |PadInt(n, width)| == width && AllDigits(PadInt(n, width)) && FromDigits(PadInt(n, width)) == n
  {
    DigitCount(n, width);
    FromToDigits(n);
    PadKeepsValue(ToDigits(n), width);
  }

  lemma PowersUsed()
    ensures Pow10(2) == 100 && Pow10(4) == 10_000
  {
    assert Pow10(1) == 10 && Pow10(3) == 1000;
  }

  /** The date texts that `YYYY-MM-DD` with four digits can hold. */
  predicate InRange(d: Date) {
    IsValid(d) && 0 <= d.year <= 9999
  }

  /** Two-part keys with a fixed-width numeric head compare by number first. */
  lemma HeadThenRest(m: nat, n: nat, width: nat, x: string, y: string)
    requires width >= 1 && m < Pow10(width) && n < Pow10(width)
    ensures LexLe(PadInt(m, width) + x, PadInt(n, width) + y) <==> m < n || (m == n && LexLe(x, y))
  {
    PadIntFixed(m, width);
    PadIntFixed(n, width);
    var a, b := PadInt(m, width), PadInt(n, width);
    LexConcat(a, b, x, y);
    LexIsNumeric(a, b);
  }

  lemma SameDash(x: string, y: string)
    ensures LexLe("-" + x, "-" + y) <==> LexLe(x, y)
  {
    LexConcat("-", "-", x, y);
  }

  lemma DatePieces(d: Date)
    requires d.month >= 0 && d.day >= 0
    ensures FormatDate(d) == PadInt(d.year, 4) + ("-" + MonthAndDay(d))
  {
  }

  lemma DaysCompare(d: Date, e: Date)
    requires IsValid(d) && IsValid(e)
    ensures LexLe(PadInt(d.day, 2) + "", PadInt(e.day, 2) + "") <==> d.day <= e.day
  {
    PowersUsed();
    HeadThenRest(d.day, e.day, 2, "", "");
  }

  function MonthAndDay(d: Date): string
    requires d.month >= 0 && d.day >= 0
  {
    PadInt(d.month, 2) + ("-" + (PadInt(d.day, 2) + ""))
  }

  lemma MonthsCompare(d: Date, e: Date)
    requires IsValid(d) && IsValid(e)
    ensures LexLe(MonthAndDay(d), MonthAndDay(e)) <==> d.month < e.month || (d.month == e.month && d.day <= e.day)
  {
    PowersUsed();
    DaysCompare(d, e);
    SameDash(PadInt(d.day, 2) + "", PadInt(e.day, 2) + "");
    HeadThenRest(d.month, e.month, 2, "-" + (PadInt(d.day, 2) + ""), "-" + (PadInt(e.day, 2) + ""));
  }

  /** Text order is day order. */
  lemma TextOrderIsDayOrder(d: Date, e: Date)
    requires InRange(d) && InRange(e)
    ensures LexLe(FormatDate(d), FormatDate(e)) <==> DayNumber(d) <= DayNumber(e)
  {
    PowersUsed();
    DatePieces(d);
    DatePieces(e);
    MonthsCompare(d, e);
    SameDash(MonthAndDay(d), MonthAndDay(e));
    HeadThenRest(d.year, e.year, 4, "-" + MonthAndDay(d), "-" + MonthAndDay(e));
    DayNumberOrders(d, e);
  }

  /** A printed date is `YYYY-MM-DD`: its fields stand where they should and read back. */
  lemma FieldsReadBack(d: Date)
    requires InRange(d)
    ensures var s := FormatDate(d);
      |s| == 10 && s[4] == '-' && s[7] == '-' &&
      AllDigits(s[..4]) && AllDigits(s[5..7]) && AllDigits(s[8..]) &&
      FromDigits(s[..4]) == d.year && FromDigits(s[5..7]) == d.month && FromDigits(s[8..]) == d.day
  {
    PowersUsed();
    PadIntFixed(d.year, 4);
    PadIntFixed(d.month, 2);
    PadIntFixed(d.day, 2);
    FieldsApart(PadInt(d.year, 4), PadInt(d.month, 2), PadInt(d.day, 2));
  }

  lemma FieldsApart(y: string, m: string, d: string)
    requires |y| == 4 && |m| == 2 && |d| == 2
    ensures var s := y + "-" + m + "-" + d;
      |s| == 10 && s[4] == '-' && s[7] == '-' && s[..4] == y && s[5..7] == m && s[8..] == d
  {
  }

  // ------------------------------------------------------- validity windows

  /** `entry_valid_on`: a bound that is absent or not a text does not restrict. */
  predicate EntryValidOn(entry: map<string, Json>, date: string) {
    ("valid_from" in entry && entry["valid_from"].Str? ==> LexLe(entry["valid_from"].text, date)) &&
    ("valid_until" in entry && entry["valid_until"].Str? ==> LexLe(date, entry["valid_until"].text))
  }

  datatype Bound = Open | At(date: Date)

  /** The member `key` is a printed date, or does not restrict. */
  predicate HasBound(entry: map<string, Json>, key: string, bound: Bound) {
    match bound
    case Open => key in entry ==> !entry[key].Str?
    case At(d) => InRange(d) && key in entry && entry[key] == Str(FormatDate(d))
  }

  /** The window accepts exactly the days of its closed interval. */
  lemma WindowIsClosedInterval(entry: map<string, Json>, from: Bound, until: Bound, d: Date)
    requires HasBound(entry, "valid_from", from) && HasBound(entry, "valid_until", until) && InRange(d)
    ensures EntryValidOn(entry, FormatDate(d)) <==>
      (from.At? ==> DayNumber(from.date) <= DayNumber(d)) && (until.At? ==> DayNumber(d) <= DayNumber(until.date))
  {
    if from.At? {
      TextOrderIsDayOrder(from.date, d);
    }
    if until.At? {
      TextOrderIsDayOrder(d, until.date);
    }
  }

  lemma FirstDigits()
    ensures ToDigits(10000)[0] == '1' && ToDigits(9999)[0] == '9'
  {
    assert ToDigits(1) == "1" && ToDigits(10)[0] == '1' && ToDigits(100)[0] == '1' && ToDigits(1000)[0] == '1';
    assert ToDigits(9) == "9" && ToDigits(99)[0] == '9' && ToDigits(999)[0] == '9';
  }

  /** One year later the text order turns round: 10000-01-01 sorts before 9999-12-31. */
  lemma OrderEndsWithYear9999(last: Date, next: Date)
    requires last == Date(9999, 12, 31) && next == Date(10000, 1, 1)
    ensures DayNumber(next) == DayNumber(last) + 1 && LexLe(FormatDate(next), FormatDate(last))
  {
    DayNumberCountsDays(last);
    FirstDigits();
    PowersUsed();
    DigitCount(10000, 4);
    DigitCount(9999, 4);
    DigitCount(9999, 3);
    assert Pow10(3) == 1000;
    assert FormatDate(next)[0] == '1' && FormatDate(last)[0] == '9';
  }

  // ------------------------------------------------- how far text order goes

  /** A year before year 0 prints a sign, any other year a digit. */
  lemma SignFirst(d: Date)
    requires IsValid(d)
    ensures FormatDate(d) != "" && if d.year < 0 then FormatDate(d)[0] == '-' else IsDigitChar(FormatDate(d)[0])
  {
    DatePieces(d);
    assert d.year >= 0 ==> AllDigits(PadInt(d.year, 4));
  }

  /** Two dates of one year compare by month and day, whatever the sign of the year. */
  lemma SameYearCompares(d: Date, e: Date)
    requires IsValid(d) && IsValid(e) && d.year == e.year
    ensures LexLe(FormatDate(d), FormatDate(e)) <==> DayNumber(d) <= DayNumber(e)
  {
    hide PadInt, MonthAndDay, LexLe;
    DatePieces(d);
    DatePieces(e);
    LexConcat(PadInt(d.year, 4), PadInt(e.year, 4), "-" + MonthAndDay(d), "-" + MonthAndDay(e));
    SameDash(MonthAndDay(d), MonthAndDay(e));
    MonthsCompare(d, e);
    DayNumberOrders(d, e);
  }

  /** The sign of year -1 sorts before every digit. */
  lemma TextOrderFromYearMinusOne(d: Date, e: Date)
    requires IsValid(d) && IsValid(e) && -1 <= d.year <= 9999 && -1 <= e.year <= 9999
    ensures LexLe(FormatDate(d), FormatDate(e)) <==> DayNumber(d) <= DayNumber(e)
  {
    hide FormatDate, DayNumber;
    if d.year == e.year {
      SameYearCompares(d, e);
    } else if 0 <= d.year && 0 <= e.year {
      TextOrderIsDayOrder(d, e);
    } else {
      SignFirst(d);
      SignFirst(e);
      FirstCharDecides(FormatDate(d), FormatDate(e));
      DayNumberOrders(d, e);
    }
  }

  lemma FirstCharDecides(a: string, b: string)
    requires a != "" && b != "" && a[0] != b[0]
    ensures LexLe(a, b) <==> a[0] < b[0]
  {
  }

  /** Before year -1 the text order turns round: -001-12-31 sorts before -002-01-01. */
  lemma OrderStartsWithYearMinusOne(before: Date, after: Date)
    requires before == Date(-2, 1, 1) && after == Date(-1, 12, 31)
    ensures DayNumber(before) < DayNumber(after) && LexLe(FormatDate(after), FormatDate(before))
  {
    hide LexLe;
    PowersUsed();
    assert Pow10(3) == 1000;
    var x, y := "-" + MonthAndDay(after), "-" + MonthAndDay(before);
    DatePieces(before);
    DatePieces(after);
    HeadThenRest(1, 2, 3, x, y);
    assert FormatDate(after) == "-" + (PadInt(1, 3) + x) && FormatDate(before) == "-" + (PadInt(2, 3) + y);
    SameDash(PadInt(1, 3) + x, PadInt(2, 3) + y);
    DayNumberOrders(after, before);
  }

  /** In the years from `lo` to `hi`, text order is day order. */
  ghost predicate TextOrderHolds(lo: int, hi: int) {
    forall d, e :: IsValid(d) && IsValid(e) && lo <= d.year <= hi && lo <= e.year <= hi ==>
      (LexLe(FormatDate(d), FormatDate(e)) <==> DayNumber(d) <= DayNumber(e))
  }

  /** Over a range that meets the years -1 to 9999, text order is day order exactly when it does not leave them. */
  lemma TextOrderHoldsExactly(lo: int, hi: int)
    requires lo <= hi && lo <= 9999 && -1 <= hi
    ensures TextOrderHolds(lo, hi) <==> -1 <= lo && hi <= 9999
  {
    hide FormatDate, LexLe, DayNumber;
    if -1 <= lo && hi <= 9999 {
      forall d, e | IsValid(d) && IsValid(e) && lo <= d.year <= hi && lo <= e.year <= hi
        ensures LexLe(FormatDate(d), FormatDate(e)) <==> DayNumber(d) <= DayNumber(e)
      {
        TextOrderFromYearMinusOne(d, e);
      }
    } else if hi > 9999 {
      var last, next := Date(9999, 12, 31), Date(10000, 1, 1);
      OrderEndsWithYear9999(last, next);
      assert IsValid(last) && IsValid(next);
    } else {
      var before, after := Date(-2, 1, 1), Date(-1, 12, 31);
      OrderStartsWithYearMinusOne(before, after);
      assert IsValid(before) && IsValid(after);
    }
  }

  /** In any year: month and day stand in the last six characters, the year before them, with a sign below zero. */
  lemma AnyYearReadsBack(d: Date)
    requires IsValid(d)
    ensures var s := FormatDate(d);
      |s| >= 10 && s[|s| - 6] == '-' && s[|s| - 3] == '-' &&
      AllDigits(s[|s| - 5..|s| - 3]) && FromDigits(s[|s| - 5..|s| - 3]) == d.month &&
      AllDigits(s[|s| - 2..]) && FromDigits(s[|s| - 2..]) == d.day &&
      var year := s[..|s| - 6];
      if d.year < 0 then year[0] == '-' && AllDigits(year[1..]) && FromDigits(year[1..]) == -d.year
      else AllDigits(year) && FromDigits(year) == d.year
  {
    hide Pow10, ToDigits, FromDigits;
    var y, m, day := PadInt(d.year, 4), PadInt(d.month, 2), PadInt(d.day, 2);
    YearText(d.year);
    TwoDigits(d.month);
    TwoDigits(d.day);
    EndsApart(y, m, day);
  }

  lemma TwoDigits(n: int)
    requires 1 <= n <= 31
    ensures |PadInt(n, 2)| == 2 && AllDigits(PadInt(n, 2)) && FromDigits(PadInt(n, 2)) == n
  {
    PowersUsed();
    PadIntFixed(n, 2);
  }

  lemma YearText(year: int)
    ensures var y := PadInt(year, 4);
      |y| >= 4 && if year < 0 then y[0] == '-' && AllDigits(y[1..]) && FromDigits(y[1..]) == -year
      else AllDigits(y) && FromDigits(y) == year
  {
    hide Pow10, ToDigits, FromDigits;
    var magnitude := if year < 0 then -year else year;
    FromToDigits(magnitude);
    PadKeepsValue(ToDigits(magnitude), if year < 0 then 3 else 4);
    assert year < 0 ==> PadInt(year, 4)[1..] == Pad(ToDigits(magnitude), 3);
  }

  lemma EndsApart(y: string, m: string, d: string)
    requires |m| == 2 && |d| == 2
    ensures var s := y + "-" + m + "-" + d;
      |s| == |y| + 6 && s[|s| - 6] == '-' && s[|s| - 3] == '-' && s[..|s| - 6] == y &&
      s[|s| - 5..|s| - 3] == m && s[|s| - 2..] == d
  {
  }
}
