/** What the trainer's attendance page (client/src/pages/TrainerAttendance.tsx) computes
    before it asks `attendance.getStats`: the date range of the selected month of the current
    year, the colour band of a percentage and the label of a player's category. Dates are
    local calendar times of the proleptic Gregorian calendar, as JavaScript's `Date`
    constructor takes them; months are 0-based as there. */
module AttendancePage {
  import opened Wrappers

  datatype Date = Date(year: int, month: int, day: int)

  datatype LocalDateTime = LocalDateTime(date: Date, hour: int, minute: int, second: int)

  predicate IsLeapYear(y: int) {
    y % 4 == 0 && (y % 100 != 0 || y % 400 == 0)
  }

  function DaysInMonth(y: int, m: int): (n: int)
    requires 0 <= m < 12
    ensures 28 <= n <= 31
    ensures m == 1 ==> (n == 29 <==> IsLeapYear(y)) && (n == 28 <==> !IsLeapYear(y))
    ensures m != 1 ==> n == (if m in {3, 5, 8, 10} then 30 else 31)
  {
    if m == 1 then (if IsLeapYear(y) then 29 else 28)
    else if m == 3 || m == 5 || m == 8 || m == 10 then 30
    else 31
  }

  /** The days of the months before month `m` of year `y`. */
  function DaysBefore(y: int, m: int): (n: nat)
    requires 0 <= m <= 12
    ensures 28 * m <= n <= 31 * m
  {
    if m == 0 then 0 else DaysBefore(y, m - 1) + DaysInMonth(y, m - 1)
  }

  /** The twelve month lengths add up to the length of the Gregorian year: 366 days in a
      leap year and 365 otherwise. */
  lemma {:induction false} YearLength(y: int)
    ensures DaysBefore(y, 12) == if IsLeapYear(y) then 366 else 365
  {
    assert DaysBefore(y, 2) == 31 + DaysInMonth(y, 1);
    assert DaysBefore(y, 4) == DaysBefore(y, 2) + 31 + 30;
    assert DaysBefore(y, 6) == DaysBefore(y, 4) + 31 + 30;
    assert DaysBefore(y, 8) == DaysBefore(y, 6) + 31 + 31;
    assert DaysBefore(y, 10) == DaysBefore(y, 8) + 30 + 31;
    assert DaysBefore(y, 12) == DaysBefore(y, 10) + 30 + 31;
  }

  /** A day that exists in the calendar. */
  predicate ValidDate(d: Date) {
    0 <= d.month < 12 && 1 <= d.day <= DaysInMonth(d.year, d.month)
  }

  /** Day `d` (at most the month's length) counted back into earlier months while it is below 1. */
  function NormalizeDown(y: int, m: int, d: int): (r: Date)
    requires 0 <= m < 12 && d <= DaysInMonth(y, m)
    ensures ValidDate(r)
    decreases if d < 1 then 1 - d else 0
  {
    if d >= 1 then Date(y, m, d)
    else if m == 0 then NormalizeDown(y - 1, 11, d + DaysInMonth(y - 1, 11))
    else NormalizeDown(y, m - 1, d + DaysInMonth(y, m - 1))
  }

  /** Day `d` (at least 1) carried forward into later months while it exceeds the month's length. */
  function NormalizeUp(y: int, m: int, d: int): (r: Date)
    requires 0 <= m < 12 && d >= 1
    ensures ValidDate(r)
    decreases d
  {
    if d <= DaysInMonth(y, m) then Date(y, m, d)
    else if m == 11 then NormalizeUp(y + 1, 0, d - DaysInMonth(y, m))
    else NormalizeUp(y, m + 1, d - DaysInMonth(y, m))
  }

  /** The date `new Date(y, m, d)` denotes for a year `y` outside 0..99, which JavaScript
      reads as 1900 + y; the page always passes `getFullYear()`. A month outside 0..11 moves
      the year, and a day outside the month moves into the neighbouring months (day 0 is the
      previous month's last day). */
  function MakeDate(y: int, m: int, d: int): (r: Date)
    ensures ValidDate(r)
    ensures ValidDate(Date(y, m, d)) ==> r == Date(y, m, d)
  {
    var y1 := y + m / 12;
    var m1 := m % 12;
    assert 0 <= m < 12 ==> y1 == y && m1 == m;
    if d < 1 then NormalizeDown(y1, m1, d) else NormalizeUp(y1, m1, d)
  }

  /** Day 0 of the month after the first of month `m` is the last day of the first's month,
      for any month number, including those the constructor carries into another year. */
  lemma DayZeroIsLastDay(y: int, m: int)
    ensures var first := MakeDate(y, m, 1);
      MakeDate(y, m + 1, 0) == Date(first.year, first.month, DaysInMonth(first.year, first.month))
  {
    var q, k := m / 12, m % 12;
    assert m == 12 * q + k && 0 <= k < 12;
    assert MakeDate(y, m, 1) == Date(y + q, k, 1);
    if k == 11 {
      assert m + 1 == 12 * (q + 1) + 0;
      assert (m + 1) / 12 == q + 1 && (m + 1) % 12 == 0;
    } else {
      assert m + 1 == 12 * q + (k + 1);
      assert (m + 1) / 12 == q && (m + 1) % 12 == k + 1;
    }
  }

  /** Strictly earlier, field by field from the year down to the second. */
  predicate Before(a: LocalDateTime, b: LocalDateTime) {
    || a.date.year < b.date.year
    || (a.date.year == b.date.year && a.date.month < b.date.month)
    || (a.date.year == b.date.year && a.date.month == b.date.month && a.date.day < b.date.day)
    || (a.date == b.date && a.hour < b.hour)
    || (a.date == b.date && a.hour == b.hour && a.minute < b.minute)
    || (a.date == b.date && a.hour == b.hour && a.minute == b.minute && a.second < b.second)
  }

  predicate IsDigit(c: char) {
    '0' <= c <= '9'
  }

  /** How many decimal digits `s` starts with. */
  function LeadingDigits(s: string): (n: nat)
    ensures n <= |s|
    ensures forall i :: 0 <= i < n ==> IsDigit(s[i])
    ensures n < |s| ==> !IsDigit(s[n])
  {
    if s == [] || !IsDigit(s[0]) then 0 else 1 + LeadingDigits(s[1..])
  }

  /** The number a string of decimal digits writes. */
  function DigitsValue(s: string): (v: nat)
    requires forall i :: 0 <= i < |s| ==> IsDigit(s[i])
  {
    if s == [] then 0
    else
      assert IsDigit(s[|s| - 1]);
      10 * DigitsValue(s[..|s| - 1]) + (s[|s| - 1] as int - '0' as int)
  }

  /** `parseInt(s)` for a string that starts with its digits: the value of the leading digits,
      or None (NaN) when there are none. */
  function ParseInt(s: string): (r: Option<nat>)
    ensures r.None? <==> s == [] || !IsDigit(s[0])
  {
    var n := LeadingDigits(s);
    if n == 0 then None else Some(DigitsValue(s[..n]))
  }

  /** The `value`s of the month dropdown. */
  const PeriodOptions: seq<string> := ["all", "0", "1", "2", "3", "4", "5", "6", "7", "8", "9", "10", "11"]

  /** Option `1 + k` of the dropdown parses to month index `k`. */
  lemma PeriodOptionsParse()
    ensures forall k :: 0 <= k < 12 ==> ParseInt(PeriodOptions[k + 1]) == Some(k)
  {
    forall k | 0 <= k < 12 ensures ParseInt(PeriodOptions[k + 1]) == Some(k) {
      var s := PeriodOptions[k + 1];
      if k < 10 {
        assert s == [('0' as int + k) as char];
        assert LeadingDigits(s) == 1;
        assert s[..1] == s;
        assert DigitsValue(s[..0]) == 0;
      } else {
        assert s == ['1', ('0' as int + k - 10) as char];
        assert LeadingDigits(s[1..]) == 1;
        assert s[..2] == s && s[..2][..1] == ['1'];
        assert DigitsValue(['1']) == 10 * DigitsValue([]) + 1;
      }
    }
  }

  /** What getDateRange hands to `attendance.getStats`. */
  datatype DateRange =
    | Unbounded
    | Between(start: LocalDateTime, end: LocalDateTime)
    // `new Date(y, NaN, 1).toISOString()` throws
    | InvalidDate

  /** getDateRange: no bounds for "all"; otherwise from the first of the selected month of
      the current year at 00:00:00 to the last day of that month at 23:59:59. */
  function GetDateRange(selectedMonth: string, currentYear: int): (r: DateRange)
    ensures selectedMonth == "all" <==> r == Unbounded
    ensures r == InvalidDate <==> selectedMonth != "all" && ParseInt(selectedMonth).None?
    ensures r.Between? ==>
      && ValidDate(r.start.date) && ValidDate(r.end.date) && Before(r.start, r.end)
      && r.start.date.day == 1 && r.start.hour == 0 && r.start.minute == 0 && r.start.second == 0
      && r.end.date == Date(r.start.date.year, r.start.date.month, DaysInMonth(r.start.date.year, r.start.date.month))
      && r.end.hour == 23 && r.end.minute == 59 && r.end.second == 59
    ensures r.Between? && ParseInt(selectedMonth).value < 12 ==>
      r.start.date == Date(currentYear, ParseInt(selectedMonth).value, 1)
  {
    if selectedMonth == "all" then Unbounded
    else match ParseInt(selectedMonth)
      case None => InvalidDate
      case Some(m) =>
        DayZeroIsLastDay(currentYear, m);
        var start := LocalDateTime(MakeDate(currentYear, m, 1), 0, 0, 0);
        var end := LocalDateTime(MakeDate(currentYear, m + 1, 0), 23, 59, 59);
        Between(start, end)
  }

  /** Every entry of the dropdown gives a well-formed range; entry `1 + k` covers month `k` of
      the current year, and February ends on the 29th exactly in leap years. */
  lemma OptionRanges(currentYear: int, k: nat)
    requires k < 12
    ensures GetDateRange(PeriodOptions[0], currentYear) == Unbounded
    ensures var r := GetDateRange(PeriodOptions[k + 1], currentYear);
      && r.Between?
      && r.start == LocalDateTime(Date(currentYear, k, 1), 0, 0, 0)
      && r.end == LocalDateTime(Date(currentYear, k, DaysInMonth(currentYear, k)), 23, 59, 59)
    ensures k == 1 ==> GetDateRange(PeriodOptions[2], currentYear).end.date.day == if IsLeapYear(currentYear) then 29 else 28
  {
    PeriodOptionsParse();
    var option := PeriodOptions[k + 1];
    assert option != "all" && ParseInt(option) == Some(k);
    var r := GetDateRange(option, currentYear);
    assert r.Between?;
    assert r.start.date == Date(currentYear, k, 1);
  }

  /** The colour classes of a percentage cell. */
  datatype Band = Green | Yellow | Red

  /** getPercentageColor: at least 80 is green, at least 60 yellow, anything lower red. */
  function PercentageColor(percentage: int): (b: Band)
    ensures b == Green <==> percentage >= 80
    ensures b == Yellow <==> 60 <= percentage < 80
    ensures b == Red <==> percentage < 60
  {
    if percentage >= 80 then Green else if percentage >= 60 then Yellow else Red
  }

  function BandClasses(b: Band): string {
    match b
    case Green => "text-green-600 bg-green-50"
    case Yellow => "text-yellow-600 bg-yellow-50"
    case Red => "text-red-600 bg-red-50"
  }

  /** The colour bands only get better as the percentage grows. */
  lemma PercentageColorMonotone(p: int, q: int)
    requires p <= q
    ensures PercentageColor(p) == Green ==> PercentageColor(q) == Green
    ensures PercentageColor(p) == Yellow ==> PercentageColor(q) != Red
  {
  }

  const CategoryLabels: map<string, string> :=
    map["U8-U9" := "U8-U9", "U10-U11" := "U10-U11", "U13" := "U13", "U15" := "U15", "A" := "A tím"]

  /** `categoryLabels[player.category] || player.category`. */
  function CategoryLabel(category: string): (l: string)
    ensures category == "A" ==> l == "A tím"
    ensures category != "A" ==> l == category
  {
    if category in CategoryLabels && CategoryLabels[category] != "" then CategoryLabels[category] else category
  }
}
