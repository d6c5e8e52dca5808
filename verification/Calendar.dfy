/** The proleptic Gregorian calendar behind time.Time: day 0 is 0000-01-01, and
    days before it are negative. The calendar is fixed by NextDay, which only knows the
    lengths of the months; the conversions between dates and day counts are proved to
    follow it. */
module Calendar {

  predicate IsLeap(y: int) {
    y % 4 == 0 && (y % 100 != 0 || y % 400 == 0)
  }

  function DaysInMonth(y: int, m: int): int
    requires 1 <= m <= 12
  {
    if m == 2 then if IsLeap(y) then 29 else 28
    else if m == 4 || m == 6 || m == 9 || m == 11 then 30
    else 31
  }

  datatype Date = Date(year: int, month: int, day: int)

  predicate Valid(d: Date) {
    1 <= d.month <= 12 && 1 <= d.day <= DaysInMonth(d.year, d.month)
  }

  predicate Before(a: Date, b: Date) {
    a.year < b.year ||
    (a.year == b.year && (a.month < b.month || (a.month == b.month && a.day < b.day)))
  }

  /** The day after a date, straight from the lengths of the months. */
  function NextDay(d: Date): Date
    requires Valid(d)
  {
    if d.day < DaysInMonth(d.year, d.month) then d.(day := d.day + 1)
    else if d.month < 12 then Date(d.year, d.month + 1, 1)
    else Date(d.year + 1, 1, 1)
  }

  /** The calendar is the Gregorian one. */
  lemma MonthsAreGregorian(y: int, m: int)
    requires 1 <= m <= 12
    ensures DaysInMonth(y, m) ==
            if m == 2 && ((y % 4 == 0 && y % 100 != 0) || y % 400 == 0) then 29
            else if m == 2 then 28
            else if m in {4, 6, 9, 11} then 30
            else 31
  {
  }

  /** Years divisible by d from year 0 up to y, negative when y is before year 0. */
  function Multiples(y: int, d: int): int
    requires d == 4 || d == 100 || d == 400
  {
    if d == 4 then (y + 3) / 4 else if d == 100 then (y + 99) / 100 else (y + 399) / 400
  }

  lemma MultiplesStep(y: int, d: int)
    requires d == 4 || d == 100 || d == 400
    ensures Multiples(y + 1, d) == Multiples(y, d) + if y % d == 0 then 1 else 0
  {
    if d == 4 {
      assert y + 4 == 4 * (y / 4 + 1) + y % 4;
    } else if d == 100 {
      assert y + 100 == 100 * (y / 100 + 1) + y % 100;
    } else {
      assert y + 400 == 400 * (y / 400 + 1) + y % 400;
    }
  }

  function DaysBeforeYear(y: int): int {
    365 * y + Multiples(y, 4) - Multiples(y, 100) + Multiples(y, 400)
  }

  function DaysBeforeMonth(y: int, m: int): int
    requires 1 <= m <= 13
    decreases m
  {
    if m == 1 then 0 else DaysBeforeMonth(y, m - 1) + DaysInMonth(y, m - 1)
  }

  /** The day count of a date; as in time.Date the day may lie outside its month. */
  function DayNumber(year: int, month: int, day: int): int
    requires 1 <= month <= 12
  {
    DaysBeforeYear(year) + DaysBeforeMonth(year, month) + day - 1
  }

  /** The year holding day n, searched for from a year that starts no later. */
  function YearOf(n: int): int {
    var guess := if n < 0 then n / 365 else n / 366;
    YearBounds(guess);
    YearFrom(guess, n)
  }

  function YearFrom(y: int, n: int): int
    requires DaysBeforeYear(y) <= n
    decreases n - DaysBeforeYear(y)
  {
    YearLength(y);
    if n < DaysBeforeYear(y + 1) then y else YearFrom(y + 1, n)
  }

  lemma {:induction false} YearFromHolds(y: int, n: int)
    requires DaysBeforeYear(y) <= n
    ensures var r := YearFrom(y, n); DaysBeforeYear(r) <= n < DaysBeforeYear(r + 1)
    decreases n - DaysBeforeYear(y)
  {
    YearLength(y);
    if n >= DaysBeforeYear(y + 1) { YearFromHolds(y + 1, n); }
  }

  lemma YearHolds(n: int)
    ensures DaysBeforeYear(YearOf(n)) <= n < DaysBeforeYear(YearOf(n) + 1)
  {
    var guess := if n < 0 then n / 365 else n / 366;
    YearBounds(guess);
    YearFromHolds(guess, n);
  }

  lemma YearBounds(y: int)
    ensures y >= 0 ==> 365 * y <= DaysBeforeYear(y) <= 366 * y
    ensures y <= 0 ==> DaysBeforeYear(y) <= 365 * y
  {
    var f, c, g := Multiples(y, 4), Multiples(y, 100), Multiples(y, 400);
    assert 4 * f - 3 <= y <= 4 * f && 100 * c - 99 <= y <= 100 * c && 400 * g - 399 <= y <= 400 * g;
  }

  /** Month and day of the rest-th day from the start of month m. */
  function MonthFrom(y: int, m: int, rest: int): (int, int)
    requires 1 <= m <= 12 && 0 <= rest < DaysBeforeMonth(y, 13) - DaysBeforeMonth(y, m)
    decreases rest
  {
    if rest < DaysInMonth(y, m) then (m, rest + 1)
    else
      assert m < 12;
      MonthFrom(y, m + 1, rest - DaysInMonth(y, m))
  }

  lemma {:induction false} MonthHolds(y: int, m: int, rest: int)
    requires 1 <= m <= 12 && 0 <= rest < DaysBeforeMonth(y, 13) - DaysBeforeMonth(y, m)
    ensures var r := MonthFrom(y, m, rest);
            Valid(Date(y, r.0, r.1)) && DaysBeforeMonth(y, r.0) + r.1 - 1 == DaysBeforeMonth(y, m) + rest
    decreases 12 - m
  {
    if rest >= DaysInMonth(y, m) {
      assert m < 12;
      MonthHolds(y, m + 1, rest - DaysInMonth(y, m));
    }
  }

  lemma MonthsSum(y: int)
    ensures DaysBeforeMonth(y, 13) == if IsLeap(y) then 366 else 365
  {
    assert DaysBeforeMonth(y, 4) == 31 + DaysInMonth(y, 2) + 31;
    assert DaysBeforeMonth(y, 7) == DaysBeforeMonth(y, 4) + 91;
    assert DaysBeforeMonth(y, 10) == DaysBeforeMonth(y, 7) + 92;
  }

  lemma YearLength(y: int)
    ensures DaysBeforeMonth(y, 13) == if IsLeap(y) then 366 else 365
    ensures DaysBeforeYear(y + 1) == DaysBeforeYear(y) + DaysBeforeMonth(y, 13)
  {
    hide Multiples, DaysBeforeMonth;
    MonthsSum(y);
    MultiplesStep(y, 4);
    MultiplesStep(y, 100);
    MultiplesStep(y, 400);
    CenturiesDivide(y);
  }

  lemma CenturiesDivide(y: int)
    ensures y % 400 == 0 ==> y % 100 == 0
    ensures y % 100 == 0 ==> y % 4 == 0
  {
  }

  /** The date of day n. */
  function CivilFromDays(n: int): Date {
    var y := YearOf(n);
    YearHolds(n);
    YearLength(y);
    var r := MonthFrom(y, 1, n - DaysBeforeYear(y));
    Date(y, r.0, r.1)
  }

  /** It is a date, and its day count is n. */
  lemma CivilHolds(n: int)
    ensures var d := CivilFromDays(n); Valid(d) && DayNumber(d.year, d.month, d.day) == n
  {
    var y := YearOf(n);
    YearHolds(n);
    YearLength(y);
    MonthHolds(y, 1, n - DaysBeforeYear(y));
  }

  lemma {:induction false} MonthsGrow(y: int, m: int, m': int)
    requires 1 <= m < m' <= 13
    ensures DaysBeforeMonth(y, m) + DaysInMonth(y, m) <= DaysBeforeMonth(y, m')
    decreases m'
  {
    if m + 1 < m' { MonthsGrow(y, m, m' - 1); }
  }

  lemma {:induction false} YearsGrow(y: int, y': int)
    requires y < y'
    ensures DaysBeforeYear(y + 1) <= DaysBeforeYear(y')
    decreases y' - y
  {
    if y + 1 < y' {
      YearsGrow(y, y' - 1);
      YearLength(y' - 1);
    }
  }

  lemma WithinYear(d: Date)
    requires Valid(d)
    ensures DaysBeforeYear(d.year) <= DayNumber(d.year, d.month, d.day) < DaysBeforeYear(d.year + 1)
  {
    YearLength(d.year);
    MonthsGrow(d.year, d.month, 13);
    if d.month > 1 { MonthsGrow(d.year, 1, d.month); }
  }

  /** Counting days is strictly monotone in year, then month, then day. */
  lemma DayNumberMonotone(a: Date, b: Date)
    requires Valid(a) && Valid(b)
    ensures Before(a, b) <==> DayNumber(a.year, a.month, a.day) < DayNumber(b.year, b.month, b.day)
    ensures a == b <==> DayNumber(a.year, a.month, a.day) == DayNumber(b.year, b.month, b.day)
  {
    if Before(a, b) {
      BeforeCountsLess(a, b);
    } else if Before(b, a) {
      BeforeCountsLess(b, a);
    }
  }

  lemma BeforeCountsLess(a: Date, b: Date)
    requires Valid(a) && Valid(b) && Before(a, b)
    ensures DayNumber(a.year, a.month, a.day) < DayNumber(b.year, b.month, b.day)
  {
    if a.year < b.year {
      WithinYear(a);
      WithinYear(b);
      YearsGrow(a.year, b.year);
    } else if a.month < b.month {
      MonthsGrow(a.year, a.month, b.month);
    }
  }

  lemma NextDayCountsOne(d: Date)
    requires Valid(d)
    ensures var e := NextDay(d); Valid(e) && DayNumber(e.year, e.month, e.day) == DayNumber(d.year, d.month, d.day) + 1
  {
    YearLength(d.year);
  }

  /** A date is the only one with its day count. */
  lemma CivilRoundTrip(d: Date)
    requires Valid(d)
    ensures CivilFromDays(DayNumber(d.year, d.month, d.day)) == d
  {
    hide CivilFromDays;
    CivilHolds(DayNumber(d.year, d.month, d.day));
    DayNumberMonotone(CivilFromDays(DayNumber(d.year, d.month, d.day)), d);
  }

  /** Day 0 is the first of January of year 0. */
  lemma CivilStart()
    ensures CivilFromDays(0) == Date(0, 1, 1)
  {
    hide CivilFromDays;
    CivilRoundTrip(Date(0, 1, 1));
  }

  /** The conversion is the calendar: the date of the next day count is the next
      date, for all days before and after day 0. */
  lemma CivilSuccessor(n: int)
    ensures Valid(CivilFromDays(n)) && CivilFromDays(n + 1) == NextDay(CivilFromDays(n))
    ensures var d, e := CivilFromDays(n), CivilFromDays(n + 1);
            && 1 <= d.month <= 12 && 1 <= d.day <= DaysInMonth(d.year, d.month)
            && e == if d.day < DaysInMonth(d.year, d.month) then Date(d.year, d.month, d.day + 1)
                    else if d.month < 12 then Date(d.year, d.month + 1, 1)
                    else Date(d.year + 1, 1, 1)
  {
    hide CivilFromDays;
    CivilHolds(n);
    var d := CivilFromDays(n);
    var next := NextDay(d);
    NextDayCountsOne(d);
    CivilRoundTrip(next);
    assert DayNumber(next.year, next.month, next.day) == n + 1;
  }

  lemma CivilMonotone(m: int, n: int)
    ensures m < n <==> Before(CivilFromDays(m), CivilFromDays(n))
    ensures m == n <==> CivilFromDays(m) == CivilFromDays(n)
  {
    hide CivilFromDays;
    CivilHolds(m);
    CivilHolds(n);
    DayNumberMonotone(CivilFromDays(m), CivilFromDays(n));
  }
}
