/** Proleptic-Gregorian civil dates, the day-number bijection, the weekday, and the
    handful of JavaScript `Date` operations the components use (the `Date(y, m, d)`
    constructor, `setDate`, `setMonth`, `setFullYear`, `getDay`), with their
    overflow normalisation written out. Local time zones and clock times are not
    modelled: a JavaScript `Date` is represented by the local calendar day it falls on. */
module Calendar {

  predicate IsLeapYear(y: int) {
    y % 4 == 0 && (y % 100 != 0 || y % 400 == 0)
  }

  function YearLength(y: int): (n: int)
    ensures n == 365 || n == 366
    ensures n == 366 <==> IsLeapYear(y)
  {
    if IsLeapYear(y) then 366 else 365
  }

  /** Days in month `m` (1 = January) of year `y`. */
  function DaysInMonth(y: int, m: int): (n: int)
    requires 1 <= m <= 12
    ensures 28 <= n <= 31
    ensures m == 2 ==> (n == 29 <==> IsLeapYear(y))
  {
    if m == 2 then (if IsLeapYear(y) then 29 else 28)
    else if m == 4 || m == 6 || m == 9 || m == 11 then 30
    else 31
  }

  /** A calendar day: `month` is 1-based (JavaScript's `getMonth() + 1`). */
  datatype Date = Date(year: int, month: int, day: int)

  predicate IsValid(d: Date) {
    1 <= d.month <= 12 && 1 <= d.day <= DaysInMonth(d.year, d.month)
  }

  type CivilDate = d: Date | IsValid(d) witness Date(1970, 1, 1)

  /** Days from 0001-01-01 to January 1 of year `y`. */
  function DaysBeforeYear(y: int): int {
    var p := y - 1;
    365 * p + p / 4 - p / 100 + p / 400
  }

  /** Days from January 1 to the first of month `m` (13 stands for the next January). */
  function DaysBeforeMonth(y: int, m: int): int
    requires 1 <= m <= 13
  {
    [0, 31, 59, 90, 120, 151, 181, 212, 243, 273, 304, 334, 365][m - 1]
    + (if m > 2 && IsLeapYear(y) then 1 else 0)
  }

  /** The day number: 0001-01-01 is day 0. */
  function DayNumber(d: CivilDate): int {
    DaysBeforeYear(d.year) + DaysBeforeMonth(d.year, d.month) + d.day - 1
  }

  /** The next calendar day. */
  function Succ(d: CivilDate): (r: CivilDate)
    ensures DayNumber(r) == DayNumber(d) + 1
  {
    MonthStep(d.year, d.month);
    if d.day < DaysInMonth(d.year, d.month) then Date(d.year, d.month, d.day + 1)
    else if d.month < 12 then Date(d.year, d.month + 1, 1)
    else YearStep(d.year); Date(d.year + 1, 1, 1)
  }

  /** The previous calendar day. */
  function Pred(d: CivilDate): (r: CivilDate)
    ensures DayNumber(r) == DayNumber(d) - 1
  {
    if d.day > 1 then Date(d.year, d.month, d.day - 1)
    else if d.month > 1 then
      MonthStep(d.year, d.month - 1);
      Date(d.year, d.month - 1, DaysInMonth(d.year, d.month - 1))
    else
      YearStep(d.year - 1);
      MonthStep(d.year - 1, 12);
      Date(d.year - 1, 12, 31)
  }

  /** `d` moved by `k` days, forwards or backwards, one day at a time. */
  function AddDays(d: CivilDate, k: int): (r: CivilDate)
    ensures DayNumber(r) == DayNumber(d) + k
    decreases if k < 0 then -k else k
  {
    if k == 0 then d
    else if k > 0 then AddDays(Succ(d), k - 1)
    else AddDays(Pred(d), k + 1)
  }

  /** The day `n` days before `d` (`n` may be negative). */
  function DaysBefore(d: CivilDate, n: int): (r: CivilDate)
    ensures DayNumber(r) == DayNumber(d) - n
  {
    AddDays(d, -n)
  }

  /** The day `n` days after 0001-01-01: the inverse of `DayNumber`. */
  function FromDayNumber(n: int): (r: CivilDate)
    ensures DayNumber(r) == n
  {
    AddDays(Date(1, 1, 1), n)
  }

  /** How the leap-year corrections of `DaysBeforeYear` change from one year to the next. */
  lemma DivSteps(a: int)
    ensures a / 4 - (a - 1) / 4 == if a % 4 == 0 then 1 else 0
    ensures a / 100 - (a - 1) / 100 == if a % 100 == 0 then 1 else 0
    ensures a / 400 - (a - 1) / 400 == if a % 400 == 0 then 1 else 0
  {
  }

  lemma ModSevenAdd(x: int, k: int)
    ensures (x + k) % 7 == (x % 7 + k) % 7
  {
    var q := x / 7;
    assert x == 7 * q + x % 7;
    assert x + k == 7 * q + (x % 7 + k);
  }

  /** Every multiple of 400 is one of 100, and every multiple of 100 one of 4. */
  lemma DivisorChain(y: int)
    ensures y % 400 == 0 ==> y % 100 == 0
    ensures y % 100 == 0 ==> y % 4 == 0
  {
    if y % 400 == 0 {
      HundredDivides(y / 400, y);
    }
    if y % 100 == 0 {
      FourDivides(y / 100, y);
    }
  }

  lemma HundredDivides(q: int, y: int)
    requires y == 400 * q
    ensures y % 100 == 0
  {
    assert y == 100 * (4 * q);
  }

  lemma FourDivides(q: int, y: int)
    requires y == 100 * q
    ensures y % 4 == 0
  {
    assert y == 4 * (25 * q);
  }

  /** A year contributes exactly its length to the day count. */
  lemma YearStep(y: int)
    ensures DaysBeforeYear(y + 1) == DaysBeforeYear(y) + YearLength(y)
  {
    DivSteps(y);
    DivisorChain(y);
    var p := y - 1;
    assert DaysBeforeYear(y + 1) - DaysBeforeYear(y)
      == 365 + (y / 4 - p / 4) - (y / 100 - p / 100) + (y / 400 - p / 400);
  }

  /** A month contributes exactly its length to the day count. */
  lemma MonthStep(y: int, m: int)
    requires 1 <= m <= 12
    ensures DaysBeforeMonth(y, m + 1) == DaysBeforeMonth(y, m) + DaysInMonth(y, m)
    ensures DaysBeforeMonth(y, 13) == YearLength(y)
  {
  }

  lemma {:induction false} YearsApart(a: int, b: int)
    requires a <= b
    ensures DaysBeforeYear(a) + 365 * (b - a) <= DaysBeforeYear(b)
    decreases b - a
  {
    if a < b {
      YearsApart(a, b - 1);
      YearStep(b - 1);
    }
  }

  lemma {:induction false} MonthsApart(y: int, a: int, b: int)
    requires 1 <= a <= b <= 13
    ensures DaysBeforeMonth(y, a) + 28 * (b - a) <= DaysBeforeMonth(y, b)
    decreases b - a
  {
    if a < b {
      MonthsApart(y, a, b - 1);
      MonthStep(y, b - 1);
    }
  }

  /** A date's day number lies inside its year's and its month's ranges. */
  lemma DayNumberRange(d: CivilDate)
    ensures DaysBeforeYear(d.year) <= DayNumber(d) < DaysBeforeYear(d.year + 1)
    ensures DaysBeforeMonth(d.year, d.month) <= DayNumber(d) - DaysBeforeYear(d.year)
              < DaysBeforeMonth(d.year, d.month + 1)
  {
    MonthStep(d.year, d.month);
    MonthsApart(d.year, d.month + 1, 13);
    YearStep(d.year);
  }

  /** Distinct dates have distinct day numbers. */
  lemma DayNumberInjective(a: CivilDate, b: CivilDate)
    requires DayNumber(a) == DayNumber(b)
    ensures a == b
  {
    SameYear(a, b);
    SameMonth(a, b);
  }

  lemma SameYear(a: CivilDate, b: CivilDate)
    requires DayNumber(a) == DayNumber(b)
    ensures a.year == b.year
  {
    DayNumberRange(a);
    DayNumberRange(b);
    if a.year < b.year {
      YearsApart(a.year + 1, b.year);
    } else if b.year < a.year {
      YearsApart(b.year + 1, a.year);
    }
  }

  lemma SameMonth(a: CivilDate, b: CivilDate)
    requires a.year == b.year && DayNumber(a) == DayNumber(b)
    ensures a.month == b.month
  {
    DayNumberRange(a);
    DayNumberRange(b);
    if a.month < b.month {
      MonthsApart(a.year, a.month + 1, b.month);
    } else if b.month < a.month {
      MonthsApart(a.year, b.month + 1, a.month);
    }
  }

  /** `DayNumber` and `FromDayNumber` are mutually inverse. */
  lemma DayNumberBijection(d: CivilDate, n: int)
    ensures FromDayNumber(DayNumber(d)) == d
    ensures DayNumber(FromDayNumber(n)) == n
  {
    DayNumberInjective(FromDayNumber(DayNumber(d)), d);
  }

  /** Moving by `a` days and then by `b` days is moving by `a + b` days. */
  lemma AddDaysAdd(d: CivilDate, a: int, b: int)
    ensures AddDays(AddDays(d, a), b) == AddDays(d, a + b)
  {
    DayNumberInjective(AddDays(AddDays(d, a), b), AddDays(d, a + b));
  }

  /** Day `k` of a month, counted from its first day, is `Date(y, m, k + 1)`. */
  lemma AddDaysInMonth(y: int, m: int, k: int)
    requires 1 <= m <= 12 && 0 <= k < DaysInMonth(y, m)
    ensures AddDays(Date(y, m, 1), k) == Date(y, m, k + 1)
  {
    DayNumberInjective(AddDays(Date(y, m, 1), k), Date(y, m, k + 1));
  }

  /** JavaScript's `getDay()`: 0 for Sunday through 6 for Saturday. */
  function Weekday(d: CivilDate): (w: int)
    ensures 0 <= w < 7
    ensures w == (DayNumber(d) + 1) % 7
  {
    (DayNumber(d) + 1) % 7
  }

  /** The Monday-first column of a day: `(getDay() + 6) % 7`, Monday = 0, Sunday = 6. */
  function MondayIndex(d: CivilDate): (i: int)
    ensures 0 <= i < 7
    ensures i == DayNumber(d) % 7
    ensures i == 6 <==> Weekday(d) == 0
  {
    SundayLast(DayNumber(d));
    (Weekday(d) + 6) % 7
  }

  /** If `p` is `a`'s residue modulo 7, then `p + k` has the residue of `a + k`. */
  lemma ModSevenStep(p: int, a: int, b: int, k: int)
    requires p == a % 7 && b == a + k
    ensures (p + k) % 7 == b % 7
  {
    ModSevenAdd(a, k);
  }

  lemma SundayLast(x: int)
    ensures ((x + 1) % 7 + 6) % 7 == x % 7
    ensures ((x + 1) % 7 + 6) % 7 == 6 <==> (x + 1) % 7 == 0
  {
    ModSevenAdd(x, 7);
    ModSevenAdd(x + 1, 6);
  }

  /** Moving `k` days moves the weekday by `k` modulo 7. */
  lemma MondayIndexShift(d: CivilDate, k: int)
    ensures MondayIndex(AddDays(d, k)) == (MondayIndex(d) + k) % 7
  {
    ModSevenStep(MondayIndex(d), DayNumber(d), DayNumber(AddDays(d, k)), k);
  }

  /** The year of a date is determined by which year's day range holds its day number. */
  lemma YearOfDayNumber(d: CivilDate, y: int)
    ensures d.year == y <==> DaysBeforeYear(y) <= DayNumber(d) < DaysBeforeYear(y) + YearLength(y)
  {
    DayNumberRange(d);
    YearStep(y);
    YearStep(d.year);
    if d.year < y {
      YearsApart(d.year + 1, y);
    } else if y < d.year {
      YearsApart(y + 1, d.year);
    }
  }

  // ---- JavaScript `Date` arithmetic -------------------------------------------------

  /** The ECMAScript MakeDay normalisation: year `y`, zero-based month `m0` and day
      `dd`, each of which may overflow or underflow (month 12 is next January, day 0
      is the last day of the previous month). */
  function MakeDay(y: int, m0: int, dd: int): (r: CivilDate)
    ensures DayNumber(r) == DayNumber(Date(y + m0 / 12, m0 % 12 + 1, 1)) + dd - 1
  {
    AddDays(Date(y + m0 / 12, m0 % 12 + 1, 1), dd - 1)
  }

  /** With an in-range month, MakeDay counts `dd - 1` days from the first of that month. */
  lemma MakeDayInMonth(y: int, m: int, dd: int)
    requires 1 <= m <= 12
    ensures DayNumber(MakeDay(y, m - 1, dd)) == DayNumber(Date(y, m, 1)) + dd - 1
  {
    assert (m - 1) / 12 == 0 && (m - 1) % 12 == m - 1;
  }

  /** A date is `day - 1` days after the first of its month. */
  lemma FirstOfMonth(d: CivilDate)
    ensures DayNumber(Date(d.year, d.month, 1)) == DayNumber(d) - d.day + 1
  {
  }

  /** In-range arguments are not normalised. */
  lemma MakeDayInRange(y: int, m0: int, dd: int)
    requires 0 <= m0 < 12 && 1 <= dd <= DaysInMonth(y, m0 + 1)
    ensures MakeDay(y, m0, dd) == Date(y, m0 + 1, dd)
  {
    MakeDayInMonth(y, m0 + 1, dd);
    FirstOfMonth(Date(y, m0 + 1, dd));
    DayNumberInjective(MakeDay(y, m0, dd), Date(y, m0 + 1, dd));
  }

  /** Overflowing the day field of a date by `k` moves it `k` days. */
  lemma MakeDayShift(d: CivilDate, k: int)
    ensures MakeDay(d.year, d.month - 1, d.day + k) == AddDays(d, k)
  {
    MakeDayInMonth(d.year, d.month, d.day + k);
    FirstOfMonth(d);
    DayNumberInjective(MakeDay(d.year, d.month - 1, d.day + k), AddDays(d, k));
  }

  /** `new Date(y, m0, dd)`: like MakeDay, except that years 0 to 99 mean 1900 to 1999. */
  function NewDate(y: int, m0: int, dd: int): (r: CivilDate)
    ensures !(0 <= y <= 99) ==> r == MakeDay(y, m0, dd)
    ensures 0 <= y <= 99 ==> r == MakeDay(1900 + y, m0, dd)
  {
    MakeDay(if 0 <= y <= 99 then 1900 + y else y, m0, dd)
  }

  /** `d.setDate(dd)`: day `dd` of `d`'s month, normalised. */
  function SetDate(d: CivilDate, dd: int): (r: CivilDate)
    ensures r == AddDays(d, dd - d.day)
  {
    SetDateShift(d, dd);
    MakeDay(d.year, d.month - 1, dd)
  }

  lemma SetDateShift(d: CivilDate, dd: int)
    ensures MakeDay(d.year, d.month - 1, dd) == AddDays(d, dd - d.day)
  {
    MakeDayInMonth(d.year, d.month, dd);
    FirstOfMonth(d);
    DayNumberInjective(MakeDay(d.year, d.month - 1, dd), AddDays(d, dd - d.day));
  }

  /** `d.setMonth(m0)`: the same day-of-month in zero-based month `m0`, normalised. */
  function SetMonth(d: CivilDate, m0: int): (r: CivilDate)
    ensures 0 <= m0 < 12 && d.day <= DaysInMonth(d.year, m0 + 1) ==> r == Date(d.year, m0 + 1, d.day)
  {
    if 0 <= m0 < 12 && d.day <= DaysInMonth(d.year, m0 + 1) then
      MakeDayInRange(d.year, m0, d.day);
      MakeDay(d.year, m0, d.day)
    else
      MakeDay(d.year, m0, d.day)
  }

  /** `d.setFullYear(y)`: the same month and day in year `y`, normalised (February 29
      of a leap year becomes March 1 in a common year). */
  function SetFullYear(d: CivilDate, y: int): (r: CivilDate)
    ensures r.year == y
    ensures d.day <= DaysInMonth(y, d.month) ==> r == Date(y, d.month, d.day)
    ensures d.day > DaysInMonth(y, d.month) ==> r == Date(y, 3, 1)
  {
    SetFullYearDay(d, y);
    MakeDay(y, d.month - 1, d.day)
  }

  lemma SetFullYearDay(d: CivilDate, y: int)
    ensures d.day <= DaysInMonth(y, d.month) ==> MakeDay(y, d.month - 1, d.day) == Date(y, d.month, d.day)
    ensures d.day > DaysInMonth(y, d.month) ==> MakeDay(y, d.month - 1, d.day) == Date(y, 3, 1)
  {
    if d.day <= DaysInMonth(y, d.month) {
      MakeDayInRange(y, d.month - 1, d.day);
    } else {
      LeapDayOverflow(d, y);
    }
  }

  /** Only February 29 can overflow its month when the year changes; it lands on March 1. */
  lemma LeapDayOverflow(d: CivilDate, y: int)
    requires d.day > DaysInMonth(y, d.month)
    ensures MakeDay(y, d.month - 1, d.day) == Date(y, 3, 1)
  {
    assert d.month == 2 && d.day == 29 && !IsLeapYear(y);
    MakeDayInMonth(y, 2, 29);
    MonthStep(y, 2);
    DayNumberInjective(MakeDay(y, d.month - 1, d.day), Date(y, 3, 1));
  }
}
