/**
 * Proleptic Gregorian day arithmetic as ECMAScript defines it for time values
 * (ECMA-262, section 21.4.1: Day, DayFromYear, InLeapYear, MonthFromTime,
 * DateFromTime, WeekDay, MakeDay). Day 0 is 1970-01-01; months are 1-based in
 * `Ymd` and 0-based in the `month` argument of `MakeDay`, as in the standard.
 */
module Calendar {

  /** A calendar date: year, month 1..12, day of month. */
  datatype Ymd = Ymd(year: int, month: int, day: int)

  /** The day number of January 1st of year `y`. */
  function DayFromYear(y: int): int {
    365 * (y - 1970) + (y - 1969) / 4 - (y - 1901) / 100 + (y - 1601) / 400
  }

  predicate InLeapYear(y: int) {
    y % 4 == 0 && (y % 100 != 0 || y % 400 == 0)
  }

  function DaysInYear(y: int): int {
    if InLeapYear(y) then 366 else 365
  }

  /** Consecutive years are one year length apart. */
  lemma DayFromYearStep(y: int)
    ensures DayFromYear(y + 1) == DayFromYear(y) + DaysInYear(y)
  {
    LeapStep4(y);
    LeapStep100(y);
    LeapStep400(y);
    LeapDivisors(y);
  }

  /** The count of multiples of 4 grows, from year `y` to `y + 1`, exactly when 4 divides `y`. */
  lemma LeapStep4(y: int)
    ensures (y - 1968) / 4 - (y - 1969) / 4 == if y % 4 == 0 then 1 else 0
  {
    var q, r := (y - 1969) / 4, (y - 1969) % 4;
    if r == 3 {
      assert y - 1968 == 4 * (q + 1) && y == 4 * (q + 493);
    } else {
      assert y - 1968 == 4 * q + (r + 1) && y == 4 * (q + 492) + (r + 1);
    }
  }

  lemma LeapStep100(y: int)
    ensures (y - 1900) / 100 - (y - 1901) / 100 == if y % 100 == 0 then 1 else 0
  {
    var q, r := (y - 1901) / 100, (y - 1901) % 100;
    if r == 99 {
      assert y - 1900 == 100 * (q + 1) && y == 100 * (q + 20);
    } else {
      assert y - 1900 == 100 * q + (r + 1) && y == 100 * (q + 19) + (r + 1);
    }
  }

  lemma LeapStep400(y: int)
    ensures (y - 1600) / 400 - (y - 1601) / 400 == if y % 400 == 0 then 1 else 0
  {
    var q, r := (y - 1601) / 400, (y - 1601) % 400;
    if r == 399 {
      assert y - 1600 == 400 * (q + 1) && y == 400 * (q + 5);
    } else {
      assert y - 1600 == 400 * q + (r + 1) && y == 400 * (q + 4) + (r + 1);
    }
  }

  /** A multiple of 400 is one of 100, and a multiple of 100 one of 4. */
  lemma LeapDivisors(y: int)
    ensures y % 400 == 0 ==> y % 100 == 0
    ensures y % 100 == 0 ==> y % 4 == 0
  {
    if y % 400 == 0 {
      var k := y / 400;
      assert y == 400 * k && y / 100 == 4 * k;
    }
    if y % 100 == 0 {
      var k := y / 100;
      assert y == 100 * k && y / 4 == 25 * k;
    }
  }

  /** DayFromYear is increasing. */
  lemma {:induction false} DayFromYearMonotone(a: int, b: int)
    ensures a <= b ==> DayFromYear(a) + 365 * (b - a) <= DayFromYear(b)
    decreases b - a
  {
    if a < b {
      DayFromYearStep(b - 1);
      DayFromYearMonotone(a, b - 1);
    }
  }

  /** Going back `j` years from 1970 goes back at least `365 * j` days. */
  lemma DayFromYearBelowEpoch(j: nat)
    ensures DayFromYear(1970 - j) <= -365 * j
  {
    DayFromYearMonotone(1970 - j, 1970);
  }

  /** The length of month `m` (1..12) of year `y`. */
  function DaysInMonth(y: int, m: int): (n: int)
    requires 1 <= m <= 12
    ensures 28 <= n <= 31
  {
    if m == 2 then (if InLeapYear(y) then 29 else 28)
    else if m == 4 || m == 6 || m == 9 || m == 11 then 30
    else 31
  }

  /**
   * Days of year `y` in its first `mn` months (0..12), the table of MonthFromTime:
   * 0, 31, 59 + leap, 90 + leap, ..., 334 + leap, 365 + leap, written as one formula.
   */
  function DaysBeforeMonth(y: int, mn: int): (n: int)
    requires 0 <= mn <= 12
    ensures mn == 0 ==> n == 0
    ensures mn == 12 ==> n == DaysInYear(y)
  {
    (367 * mn + 5) / 12 - (if mn < 2 then 0 else if InLeapYear(y) then 1 else 2)
  }

  /** Each month adds its own length to the days before it. */
  lemma DaysBeforeMonthStep(y: int, mn: int)
    requires 0 < mn <= 12
    ensures DaysBeforeMonth(y, mn) == DaysBeforeMonth(y, mn - 1) + DaysInMonth(y, mn)
  {
  }

  lemma {:induction false} DaysBeforeMonthMonotone(y: int, a: int, b: int)
    requires 0 <= a <= b <= 12
    ensures DaysBeforeMonth(y, a) + 28 * (b - a) <= DaysBeforeMonth(y, b)
    decreases b - a
  {
    if a < b {
      DaysBeforeMonthMonotone(y, a, b - 1);
      DaysBeforeMonthStep(y, b);
    }
  }

  predicate ValidDate(c: Ymd) {
    1 <= c.month <= 12 && 1 <= c.day <= DaysInMonth(c.year, c.month)
  }

  /** The day number of a valid calendar date. */
  function DayNumber(c: Ymd): int
    requires 1 <= c.month <= 12
  {
    DayFromYear(c.year) + DaysBeforeMonth(c.year, c.month - 1) + c.day - 1
  }

  /** A valid date lies inside its own year. */
  lemma DayNumberInYear(c: Ymd)
    requires ValidDate(c)
    ensures DayFromYear(c.year) <= DayNumber(c) < DayFromYear(c.year + 1)
  {
    DayFromYearStep(c.year);
    DaysBeforeMonthMonotone(c.year, c.month, 12);
  }

  /** MakeDay(year, month, date) on integer arguments: `month` is 0-based and may lie outside 0..11. */
  function MakeDay(year: int, month: int, date: int): int {
    var ym := year + month / 12;
    var mn := month % 12;
    DayFromYear(ym) + DaysBeforeMonth(ym, mn) + date - 1
  }

  /** Within one year, a date in an earlier month has a smaller day number. */
  lemma EarlierMonth(a: Ymd, b: Ymd)
    requires ValidDate(a) && ValidDate(b) && a.year == b.year && a.month < b.month
    ensures DayNumber(a) < DayNumber(b)
  {
    var y := a.year;
    DaysBeforeMonthMonotone(y, a.month, b.month - 1);
    var before := DaysBeforeMonth(y, a.month - 1);
    assert DaysBeforeMonth(y, a.month) == before + DaysInMonth(y, a.month);
    assert DayNumber(a) < DayFromYear(y) + DaysBeforeMonth(y, a.month);
  }

  /** A date in an earlier year has a smaller day number. */
  lemma EarlierYear(a: Ymd, b: Ymd)
    requires ValidDate(a) && ValidDate(b) && a.year < b.year
    ensures DayNumber(a) < DayNumber(b)
  {
    DayNumberInYear(a);
    DayNumberInYear(b);
    DayFromYearMonotone(a.year + 1, b.year);
  }

  /** Day numbers order valid dates as the calendar does: by year, then month, then day. */
  lemma DayNumberOrder(a: Ymd, b: Ymd)
    requires ValidDate(a) && ValidDate(b)
    ensures DayNumber(a) < DayNumber(b) <==>
      a.year < b.year || (a.year == b.year && (a.month < b.month || (a.month == b.month && a.day < b.day)))
  {
    if a.year < b.year { EarlierYear(a, b); }
    else if b.year < a.year { EarlierYear(b, a); }
    else if a.month < b.month { EarlierMonth(a, b); }
    else if b.month < a.month { EarlierMonth(b, a); }
  }

  /** Searches upward from year `y` for the year containing day `k`. */
  function YearSearch(k: int, y: int): (r: int)
    requires DayFromYear(y) <= k
    ensures y <= r && DayFromYear(r) <= k < DayFromYear(r + 1)
    decreases k - DayFromYear(y)
  {
    DayFromYearStep(y);
    if k < DayFromYear(y + 1) then y else YearSearch(k, y + 1)
  }

  /** YearFromTime, on day numbers. */
  function YearFromDay(k: int): (y: int)
    ensures DayFromYear(y) <= k < DayFromYear(y + 1)
  {
    var j: nat := if k >= 0 then 0 else (-k) / 365 + 1;
    DayFromYearBelowEpoch(j);
    YearSearch(k, 1970 - j)
  }

  /** Only one year contains a given day. */
  lemma YearFromDayUnique(k: int, y: int)
    requires DayFromYear(y) <= k < DayFromYear(y + 1)
    ensures YearFromDay(k) == y
  {
    var r := YearFromDay(k);
    DayFromYearMonotone(r + 1, y);
    DayFromYearMonotone(y + 1, r);
  }

  /** Searches upward from month index `mn` for the month of year `y` containing day `r` of the year. */
  function MonthSearch(y: int, r: int, mn: int): (m: int)
    requires 0 <= mn < 12 && DaysBeforeMonth(y, mn) <= r < DaysInYear(y)
    ensures mn <= m < 12 && DaysBeforeMonth(y, m) <= r < DaysBeforeMonth(y, m + 1)
    decreases 12 - mn
  {
    if r < DaysBeforeMonth(y, mn + 1) then mn
    else
      assert mn + 1 < 12;
      MonthSearch(y, r, mn + 1)
  }

  /** Only one month contains a given day of the year. */
  lemma MonthSearchUnique(y: int, r: int, m: int)
    requires 0 <= m < 12 && DaysBeforeMonth(y, m) <= r < DaysBeforeMonth(y, m + 1)
    ensures MonthSearch(y, r, 0) == m
  {
    DaysBeforeMonthMonotone(y, m + 1, 12);
    var found := MonthSearch(y, r, 0);
    if found < m { DaysBeforeMonthMonotone(y, found + 1, m); }
    if m < found { DaysBeforeMonthMonotone(y, m + 1, found); }
  }

  /** The calendar date of a day number (YearFromTime, MonthFromTime + 1, DateFromTime). */
  function CivilFromDay(k: int): (c: Ymd)
    ensures ValidDate(c)
    ensures DayNumber(c) == k
  {
    var y := YearFromDay(k);
    DayFromYearStep(y);
    var r := k - DayFromYear(y);
    var mn := MonthSearch(y, r, 0);
    DaysBeforeMonthStep(y, mn + 1);
    Ymd(y, mn + 1, r - DaysBeforeMonth(y, mn) + 1)
  }

  /** Converting a valid date to its day number and back gives the date again. */
  lemma CivilOfDayNumber(c: Ymd)
    requires ValidDate(c)
    ensures CivilFromDay(DayNumber(c)) == c
  {
    var k := DayNumber(c);
    var r := k - DayFromYear(c.year);
    CivilOfDay(c, k, r);
  }

  /** CivilOfDayNumber, on the day number `k` and the day `r` of its year. */
  lemma CivilOfDay(c: Ymd, k: int, r: int)
    requires ValidDate(c) && k == DayNumber(c) && r == k - DayFromYear(c.year)
    ensures CivilFromDay(k) == c
  {
    YearOfDayNumber(c, k);
    MonthOfDayNumber(c, r);
    CivilFromDayParts(k, c.year, r, c.month - 1);
  }

  /** The day number `k` of a valid date lies in its year. */
  lemma YearOfDayNumber(c: Ymd, k: int)
    requires ValidDate(c) && k == DayNumber(c)
    ensures YearFromDay(k) == c.year && 0 <= k - DayFromYear(c.year) < DaysInYear(c.year)
  {
    DayNumberInYear(c);
    YearFromDayUnique(k, c.year);
    DayFromYearStep(c.year);
  }

  /** The day `r` of the year of a valid date lies in its month. */
  lemma MonthOfDayNumber(c: Ymd, r: int)
    requires ValidDate(c) && r == DayNumber(c) - DayFromYear(c.year)
    ensures MonthSearch(c.year, r, 0) == c.month - 1
    ensures r - DaysBeforeMonth(c.year, c.month - 1) + 1 == c.day
  {
    DaysBeforeMonthStep(c.year, c.month);
    MonthSearchUnique(c.year, r, c.month - 1);
  }

  /** CivilFromDay, given the year and the month it finds. */
  lemma CivilFromDayParts(k: int, y: int, r: int, mn: int)
    requires y == YearFromDay(k) && r == k - DayFromYear(y) && 0 <= r < DaysInYear(y) && mn == MonthSearch(y, r, 0)
    ensures CivilFromDay(k) == Ymd(y, mn + 1, r - DaysBeforeMonth(y, mn) + 1)
  {
  }

  /** MakeDay on the fields of a valid date, with the day of month moved by `n`, moves its day number by `n`. */
  lemma MakeDayShift(c: Ymd, n: int)
    requires ValidDate(c)
    ensures MakeDay(c.year, c.month - 1, c.day + n) == DayNumber(c) + n
  {
  }

  /** MakeDay on the fields of a valid date is its day number. */
  lemma MakeDayOfDate(c: Ymd)
    requires ValidDate(c)
    ensures MakeDay(c.year, c.month - 1, c.day) == DayNumber(c)
  {
    MakeDayShift(c, 0);
  }

  /** WeekDay, on day numbers: 0 is Sunday; day 0 (1970-01-01) was a Thursday. */
  function WeekDay(k: int): (w: int)
    ensures 0 <= w < 7
  {
    (k + 4) % 7
  }

  /** The day after a day of week `w` is a day of week `w + 1`, Saturday wrapping to Sunday. */
  lemma WeekDayNext(k: int)
    ensures WeekDay(k + 1) == (WeekDay(k) + 1) % 7
  {
  }

}
