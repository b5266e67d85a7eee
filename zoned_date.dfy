/**
 * The date helpers of the orders and summary screens (dateStringInTZ,
 * weekdayFromDateString, formatDateForTZ, headingForDate, addDaysInTZ).
 *
 * Each helper reads a "YYYY-MM-DD" string with `split('-').map(Number)`, builds
 * the instant `Date.UTC(y, (m ?? 1) - 1, d ?? 1, 12)` ("the noon trick") and
 * formats it with Intl.DateTimeFormat in America/Toronto. Time values follow
 * ECMA-262, section 21.4.1 (Day, TimeWithinDay, MakeDay, MakeDate,
 * MakeFullYear, TimeClip); the Calendar module supplies the day arithmetic.
 *
 * Formatting happens at an instant whose UTC time of day is noon. Local time in
 * any zone less than twelve hours from UTC (America/Toronto is five or four
 * hours behind) falls on the same calendar day, see NoonLocalDay, so the
 * formatters below read the UTC calendar date.
 */
module ZonedDate {
  import opened Wrappers
  import opened JsText
  import opened JsNumber
  import opened Calendar

  const MsPerDay: int := 86400000

  /** MakeTime(12, 0, 0, 0). */
  const Noon: int := 43200000

  /** TimeClip keeps time values of magnitude at most 8.64e15 ms. */
  const MaxTime: int := 8640000000000000

  /** A Date's [[DateValue]]: NaN (an "Invalid Date") or whole milliseconds since the epoch. */
  datatype TimeValue = TimeNaN | Time(ms: int)

  function TimeClip(t: int): (v: TimeValue)
    ensures v.Time? <==> -MaxTime <= t <= MaxTime
    ensures v.Time? ==> v.ms == t
  {
    if -MaxTime <= t <= MaxTime then Time(t) else TimeNaN
  }

  function Day(t: int): int { t / MsPerDay }

  function TimeWithinDay(t: int): (r: int)
    ensures 0 <= r < MsPerDay
  {
    t % MsPerDay
  }

  /** The noon instant of day `k` lies in day `k`, at noon. */
  lemma DayOfNoon(k: int)
    ensures Day(k * MsPerDay + Noon) == k
    ensures TimeWithinDay(k * MsPerDay + Noon) == Noon
  {
  }

  /**
   * Local time at the noon instant of day `k`, in a zone whose offset from UTC
   * is less than twelve hours, is still on day `k`.
   */
  lemma NoonLocalDay(k: int, offset: int)
    requires -Noon <= offset < Noon
    ensures Day(k * MsPerDay + Noon + offset) == k
  {
    var t := k * MsPerDay + Noon + offset;
    assert k * MsPerDay <= t < (k + 1) * MsPerDay;
  }

  /** Subtracting one, as in `(m ?? 1) - 1`. */
  function Decrement(n: Number): (r: Number)
    ensures n.Finite? <==> r.Finite?
  {
    match n
    case Finite(v) => Finite(v - 1.0)
    case _ => n
  }

  /** MakeFullYear: Date.UTC reads a year from 0 to 99 as 1900 to 1999. */
  function MakeFullYear(y: Number): (r: Number)
    ensures y.Finite? <==> r.Finite?
    ensures y.Finite? && 0 <= Truncate(y.value) <= 99 ==> r.value == 1900.0 + Truncate(y.value) as real
    ensures y.Finite? && !(0 <= Truncate(y.value) <= 99) ==> r == y
  {
    match y
    case Finite(v) =>
      var t := Truncate(v);
      if 0 <= t <= 99 then Finite(1900.0 + t as real) else y
    case _ => y
  }

  /** `Date.UTC(year, month, date, 12)`: NaN unless all three arguments are finite and the result is in range. */
  function DateUTCNoon(year: Number, month: Number, date: Number): TimeValue {
    var yr := MakeFullYear(year);
    if yr.Finite? && month.Finite? && date.Finite? then
      var k := MakeDay(Truncate(yr.value), Truncate(month.value), Truncate(date.value));
      TimeClip(k * MsPerDay + Noon)
    else TimeNaN
  }

  /** `const [y, m, d] = s.split('-').map(Number)`, with `m ?? 1` and `d ?? 1` for missing parts. */
  function DateParts(s: string): (Number, Number, Number) {
    var parts := Split(s, '-');
    var y := StringToNumber(parts[0]);
    var m := if |parts| > 1 then StringToNumber(parts[1]) else Finite(1.0);
    var d := if |parts| > 2 then StringToNumber(parts[2]) else Finite(1.0);
    (y, m, d)
  }

  /** `new Date(Date.UTC(y, (m ?? 1) - 1, d ?? 1, 12))` for a date string. */
  function NoonPivot(s: string): TimeValue {
    var parts := DateParts(s);
    DateUTCNoon(parts.0, Decrement(parts.1), parts.2)
  }

  /** The outcome of `Intl.DateTimeFormat.format`: a text, or the RangeError it throws on an invalid date. */
  datatype Formatted = Text(text: string) | RangeError | EraNotModelled

  function Pad2(n: nat): (r: string)
    requires n < 100
    ensures |r| == 2 && AllDigits(r, 10) && DigitsValue(r, 10) == n
  {
    var r := [DecimalDigit(n / 10), DecimalDigit(n % 10)];
    TwoDigitsValue(r);
    r
  }

  /** en-CA with numeric year, 2-digit month and 2-digit day: "2025-10-25". */
  function DateText(c: Ymd): string
    requires c.year >= 1 && 0 <= c.month < 100 && 0 <= c.day < 100
  {
    DecimalString(c.year) + "-" + Pad2(c.month) + "-" + Pad2(c.day)
  }

  function WeekdayName(w: int): string
    requires 0 <= w < 7
  {
    ["Sunday", "Monday", "Tuesday", "Wednesday", "Thursday", "Friday", "Saturday"][w]
  }

  function MonthName(m: int): string
    requires 1 <= m <= 12
  {
    ["January", "February", "March", "April", "May", "June", "July",
     "August", "September", "October", "November", "December"][m - 1]
  }

  /** en-CA { year: 'numeric', month: '2-digit', day: '2-digit' }. */
  function FormatEnCA(t: TimeValue): Formatted {
    match t
    case TimeNaN => RangeError
    case Time(ms) =>
      var c := CivilFromDay(Day(ms));
      if c.year < 1 then EraNotModelled else Text(DateText(c))
  }

  /** en-US { weekday: 'long' }. */
  function FormatWeekday(t: TimeValue): Formatted {
    match t
    case TimeNaN => RangeError
    case Time(ms) => Text(WeekdayName(WeekDay(Day(ms))))
  }

  /** en-US { weekday: 'long', year: 'numeric', month: 'long', day: 'numeric' }: "Saturday, October 25, 2025". */
  function FormatHeading(t: TimeValue): Formatted {
    match t
    case TimeNaN => RangeError
    case Time(ms) =>
      var c := CivilFromDay(Day(ms));
      if c.year < 1 then EraNotModelled
      else Text(WeekdayName(WeekDay(Day(ms))) + ", " + LongDate(c))
  }

  /** The date part of the heading, "October 25, 2025". */
  function LongDate(c: Ymd): string
    requires 1 <= c.month <= 12 && 0 <= c.day && 1 <= c.year
  {
    MonthName(c.month) + " " + DecimalString(c.day) + ", " + DecimalString(c.year)
  }

  /** formatDateForTZ. */
  function FormatDateForTZ(s: string): Formatted {
    FormatEnCA(NoonPivot(s))
  }

  /** weekdayFromDateString: the long English weekday, lower-cased. */
  function WeekdayFromDateString(s: string): Formatted {
    match FormatWeekday(NoonPivot(s))
    case Text(w) => Text(ToLower(w))
    case other => other
  }

  /** headingForDate. */
  function HeadingForDate(s: string): Formatted {
    FormatHeading(NoonPivot(s))
  }

  /** A time value moved by `n` whole days. */
  function ShiftDays(t: TimeValue, n: int): TimeValue {
    match t
    case TimeNaN => TimeNaN
    case Time(ms) => TimeClip(ms + n * MsPerDay)
  }

  /** What addDaysInTZ computes: the noon instant of `s`, `n` days later, in en-CA. */
  function AddDays(s: string, n: int): Formatted {
    FormatEnCA(ShiftDays(NoonPivot(s), n))
  }

  /** A JavaScript Date object: its one field is the time value, which setUTCDate replaces. */
  class JsDate {
    var value: TimeValue

    constructor (v: TimeValue)
      ensures value == v
    {
      value := v;
    }

    /** getUTCDate: the day of the month, or NaN (None). */
    function GetUTCDate(): (d: Option<int>)
      reads this
      ensures d.None? <==> value.TimeNaN?
      ensures d.Some? ==> 1 <= d.value <= 31
    {
      match value
      case TimeNaN => None
      case Time(t) => Some(CivilFromDay(Day(t)).day)
    }

    /**
     * setUTCDate(date): MakeDay(YearFromTime(t), MonthFromTime(t), date) with
     * the time of day kept. It moves the instant by `date - getUTCDate()` days;
     * an invalid date, or a NaN argument, leaves NaN.
     */
    method SetUTCDate(date: Option<int>)
      modifies this
      ensures old(value).TimeNaN? || date.None? ==> value == TimeNaN
      ensures old(value).Time? && date.Some? ==>
        value == ShiftDays(old(value), date.value - CivilFromDay(Day(old(value).ms)).day)
    {
      match value
      case TimeNaN =>
      case Time(t) =>
        if date.None? {
          value := TimeNaN;
        } else {
          var k := Day(t);
          var c := CivilFromDay(k);
          SetDateMoves(t, k, c, date.value, date.value - c.day);
          value := TimeClip(MakeDay(c.year, c.month - 1, date.value) * MsPerDay + TimeWithinDay(t));
        }
    }
  }

  /** MakeDay with the day of month set to `date` keeps the time of day and moves the instant by whole days. */
  lemma SetDateMoves(t: int, k: int, c: Ymd, date: int, n: int)
    requires k == Day(t) && c == CivilFromDay(k) && n == date - c.day
    ensures MakeDay(c.year, c.month - 1, date) * MsPerDay + TimeWithinDay(t) == t + n * MsPerDay
  {
    MakeDayShift(c, n);
    var m := MakeDay(c.year, c.month - 1, date);
    assert m == k + n;
    assert t == k * MsPerDay + TimeWithinDay(t);
    assert m * MsPerDay == k * MsPerDay + n * MsPerDay;
  }

  /** addDaysInTZ: `base.setUTCDate(base.getUTCDate() + days)` on the noon instant, then en-CA. */
  method AddDaysInTZ(s: string, days: int) returns (r: Formatted)
    ensures r == AddDays(s, days)
  {
    var base := new JsDate(NoonPivot(s));
    MoveDate(base, days);
    r := FormatEnCA(base.value);
  }

  /** `base.setUTCDate(base.getUTCDate() + days)`. */
  method MoveDate(base: JsDate, days: int)
    modifies base
    ensures base.value == ShiftDays(old(base.value), days)
  {
    var d := base.GetUTCDate();
    var date := if d.Some? then Some(d.value + days) else None;
    base.SetUTCDate(date);
    assert date.Some? ==> date.value - d.value == days;
  }

  // ----- Date strings of the years 1000 to 9999

  /** "YYYY-MM-DD": four digits, dash, two digits, dash, two digits. */
  predicate DateShape(s: string) {
    |s| == 10 && s[4] == '-' && s[7] == '-'
    && forall k :: 0 <= k < 10 && k != 4 && k != 7 ==> IsDigit(s[k], 10)
  }

  /** The year, month and day written in a date-shaped string. */
  function YmdOf(s: string): (c: Ymd)
    requires DateShape(s)
    ensures 0 <= c.year < 10000 && 0 <= c.month < 100 && 0 <= c.day < 100
    ensures s[0] != '0' ==> 1000 <= c.year
  {
    ShapeParts(s);
    SmallDigitsBound(s[..4]);
    TwoDigitsValue(s[5..7]);
    TwoDigitsValue(s[8..]);
    assert s[..4][0] == s[0];
    YearDigits(s[..4]);
    Ymd(DigitsValue(s[..4], 10), DigitsValue(s[5..7], 10), DigitsValue(s[8..], 10))
  }

  /**
   * A real date of the years 1000 to 9999, written "YYYY-MM-DD". The
   * helpers read such a string back unchanged; for earlier written years
   * they do not (AddDaysZeroTwoDigitYear, AddDaysZeroThreeDigitYear).
   */
  predicate ValidDateString(s: string) {
    DateShape(s) && s[0] != '0' && ValidDate(YmdOf(s))
  }

  /** Day `k` lies in the years 1000 to 9999. */
  predicate InYears(k: int) {
    DayFromYear(1000) <= k < DayFromYear(10000)
  }

  lemma ShapeParts(s: string)
    requires DateShape(s)
    ensures AllDigits(s[..4], 10) && AllDigits(s[5..7], 10) && AllDigits(s[8..], 10)
    ensures s == s[..4] + "-" + s[5..7] + "-" + s[8..]
    ensures '-' !in s[..4] && '-' !in s[5..7] && '-' !in s[8..]
  {
    assert forall k :: 0 <= k < 4 ==> s[..4][k] == s[k];
    assert forall k :: 0 <= k < 2 ==> s[5..7][k] == s[5 + k];
    assert forall k :: 0 <= k < 2 ==> s[8..][k] == s[8 + k];
  }

  /** The three parts of a date-shaped string are the three digit groups. */
  lemma ShapeSplit(s: string)
    requires DateShape(s)
    ensures Split(s, '-') == [s[..4], s[5..7], s[8..]]
  {
    ShapeParts(s);
    var parts := [s[..4], s[5..7], s[8..]];
    assert Join(parts, '-') == s[..4] + ['-'] + (s[5..7] + ['-'] + s[8..]) by {
      assert parts[1..] == [s[5..7], s[8..]];
      assert parts[1..][1..] == [s[8..]];
    }
    JoinInjective(Split(s, '-'), parts, '-');
  }

  lemma SmallDigitsBound(w: string)
    requires AllDigits(w, 10) && |w| <= 4
    ensures DigitsValue(w, 10) < 10000
  {
    DigitsValueBound(w);
    var e := |w|;
    assert Pow10Nat(e) <= 10000 by {
      assert e == 1 || e == 2 || e == 3 || e == 4;
    }
  }

  /** A group of at most four digits converts to its value. */
  lemma SmallDigitsToNumber(w: string)
    requires AllDigits(w, 10) && |w| <= 4
    ensures StringToNumber(w) == Finite(DigitsValue(w, 10) as real)
    ensures DigitsValue(w, 10) < 10000
  {
    SmallDigitsBound(w);
    DigitsToNumber(w);
  }

  /** `split('-').map(Number)` of a date-shaped string reads the three digit groups. */
  lemma PartsOfShape(s: string)
    requires DateShape(s)
    ensures var c := YmdOf(s);
      DateParts(s) == (Finite(c.year as real), Finite(c.month as real), Finite(c.day as real))
  {
    ShapeParts(s);
    ShapeSplit(s);
    SmallDigitsToNumber(s[..4]);
    SmallDigitsToNumber(s[5..7]);
    SmallDigitsToNumber(s[8..]);
  }

  /** Date.UTC on whole numbers, the year not negative. */
  lemma DateUTCOfIntegers(y: nat, m: int, d: int, year: int)
    requires year == if y <= 99 then 1900 + y else y
    ensures DateUTCNoon(Finite(y as real), Decrement(Finite(m as real)), Finite(d as real))
        == TimeClip(MakeDay(year, m - 1, d) * MsPerDay + Noon)
  {
    FullYearOfInteger(y, year);
    TruncateOfInteger(year);
    assert m as real - 1.0 == (m - 1) as real;
    TruncateOfInteger(m - 1);
    TruncateOfInteger(d);
  }

  /** MakeFullYear on a whole year that is not negative. */
  lemma FullYearOfInteger(y: nat, year: int)
    requires year == if y <= 99 then 1900 + y else y
    ensures MakeFullYear(Finite(y as real)) == Finite(year as real)
  {
    TruncateOfInteger(y);
    assert 1900.0 + y as real == (1900 + y) as real;
  }

  lemma TruncateOfInteger(i: int)
    ensures Truncate(i as real) == i
  {
  }

  /** The noon instant of a date-shaped string whose year is 0100 or later: the written date. */
  lemma PivotOfShape(s: string, m: int)
    requires DateShape(s) && YmdOf(s).year > 99
    requires m == MakeDay(YmdOf(s).year, YmdOf(s).month - 1, YmdOf(s).day)
    ensures NoonPivot(s) == TimeClip(m * MsPerDay + Noon)
  {
    var c := YmdOf(s);
    DateUTCOfIntegers(c.year, c.month, c.day, c.year);
    PartsOfShape(s);
  }

  /**
   * A written year from 0000 to 0099 is read 1900 years later (MakeFullYear):
   * "0025-03-01" is the noon of 1 March 1925.
   */
  lemma PivotOfTwoDigitYear(s: string, year: int, m: int)
    requires DateShape(s) && YmdOf(s).year <= 99 && year == 1900 + YmdOf(s).year
    requires m == MakeDay(year, YmdOf(s).month - 1, YmdOf(s).day)
    ensures NoonPivot(s) == TimeClip(m * MsPerDay + Noon)
  {
    var c := YmdOf(s);
    DateUTCOfIntegers(c.year, c.month, c.day, year);
    PartsOfShape(s);
  }

  /** The noon instant of a valid date string is the noon of its day number `k`. */
  lemma PivotOfValid(s: string, k: int)
    requires ValidDateString(s) && k == DayNumber(YmdOf(s))
    ensures NoonPivot(s) == Time(k * MsPerDay + Noon)
  {
    var c := YmdOf(s);
    ValidParts(s, c);
    PivotOfDate(s, c, k);
  }

  lemma ValidParts(s: string, c: Ymd)
    requires ValidDateString(s) && c == YmdOf(s)
    ensures DateShape(s) && ValidDate(c) && 1000 <= c.year < 10000
  {
  }

  lemma PivotOfDate(s: string, c: Ymd, k: int)
    requires DateShape(s) && c == YmdOf(s) && ValidDate(c) && 1000 <= c.year < 10000 && k == DayNumber(c)
    ensures NoonPivot(s) == Time(k * MsPerDay + Noon)
  {
    assert MakeDay(c.year, c.month - 1, c.day) == k by {
      MakeDayOfDate(c);
    }
    assert InYears(k) by {
      ClipOfDate(c);
    }
    NoonClip(k);
    PivotOfShape(s, k);
  }

  /** TimeClip keeps the noon of a day of the years 1000 to 9999. */
  lemma NoonClip(k: int)
    requires InYears(k)
    ensures TimeClip(k * MsPerDay + Noon) == Time(k * MsPerDay + Noon)
  {
  }

  /** A valid date of the years 1000 to 9999: MakeDay gives its day number, whose noon TimeClip keeps. */
  lemma ClipOfDate(c: Ymd)
    requires ValidDate(c) && 1000 <= c.year < 10000
    ensures InYears(DayNumber(c))
    ensures TimeClip(MakeDay(c.year, c.month - 1, c.day) * MsPerDay + Noon) == Time(DayNumber(c) * MsPerDay + Noon)
  {
    MakeDayOfDate(c);
    DayNumberInYear(c);
    DayFromYearMonotone(1000, c.year);
    DayFromYearMonotone(c.year + 1, 10000);
  }

  /** Four digits not starting with 0 are a year from 1000 to 9999. */
  lemma YearDigits(w: string)
    requires AllDigits(w, 10) && |w| == 4
    ensures w[0] != '0' ==> 1000 <= DigitsValue(w, 10) <= 9999
  {
    var d, r := DigitValue(w[0], 10), DigitsValue(w[1..], 10);
    assert DigitsValue(w, 10) == d * 1000 + r by {
      DigitsValueCons(w[0], w[1..]);
      assert w == [w[0]] + w[1..];
      PowerOfThree(|w[1..]|);
    }
    assert r < 1000 by {
      DigitsValueBound(w[1..]);
      PowerOfThree(|w[1..]|);
    }
    assert IsDigit(w[0], 10);
  }

  lemma PowerOfThree(e: nat)
    requires e == 3
    ensures Pow10Nat(e) == 1000
  {
    assert Pow10Nat(1) == 10;
    assert Pow10Nat(2) == 100;
  }

  /** Four digits exactly render a year from 1000 to 9999. */
  lemma DecimalStringFour(n: nat)
    requires 1000 <= n <= 9999
    ensures |DecimalString(n)| == 4 && DecimalString(n)[0] != '0'
  {
    var n1 := n / 10;
    var n2 := n1 / 10;
    var n3 := n2 / 10;
    assert DecimalString(n) == DecimalString(n1) + [DecimalDigit(n % 10)];
    assert DecimalString(n1) == DecimalString(n2) + [DecimalDigit(n1 % 10)];
    assert DecimalString(n2) == DecimalString(n3) + [DecimalDigit(n2 % 10)];
  }

  /** Two digits render back as themselves. */
  lemma Pad2OfDigits(w: string)
    requires AllDigits(w, 10) && |w| == 2
    ensures DigitsValue(w, 10) < 100 && Pad2(DigitsValue(w, 10)) == w
  {
    TwoDigitsValue(w);
  }

  /** Rendering the date written in a valid string gives that string. */
  lemma DateTextOfValid(s: string)
    requires ValidDateString(s)
    ensures DateText(YmdOf(s)) == s
  {
    ShapeParts(s);
    DecimalStringOfDigits(s[..4]);
    Pad2OfDigits(s[5..7]);
    Pad2OfDigits(s[8..]);
  }

  /** Rendering a valid date of the years 1000 to 9999 gives a valid string that reads back as the date. */
  lemma DateTextValid(c: Ymd)
    requires ValidDate(c) && 1000 <= c.year <= 9999
    ensures ValidDateString(DateText(c))
    ensures YmdOf(DateText(c)) == c
  {
    DecimalStringFour(c.year);
    var y, m, d := DecimalString(c.year), Pad2(c.month), Pad2(c.day);
    var s := DateText(c);
    assert s[..4] == y && s[5..7] == m && s[8..] == d;
    assert forall k :: 0 <= k < 4 ==> s[k] == y[k];
    assert forall k :: 5 <= k < 7 ==> s[k] == m[k - 5];
    assert forall k :: 8 <= k < 10 ==> s[k] == d[k - 8];
  }

  /** A day of the years 1000 to 9999 has a civil date of those years. */
  lemma CivilInYears(k: int)
    requires InYears(k)
    ensures 1000 <= CivilFromDay(k).year <= 9999
  {
    var c := CivilFromDay(k);
    DayNumberInYear(c);
    DayFromYearMonotone(c.year + 1, 1000);
    DayFromYearMonotone(10000, c.year);
  }

  /** The "YYYY-MM-DD" text of a day of the years 1000 to 9999. */
  function DayText(k: int): string
    requires InYears(k)
  {
    CivilInYears(k);
    DateText(CivilFromDay(k))
  }

  /** The en-CA text of the noon instant of a day in the years 1000 to 9999 is its civil date. */
  lemma FormatOfDay(k: int)
    requires InYears(k)
    ensures FormatEnCA(Time(k * MsPerDay + Noon)) == Text(DayText(k))
  {
    CivilInYears(k);
    DayOfNoon(k);
  }

  /** The text of a day of the years 1000 to 9999 is a valid date string that reads back as that day. */
  lemma DayTextValid(k: int)
    requires InYears(k)
    ensures ValidDateString(DayText(k))
    ensures DayNumber(YmdOf(DayText(k))) == k
  {
    CivilInYears(k);
    DateTextValid(CivilFromDay(k));
  }

  /** The noon instant of day `k`, moved `n` days, is the noon instant of day `j`, which is `k + n`. */
  lemma ShiftNoon(k: int, n: int, j: int)
    requires j == k + n && InYears(j)
    ensures ShiftDays(Time(k * MsPerDay + Noon), n) == Time(j * MsPerDay + Noon)
  {
    assert k * MsPerDay + Noon + n * MsPerDay == j * MsPerDay + Noon;
    CivilInYears(j);
    DayFromYearBelowEpoch(10000);
    DayFromYearMonotone(1000, 1970);
  }

  // ----- Properties of the helpers

  /** formatDateForTZ shows a valid date string unchanged. */
  lemma FormatDateForTZIdentity(s: string)
    requires ValidDateString(s)
    ensures FormatDateForTZ(s) == Text(s)
  {
    var c := YmdOf(s);
    var k := DayNumber(c);
    ClipOfDate(c);
    FormatOfDay(k);
    CivilOfDayNumber(c);
    DateTextOfValid(s);
    PivotOfValid(s, k);
  }

  /**
   * addDaysInTZ on a valid date string gives the text of day `j`, the day `n`
   * days later, as long as that day is in the years 1000 to 9999.
   */
  lemma AddDaysMoves(s: string, n: int, j: int)
    requires ValidDateString(s) && j == DayNumber(YmdOf(s)) + n && InYears(j)
    ensures AddDays(s, n) == Text(DayText(j))
  {
    var k := DayNumber(YmdOf(s));
    PivotOfValid(s, k);
    ShiftedFormat(NoonPivot(s), k, n, j);
  }

  /** en-CA of the noon instant of day `k` moved `n` days is the text of day `j`, which is `k + n`. */
  lemma ShiftedFormat(t: TimeValue, k: int, n: int, j: int)
    requires t == Time(k * MsPerDay + Noon) && j == k + n && InYears(j)
    ensures FormatEnCA(ShiftDays(t, n)) == Text(DayText(j))
  {
    ShiftNoon(k, n, j);
    FormatOfDay(j);
  }

  /** Moving the text of day `j` by `n` days gives the text of day `i`, which is `j + n`. */
  lemma AddDaysOfDay(j: int, n: int, i: int)
    requires InYears(j) && i == j + n && InYears(i)
    ensures AddDays(DayText(j), n) == Text(DayText(i))
  {
    DayTextValid(j);
    AddDaysMoves(DayText(j), n, i);
  }

  /** Adding zero days gives the same string back. */
  lemma AddDaysZero(s: string)
    requires ValidDateString(s)
    ensures AddDays(s, 0) == Text(s)
  {
    var c := YmdOf(s);
    var k := DayNumber(c);
    ClipOfDate(c);
    CivilOfDayNumber(c);
    DateTextOfValid(s);
    AddDaysMoves(s, 0, k);
  }

  /** A valid date string is the text of its day number `k`. */
  lemma ValidIsDayText(s: string, k: int)
    requires ValidDateString(s) && k == DayNumber(YmdOf(s))
    ensures InYears(k) && s == DayText(k)
  {
    var c := YmdOf(s);
    ClipOfDate(c);
    CivilOfDayNumber(c);
    DateTextOfValid(s);
  }

  /** From the text of day `k`, moving `n` days and then `-n` days comes back. */
  lemma RoundTripOfDay(k: int, n: int)
    requires InYears(k) && InYears(k + n)
    ensures var t := DayText(k);
      AddDays(t, n).Text? && AddDays(AddDays(t, n).text, -n) == Text(t)
  {
    var j := k + n;
    AddDaysOfDay(k, n, j);
    AddDaysOfDayBack(k, n, j);
    ChainBack(DayText(k), DayText(j), n);
  }

  /** Moving the text of day `j`, which is `k + n`, back by `n` days gives the text of day `k`. */
  lemma AddDaysOfDayBack(k: int, n: int, j: int)
    requires InYears(k) && j == k + n && InYears(j)
    ensures AddDays(DayText(j), -n) == Text(DayText(k))
  {
    var m := -n;
    AddDaysOfDay(j, m, k);
    AddDaysNegated(DayText(j), DayText(k), m, n);
  }

  /** A move by `m` days, where `m` is `-n`, is a move by `-n` days. */
  lemma AddDaysNegated(t: string, u: string, m: int, n: int)
    requires m == -n && AddDays(t, m) == Text(u)
    ensures AddDays(t, -n) == Text(u)
  {
    ShiftNegated(NoonPivot(t), m, n);
  }

  lemma ShiftNegated(x: TimeValue, m: int, n: int)
    requires m == -n
    ensures ShiftDays(x, m) == ShiftDays(x, -n)
  {
  }

  /** If `n` days from `t` is `u` and `-n` days from `u` is `t`, the two moves undo each other. */
  lemma ChainBack(t: string, u: string, n: int)
    requires AddDays(t, n) == Text(u) && AddDays(u, -n) == Text(t)
    ensures AddDays(t, n).Text? && AddDays(AddDays(t, n).text, -n) == Text(t)
  {
  }

  /** Moving `n` days and then `-n` days gives the starting date back. */
  lemma AddDaysRoundTrip(s: string, n: int)
    requires ValidDateString(s) && InYears(DayNumber(YmdOf(s)) + n)
    ensures AddDays(s, n).Text? && AddDays(AddDays(s, n).text, -n) == Text(s)
  {
    var k := DayNumber(YmdOf(s));
    ValidIsDayText(s, k);
    RoundTripOfDay(k, n);
  }

  /** From the text of day `k`, moving `a` days and then `b` days is moving `a + b` days. */
  lemma ComposeOfDay(k: int, a: int, b: int)
    requires InYears(k) && InYears(k + a) && InYears(k + a + b)
    ensures var t := DayText(k);
      AddDays(t, a).Text? && AddDays(AddDays(t, a).text, b) == AddDays(t, a + b)
  {
    var i, j, c := k + a, k + a + b, a + b;
    var t, u, v := DayText(k), DayText(i), DayText(j);
    AddDaysOfDay(k, a, i);
    AddDaysOfDay(i, b, j);
    AddDaysOfDay(k, c, j);
    AddDaysSummed(t, v, c, a, b);
    ChainCompose(t, u, v, a, b);
  }

  /** A move by `c` days, where `c` is `a + b`, is a move by `a + b` days. */
  lemma AddDaysSummed(t: string, u: string, c: int, a: int, b: int)
    requires c == a + b && AddDays(t, c) == Text(u)
    ensures AddDays(t, a + b) == Text(u)
  {
    ShiftSummed(NoonPivot(t), c, a, b);
  }

  lemma ShiftSummed(x: TimeValue, c: int, a: int, b: int)
    requires c == a + b
    ensures ShiftDays(x, c) == ShiftDays(x, a + b)
  {
  }

  /** If `a` days from `t` is `u`, `b` days from `u` is `v` and `a + b` days from `t` is `v`, the moves compose. */
  lemma ChainCompose(t: string, u: string, v: string, a: int, b: int)
    requires AddDays(t, a) == Text(u) && AddDays(u, b) == Text(v) && AddDays(t, a + b) == Text(v)
    ensures AddDays(t, a).Text? && AddDays(AddDays(t, a).text, b) == AddDays(t, a + b)
  {
  }

  /** Moving `a` days and then `b` days is moving `a + b` days. */
  lemma AddDaysCompose(s: string, a: int, b: int)
    requires ValidDateString(s)
    requires InYears(DayNumber(YmdOf(s)) + a) && InYears(DayNumber(YmdOf(s)) + a + b)
    ensures AddDays(s, a).Text? && AddDays(AddDays(s, a).text, b) == AddDays(s, a + b)
  {
    var k := DayNumber(YmdOf(s));
    ValidIsDayText(s, k);
    ComposeOfDay(k, a, b);
  }

  /**
   * On valid date strings the string comparison `a < b` that the range
   * filters use is the order of the days.
   */
  lemma DateStringOrder(a: string, b: string)
    requires ValidDateString(a) && ValidDateString(b)
    ensures LexLess(a, b) <==> DayNumber(YmdOf(a)) < DayNumber(YmdOf(b))
  {
    ShapeOrder(a, b);
    DayNumberOrder(YmdOf(a), YmdOf(b));
  }

  /** Digit groups of equal length compare as strings the way their values compare. */
  lemma GroupOrder(x: string, y: string)
    requires AllDigits(x, 10) && AllDigits(y, 10) && |x| == |y|
    ensures LexLess(x, y) <==> DigitsValue(x, 10) < DigitsValue(y, 10)
    ensures x == y <==> DigitsValue(x, 10) == DigitsValue(y, 10)
  {
    DigitsLexOrder(x, y);
    DigitsLexOrder(y, x);
    LexLessTotal(x, y);
    LexLessIrreflexive(x);
  }

  /** Date-shaped strings compare by year, then month, then day. */
  lemma ShapeOrder(a: string, b: string)
    requires DateShape(a) && DateShape(b)
    ensures var ca, cb := YmdOf(a), YmdOf(b);
      LexLess(a, b) <==>
        ca.year < cb.year || (ca.year == cb.year && (ca.month < cb.month || (ca.month == cb.month && ca.day < cb.day)))
  {
    ShapeParts(a);
    ShapeParts(b);
    GroupOrder(a[..4], b[..4]);
    GroupOrder(a[5..7], b[5..7]);
    GroupOrder(a[8..], b[8..]);
    FieldOrder(a, b, 4);
    if a[..4] == b[..4] {
      assert a[5..][..2] == a[5..7] && b[5..][..2] == b[5..7];
      assert a[5..][3..] == a[8..] && b[5..][3..] == b[8..];
      FieldOrder(a[5..], b[5..], 2);
    }
  }

  /**
   * Two strings of the same length with the same separator at `n` compare by
   * their first `n` characters, and when those agree, by what follows the separator.
   */
  lemma FieldOrder(a: string, b: string, n: int)
    requires 0 <= n < |a| == |b| && a[n] == b[n]
    ensures LexLess(a, b) <==> LexLess(a[..n], b[..n]) || (a[..n] == b[..n] && LexLess(a[n + 1..], b[n + 1..]))
  {
    assert a == a[..n] + a[n..] && b == b[..n] + b[n..];
    if a[..n] != b[..n] {
      LexLessDecidedByPrefix(a[..n], a[n..], b[..n], b[n..]);
    } else {
      assert a[..n + 1] == b[..n + 1];
      assert a == a[..n + 1] + a[n + 1..] && b == b[..n + 1] + b[n + 1..];
      LexLessCommonPrefix(a[..n + 1], a[n + 1..], b[n + 1..]);
      LexLessIrreflexive(a[..n]);
    }
  }

  /** The weekday of a valid date string is the weekday of its day. */
  lemma WeekdayOfValid(s: string)
    requires ValidDateString(s)
    ensures WeekdayFromDateString(s) == Text(ToLower(WeekdayName(WeekDay(DayNumber(YmdOf(s))))))
  {
    var k := DayNumber(YmdOf(s));
    DayOfNoon(k);
    PivotOfValid(s, k);
  }

  // ----- Date strings outside the years 1000 to 9999

  /**
   * A written year from 0000 to 0099 does not read back: adding zero days
   * gives the text of the date 1900 years later, `c`, not the string itself.
   */
  lemma AddDaysZeroTwoDigitYear(s: string, c: Ymd, k: int)
    requires DateShape(s) && YmdOf(s).year <= 99
    requires c == Ymd(1900 + YmdOf(s).year, YmdOf(s).month, YmdOf(s).day) && ValidDate(c)
    requires k == DayNumber(c)
    ensures AddDays(s, 0) == Text(DateText(c))
    ensures AddDays(s, 0) != Text(s)
  {
    TwoDigitYearPivot(s, c, k);
    ShiftNoon(k, 0, k);
    FormatOfDay(k);
    CivilOfDayNumber(c);
    DecimalStringFour(c.year);
    assert DateText(c)[0] == DecimalString(c.year)[0];
  }

  /** The weekday of a written year from 0000 to 0099 is that of the date 1900 years later, day `k`. */
  lemma WeekdayOfTwoDigitYear(s: string, c: Ymd, k: int)
    requires DateShape(s) && YmdOf(s).year <= 99
    requires c == Ymd(1900 + YmdOf(s).year, YmdOf(s).month, YmdOf(s).day) && ValidDate(c)
    requires k == DayNumber(c)
    ensures WeekdayFromDateString(s) == Text(ToLower(WeekdayName(WeekDay(k))))
  {
    TwoDigitYearPivot(s, c, k);
    DayOfNoon(k);
  }

  lemma TwoDigitYearPivot(s: string, c: Ymd, k: int)
    requires DateShape(s) && YmdOf(s).year <= 99
    requires c == Ymd(1900 + YmdOf(s).year, YmdOf(s).month, YmdOf(s).day) && ValidDate(c)
    requires k == DayNumber(c)
    ensures InYears(k) && NoonPivot(s) == Time(k * MsPerDay + Noon)
  {
    assert MakeDay(c.year, c.month - 1, c.day) == k by {
      MakeDayOfDate(c);
    }
    assert InYears(k) by {
      ClipOfDate(c);
    }
    NoonClip(k);
    PivotOfTwoDigitYear(s, c.year, k);
  }

  /**
   * A written year from 0100 to 0999 is read as written, but en-CA prints the
   * year without its leading zero: the text of the date has nine characters,
   * so it is not the string.
   */
  lemma AddDaysZeroThreeDigitYear(s: string, k: int)
    requires DateShape(s) && 100 <= YmdOf(s).year <= 999 && ValidDate(YmdOf(s))
    requires k == DayNumber(YmdOf(s))
    ensures AddDays(s, 0) == Text(DateText(YmdOf(s)))
    ensures |DateText(YmdOf(s))| == 9 && AddDays(s, 0) != Text(s)
  {
    var c := YmdOf(s);
    ThreeDigitYearPivot(s, c, k);
    assert ShiftDays(Time(k * MsPerDay + Noon), 0) == Time(k * MsPerDay + Noon);
    DayOfNoon(k);
    CivilOfDayNumber(c);
    DecimalStringThree(c.year);
  }

  lemma ThreeDigitYearPivot(s: string, c: Ymd, k: int)
    requires DateShape(s) && c == YmdOf(s) && 100 <= c.year <= 999 && ValidDate(c)
    requires k == DayNumber(c)
    ensures NoonPivot(s) == Time(k * MsPerDay + Noon)
  {
    assert MakeDay(c.year, c.month - 1, c.day) == k by {
      MakeDayOfDate(c);
    }
    assert DayFromYear(100) <= k < DayFromYear(1000) by {
      DayNumberInYear(c);
      DayFromYearMonotone(100, c.year);
      DayFromYearMonotone(c.year + 1, 1000);
    }
    EarlyNoonClip(k);
    PivotOfShape(s, k);
  }

  /** TimeClip keeps the noon of a day of the years 100 to 999. */
  lemma EarlyNoonClip(k: int)
    requires DayFromYear(100) <= k < DayFromYear(1000)
    ensures TimeClip(k * MsPerDay + Noon) == Time(k * MsPerDay + Noon)
  {
  }

  /** Three digits exactly render a number from 100 to 999. */
  lemma DecimalStringThree(n: nat)
    requires 100 <= n <= 999
    ensures |DecimalString(n)| == 3
  {
    var n1 := n / 10;
    var n2 := n1 / 10;
    assert DecimalString(n) == DecimalString(n1) + [DecimalDigit(n % 10)];
    assert DecimalString(n1) == DecimalString(n2) + [DecimalDigit(n1 % 10)];
  }

  /**
   * A string holding only a year: the missing month and day default to 1,
   * so it names the first of January of that year, day `k`.
   */
  lemma WeekdayOfYearOnly(s: string, k: int)
    requires |s| == 4 && AllDigits(s, 10) && s[0] != '0'
    requires k == DayNumber(Ymd(DigitsValue(s, 10), 1, 1))
    ensures NoonPivot(s) == Time(k * MsPerDay + Noon)
    ensures WeekdayFromDateString(s) == Text(ToLower(WeekdayName(WeekDay(k))))
  {
    PivotOfYearOnly(s, k);
    DayOfNoon(k);
  }

  lemma PivotOfYearOnly(s: string, k: int)
    requires |s| == 4 && AllDigits(s, 10) && s[0] != '0'
    requires k == DayNumber(Ymd(DigitsValue(s, 10), 1, 1))
    ensures NoonPivot(s) == Time(k * MsPerDay + Noon)
  {
    var y := DigitsValue(s, 10);
    YearOnlyParts(s, y);
    YearOnlyDay(y, k);
    NoonClip(k);
    YearOnlyPivot(s, y, k);
  }

  /** The first of January of a year from 1000 to 9999 is day `k`, in range. */
  lemma YearOnlyDay(y: int, k: int)
    requires 1000 <= y <= 9999 && k == DayNumber(Ymd(y, 1, 1))
    ensures MakeDay(y, 0, 1) == k && InYears(k)
  {
    var c := Ymd(y, 1, 1);
    MakeDayOfDate(c);
    ClipOfDate(c);
  }

  /** `split('-').map(Number)` of four digits: the year, with month and day 1. */
  lemma YearOnlyParts(s: string, y: int)
    requires |s| == 4 && AllDigits(s, 10) && s[0] != '0' && y == DigitsValue(s, 10)
    ensures 1000 <= y <= 9999
    ensures DateParts(s) == (Finite(y as real), Finite(1.0), Finite(1.0))
  {
    YearDigits(s);
    assert Split(s, '-') == [s] by {
      assert '-' !in s by {
        forall i | 0 <= i < |s| ensures s[i] != '-' { assert IsDigit(s[i], 10); }
      }
      SplitJoin([s], '-');
    }
    SmallDigitsToNumber(s);
  }

  lemma YearOnlyPivot(s: string, y: int, m: int)
    requires 1000 <= y <= 9999 && DateParts(s) == (Finite(y as real), Finite(1.0), Finite(1.0))
    requires m == MakeDay(y, 0, 1)
    ensures NoonPivot(s) == TimeClip(m * MsPerDay + Noon)
  {
    assert MakeDay(y, 1 - 1, 1) == m;
    DateUTCOfIntegers(y, 1, 1, y);
  }

  /** The weekday of the text of day `j`. */
  lemma WeekdayOfDayText(j: int)
    requires InYears(j)
    ensures WeekdayFromDateString(DayText(j)) == Text(ToLower(WeekdayName(WeekDay(j))))
  {
    DayTextValid(j);
    WeekdayOfValid(DayText(j));
  }

  /** The weekday of a valid date string moved `n` days to day `j` is the weekday of day `j`. */
  lemma WeekdayAfterMove(s: string, n: int, j: int)
    requires ValidDateString(s) && j == DayNumber(YmdOf(s)) + n && InYears(j)
    ensures AddDays(s, n).Text?
    ensures WeekdayFromDateString(AddDays(s, n).text) == Text(ToLower(WeekdayName(WeekDay(j))))
  {
    AddDaysMoves(s, n, j);
    WeekdayOfDayText(j);
  }

  lemma NextWeekdayName(k: int, j: int)
    requires j == k + 1
    ensures WeekdayName(WeekDay(j)) == WeekdayName((WeekDay(k) + 1) % 7)
  {
    WeekDayNext(k);
  }

  /** The day after a valid date string of day `k` falls on the next weekday. */
  lemma WeekdayOfNextDay(s: string, k: int)
    requires ValidDateString(s) && k == DayNumber(YmdOf(s)) && InYears(k + 1)
    ensures AddDays(s, 1).Text?
    ensures WeekdayFromDateString(AddDays(s, 1).text) == Text(ToLower(WeekdayName((WeekDay(k) + 1) % 7)))
  {
    var j := k + 1;
    NextWeekdayName(k, j);
    WeekdayAfterMove(s, 1, j);
  }

  /** The en-US heading of the noon instant of the day `k` of a date `c`. */
  lemma HeadingOfDay(c: Ymd, k: int)
    requires ValidDate(c) && 1 <= c.year && k == DayNumber(c)
    ensures FormatHeading(Time(k * MsPerDay + Noon)) == Text(WeekdayName(WeekDay(k)) + ", " + LongDate(c))
  {
    DayOfNoon(k);
    CivilOfDayNumber(c);
  }

  /** The heading of a valid date string of day `k` names its weekday, month, day and year. */
  lemma HeadingOfValid(s: string, k: int)
    requires ValidDateString(s) && k == DayNumber(YmdOf(s))
    ensures var c := YmdOf(s);
      1 <= c.year && HeadingForDate(s) == Text(WeekdayName(WeekDay(k)) + ", " + LongDate(c))
  {
    HeadingOfDay(YmdOf(s), k);
    PivotOfValid(s, k);
  }

  /** The English weekday names are capitalised words. */
  lemma WeekdayNameCapitalised(w: int)
    requires 0 <= w < 7
    ensures Capitalised(WeekdayName(w))
  {
  }

  /**
   * For any string, the heading and the weekday agree: both are a RangeError
   * together, and a heading begins with the capitalised weekday and a comma.
   */
  lemma HeadingAgreesWithWeekday(s: string)
    ensures HeadingForDate(s).RangeError? <==> WeekdayFromDateString(s).RangeError?
    ensures HeadingForDate(s).Text? ==>
      WeekdayFromDateString(s).Text? && Cap(WeekdayFromDateString(s).text) + ", " <= HeadingForDate(s).text
  {
    HeadingAgreesAtTime(NoonPivot(s));
  }

  /** The heading of a time value starts with its capitalised weekday, and both fail together. */
  lemma HeadingAgreesAtTime(t: TimeValue)
    ensures FormatHeading(t).RangeError? <==> FormatWeekday(t).RangeError?
    ensures FormatHeading(t).Text? ==>
      FormatWeekday(t).Text? && Cap(ToLower(FormatWeekday(t).text)) + ", " <= FormatHeading(t).text
  {
    if t.Time? && FormatHeading(t).Text? {
      var k := Day(t.ms);
      var w := WeekdayName(WeekDay(k));
      WeekdayNameCapitalised(WeekDay(k));
      CapOfLower(w);
      StartsWith(w + ", ", LongDate(CivilFromDay(k)));
    }
  }

  /** A sequence is a prefix of itself followed by anything. */
  lemma StartsWith(a: string, b: string)
    ensures a <= a + b
  {
    assert (a + b)[..|a|] == a;
  }

  /**
   * The parts of a string split at '-' hold no minus sign, so none is negative,
   * and the noon instant, when there is one, is at noon of a day of year 98 or later.
   */
  lemma PivotDayBound(s: string)
    ensures NoonPivot(s).Time? ==>
      DayFromYear(98) <= Day(NoonPivot(s).ms) && TimeWithinDay(NoonPivot(s).ms) == Noon
  {
    var parts := Split(s, '-');
    NoMinusNotNegative(parts[0]);
    if |parts| > 1 { NoMinusNotNegative(parts[1]); }
    if |parts| > 2 { NoMinusNotNegative(parts[2]); }
    var (y, m, d) := DateParts(s);
    NoonDayBound(y, m, d);
  }

  lemma NoonDayBound(y: Number, m: Number, d: Number)
    requires NotNegative(y) && NotNegative(m) && NotNegative(d)
    ensures DateUTCNoon(y, Decrement(m), d).Time? ==>
      DayFromYear(98) <= Day(DateUTCNoon(y, Decrement(m), d).ms)
      && TimeWithinDay(DateUTCNoon(y, Decrement(m), d).ms) == Noon
  {
    var yr := MakeFullYear(y);
    var mm := Decrement(m);
    if yr.Finite? && mm.Finite? && d.Finite? {
      var ty, tm, td := Truncate(yr.value), Truncate(mm.value), Truncate(d.value);
      assert ty >= 100;
      assert tm >= -1 && td >= 0;
      var ym := ty + tm / 12;
      assert ym >= 99;
      DayFromYearMonotone(99, ym);
      DayFromYearStep(98);
      var k := MakeDay(ty, tm, td);
      assert k >= DayFromYear(98);
      DayOfNoon(k);
    }
  }

  /** The era is never needed: no date string gives an instant before year 1. */
  lemma NoEraForDateStrings(s: string)
    ensures FormatDateForTZ(s) != EraNotModelled
    ensures HeadingForDate(s) != EraNotModelled
  {
    PivotDayBound(s);
    if NoonPivot(s).Time? {
      LateDayYear(Day(NoonPivot(s).ms));
    }
  }

  /** A day of year 98 or later is formatted without an era. */
  lemma LateDayYear(k: int)
    requires DayFromYear(98) <= k
    ensures CivilFromDay(k).year >= 98
  {
    var y := YearFromDay(k);
    DayFromYearMonotone(y + 1, 98);
  }
}
