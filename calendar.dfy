/**
 * Civil (proleptic Gregorian) dates and `getLastWorkday`
 * (`src/lib/utils.ts`): the working day before a date, where Saturday and
 * Sunday are not working days.
 *
 * A date is numbered by its distance in days from 1970-01-01, which was a
 * Thursday; weekdays are numbered as `Date.getDay` numbers them, 0 for
 * Sunday to 6 for Saturday.
 */
module Calendar {
  import opened Wrappers
  import opened Validators

  datatype Date = Date(year: int, month: int, day: int)

  predicate IsLeap(y: int) {
    y % 4 == 0 && (y % 100 != 0 || y % 400 == 0)
  }

  function DaysInMonth(y: int, m: int): (n: int)
    requires 1 <= m <= 12
    ensures 28 <= n <= 31
    ensures m == 2 ==> (n == 29 <==> IsLeap(y))
  {
    if m == 2 then (if IsLeap(y) then 29 else 28)
    else if m == 4 || m == 6 || m == 9 || m == 11 then 30
    else 31
  }

  predicate ValidDate(d: Date) {
    1 <= d.month <= 12 && 1 <= d.day <= DaysInMonth(d.year, d.month)
  }

  /** The days of year `y` before the first of month `m`. */
  function DaysBeforeMonth(y: int, m: int): int
    requires 1 <= m <= 12
  {
    var common :=
      if m == 1 then 0 else if m == 2 then 31 else if m == 3 then 59
      else if m == 4 then 90 else if m == 5 then 120 else if m == 6 then 151
      else if m == 7 then 181 else if m == 8 then 212 else if m == 9 then 243
      else if m == 10 then 273 else if m == 11 then 304 else 334;
    if m > 2 && IsLeap(y) then common + 1 else common
  }

  /** The days from 0000-01-01 to the first of January of year `y` (negative before year 0). */
  function DaysBeforeYear(y: int): int {
    365 * y + (y + 3) / 4 - (y + 99) / 100 + (y + 399) / 400
  }

  /** The number of the date: 0 for 1970-01-01, one more for each later day. */
  function DayNumber(d: Date): int
    requires ValidDate(d)
  {
    DaysBeforeYear(d.year) + DaysBeforeMonth(d.year, d.month) + d.day - 1 - DaysBeforeYear(1970)
  }

  /** The weekday of a day number: 0 Sunday, 1 Monday, ..., 6 Saturday. */
  function WeekdayOf(n: int): (w: int)
    ensures 0 <= w < 7
  {
    (n + 4) % 7
  }

  /** `Date.getDay()`. */
  function Weekday(d: Date): (w: int)
    requires ValidDate(d)
    ensures 0 <= w < 7
  {
    WeekdayOf(DayNumber(d))
  }

  /** A year has 366 days exactly when it is a leap year. */
  lemma YearLength(y: int)
    ensures DaysBeforeYear(y + 1) == DaysBeforeYear(y) + if IsLeap(y) then 366 else 365
  {
    var d4, d100, d400 := (y + 4) / 4 - (y + 3) / 4, (y + 100) / 100 - (y + 99) / 100, (y + 400) / 400 - (y + 399) / 400;
    assert DaysBeforeYear(y + 1) - DaysBeforeYear(y) == 365 + d4 - d100 + d400;
    StepOver4(y);
    StepOver100(y);
    StepOver400(y);
    LeapDivisors(y);
  }

  /** A multiple of 400 is a multiple of 100, and a multiple of 100 one of 4. */
  lemma LeapDivisors(y: int)
    ensures y % 400 == 0 ==> y % 100 == 0
    ensures y % 100 == 0 ==> y % 4 == 0
  {
    if y % 400 == 0 {
      var k := y / 400;
      assert y == 400 * k;
      assert y - 100 * (4 * k) == 0;
    }
    if y % 100 == 0 {
      var k := y / 100;
      assert y == 100 * k;
      assert y - 4 * (25 * k) == 0;
    }
  }

  /** One more multiple of 4 is counted exactly when 4 divides `y`. */
  lemma StepOver4(y: int)
    ensures (y + 4) / 4 - (y + 3) / 4 == if y % 4 == 0 then 1 else 0
  {
  }

  /** One more multiple of 100 is counted exactly when 100 divides `y`. */
  lemma StepOver100(y: int)
    ensures (y + 100) / 100 - (y + 99) / 100 == if y % 100 == 0 then 1 else 0
  {
  }

  /** One more multiple of 400 is counted exactly when 400 divides `y`. */
  lemma StepOver400(y: int)
    ensures (y + 400) / 400 - (y + 399) / 400 == if y % 400 == 0 then 1 else 0
  {
  }

  /** A month starts where the one before it ends. */
  lemma MonthLength(y: int, m: int)
    requires 2 <= m <= 12
    ensures DaysBeforeMonth(y, m) == DaysBeforeMonth(y, m - 1) + DaysInMonth(y, m - 1)
  {
  }

  /** The day before a date, across month and year boundaries. */
  function PrevDay(d: Date): (r: Date)
    requires ValidDate(d)
    ensures ValidDate(r)
    ensures DayNumber(r) == DayNumber(d) - 1
  {
    if d.day > 1 then d.(day := d.day - 1)
    else if d.month > 1 then
      MonthLength(d.year, d.month);
      Date(d.year, d.month - 1, DaysInMonth(d.year, d.month - 1))
    else
      YearLength(d.year - 1);
      Date(d.year - 1, 12, 31)
  }

  /** The date `k` days earlier: `date.setDate(date.getDate() - k)`. */
  function MinusDays(d: Date, k: nat): (r: Date)
    requires ValidDate(d)
    ensures ValidDate(r)
    ensures DayNumber(r) == DayNumber(d) - k
    decreases k
  {
    if k == 0 then d else MinusDays(PrevDay(d), k - 1)
  }

  /** How far `getLastWorkday` steps back from a date with weekday `w`. */
  function Offset(w: int): (k: nat)
    ensures 1 <= k <= 3
  {
    if w == 0 then 2        // Sunday -> Friday
    else if w == 6 then 1   // Saturday -> Friday
    else if w == 1 then 3   // Monday -> Friday
    else 1                  // Tuesday to Friday -> the day before
  }

  /** The last working day before a date. */
  function LastWorkdayDate(d: Date): Date
    requires ValidDate(d)
  {
    MinusDays(d, Offset(Weekday(d)))
  }

  /** Each weekday steps back by its own offset. */
  lemma LastWorkdayOffsets(d: Date)
    requires ValidDate(d)
    ensures var back := DayNumber(d) - DayNumber(LastWorkdayDate(d));
      && (Weekday(d) == 0 ==> back == 2)
      && (Weekday(d) == 6 ==> back == 1)
      && (Weekday(d) == 1 ==> back == 3)
      && (2 <= Weekday(d) <= 5 ==> back == 1)
  {
  }

  /**
   * The result is a Monday to Friday, one to three days earlier, and every
   * day strictly between it and the input is a Saturday or a Sunday: it is
   * the latest working day before the input.
   */
  lemma LastWorkdayIsPreviousWorkday(d: Date)
    requires ValidDate(d)
    ensures var r := LastWorkdayDate(d);
      && ValidDate(r)
      && 1 <= Weekday(r) <= 5
      && 1 <= DayNumber(d) - DayNumber(r) <= 3
      && forall n :: DayNumber(r) < n < DayNumber(d) ==> WeekdayOf(n) == 0 || WeekdayOf(n) == 6
  {
    OffsetLandsOnWorkday(DayNumber(d));
  }

  /** Stepping back from day `x` by the offset of its weekday skips only a weekend and lands on a working day. */
  lemma OffsetLandsOnWorkday(x: int)
    ensures var k := Offset(WeekdayOf(x));
      && 1 <= WeekdayOf(x - k) <= 5
      && forall n :: x - k < n < x ==> WeekdayOf(n) == 0 || WeekdayOf(n) == 6
  {
    var k := Offset(WeekdayOf(x));
    WeekdayBack(x, k);
    forall n | x - k < n < x ensures WeekdayOf(n) == 0 || WeekdayOf(n) == 6 {
      WeekdayBack(x, x - n);
      assert n == x - (x - n);
    }
  }

  /** Stepping back `j` days steps the weekday back by `j`, modulo 7. */
  lemma WeekdayBack(x: int, j: int)
    ensures WeekdayOf(x - j) == (WeekdayOf(x) - j) % 7
  {
    var q, w := (x + 4) / 7, (x + 4) % 7;
    assert x + 4 == 7 * q + w;
    var q2, w2 := (w - j) / 7, (w - j) % 7;
    assert w - j == 7 * q2 + w2;
    assert x - j + 4 == 7 * (q + q2) + w2;
  }

  // ---------------------------------------------------------------------
  // Text form.
  // ---------------------------------------------------------------------

  /** `String(n)` for any integer. */
  function IntString(n: int): string {
    if n < 0 then "-" + DecimalString(-n) else DecimalString(n)
  }

  /** `String(n).padStart(2, "0")` for a month or a day. */
  function Pad2(n: nat): (s: string)
    requires n < 100
    ensures |s| == 2 && IsDigit(s[0]) && IsDigit(s[1])
  {
    var ds := DecimalString(n);
    if n < 10 then "0" + ds
    else
      assert ds == DecimalString(n / 10) + ['0' + (n % 10) as char];
      ds
  }

  /** `${yyyy}-${mm}-${dd}` from the local year, month and day. */
  function FormatDate(d: Date): string
    requires ValidDate(d)
  {
    IntString(d.year) + "-" + Pad2(d.month) + "-" + Pad2(d.day)
  }

  /** The date a `YYYY-MM-DD` text names, if it names a date of the calendar. */
  function ParseDate(s: string): (r: Option<Date>)
    ensures r.Some? ==> ValidDate(r.value) && DateShapeOk(s)
  {
    if !DateShapeOk(s) then None
    else
      var y := DigitsValue(s[0..4], 10);
      var m := DigitsValue(s[5..7], 10);
      var d := DigitsValue(s[8..10], 10);
      if 1 <= m <= 12 && 1 <= d <= DaysInMonth(y, m) then Some(Date(y, m, d)) else None
  }

  const InvalidDate := "Invalid date format. Expected YYYY-MM-DD"

  /**
   * `getLastWorkday(input)`: the last working day before the date the
   * input names, in `YYYY-MM-DD` form, or the error it throws.
   */
  function LastWorkday(input: string): (r: Result<string, string>)
    ensures r.Failure? <==> ParseDate(input).None?
    ensures r.Failure? ==> r.error == InvalidDate
  {
    match ParseDate(input)
    case None => Failure(InvalidDate)
    case Some(d) => Success(FormatDate(LastWorkdayDate(d)))
  }

  /** A four-digit year is written with four digits. */
  lemma FourDigitYear(y: int)
    requires 1000 <= y <= 9999
    ensures |DecimalString(y)| == 4
  {
    NumeralLength(y);
    NumeralLength(y / 10);
    NumeralLength(y / 10 / 10);
    NumeralLength(y / 10 / 10 / 10);
  }

  lemma NumeralLength(n: nat)
    ensures |DecimalString(n)| == if n < 10 then 1 else 1 + |DecimalString(n / 10)|
  {
  }

  /** Two digits read back as their value. */
  lemma Pad2Value(n: nat)
    requires n < 100
    ensures DigitsValue(Pad2(n), 10) == n
  {
    DecimalValue(n);
    if n < 10 {
      var p := Pad2(n);
      assert p[..1] == "0" && p[1..] == DecimalString(n);
    }
  }

  /** Formatting a date with a four-digit year and parsing the text gives the date back. */
  lemma FormatParse(d: Date)
    requires ValidDate(d) && 1000 <= d.year <= 9999
    ensures DateShapeOk(FormatDate(d))
    ensures ParseDate(FormatDate(d)) == Some(d)
  {
    var ys := DecimalString(d.year);
    FourDigitYear(d.year);
    var s := FormatDate(d);
    assert s == ys + "-" + Pad2(d.month) + "-" + Pad2(d.day);
    assert s[0..4] == ys;
    assert s[5..7] == Pad2(d.month);
    assert s[8..10] == Pad2(d.day);
    DecimalValue(d.year);
    Pad2Value(d.month);
    Pad2Value(d.day);
  }

  /** For a well-formed date the result is the formatted last working day. */
  lemma LastWorkdayOfFormatted(d: Date)
    requires ValidDate(d) && 1000 <= d.year <= 9999
    ensures LastWorkday(FormatDate(d)) == Success(FormatDate(LastWorkdayDate(d)))
  {
    FormatParse(d);
  }

  /** The second week of June 2024: Monday, Saturday and Sunday step back to Friday the 7th, Wednesday to Tuesday. */
  lemma JuneExamples()
    ensures LastWorkdayDate(Date(2024, 6, 10)) == Date(2024, 6, 7)
    ensures LastWorkdayDate(Date(2024, 6, 8)) == Date(2024, 6, 7)
    ensures LastWorkdayDate(Date(2024, 6, 9)) == Date(2024, 6, 7)
    ensures LastWorkdayDate(Date(2024, 6, 12)) == Date(2024, 6, 11)
  {
    MondayExample();
    SaturdayExample();
    SundayExample();
    WednesdayExample();
  }

  /** Monday 2024-06-10 steps back to Friday 2024-06-07. */
  lemma MondayExample()
    ensures LastWorkdayDate(Date(2024, 6, 10)) == Date(2024, 6, 7)
  {
    assert Weekday(Date(2024, 6, 10)) == 1;
  }

  /** Saturday 2024-06-08 steps back to Friday 2024-06-07. */
  lemma SaturdayExample()
    ensures LastWorkdayDate(Date(2024, 6, 8)) == Date(2024, 6, 7)
  {
    assert Weekday(Date(2024, 6, 8)) == 6;
  }

  /** Sunday 2024-06-09 steps back to Friday 2024-06-07. */
  lemma SundayExample()
    ensures LastWorkdayDate(Date(2024, 6, 9)) == Date(2024, 6, 7)
  {
    assert Weekday(Date(2024, 6, 9)) == 0;
  }

  /** Wednesday 2024-06-12 steps back to Tuesday 2024-06-11. */
  lemma WednesdayExample()
    ensures LastWorkdayDate(Date(2024, 6, 12)) == Date(2024, 6, 11)
  {
    assert Weekday(Date(2024, 6, 12)) == 3;
  }

  /** Stepping back across a year boundary and into a leap day. */
  lemma RolloverExamples()
    ensures LastWorkdayDate(Date(2024, 1, 1)) == Date(2023, 12, 29)
    ensures LastWorkdayDate(Date(2024, 3, 1)) == Date(2024, 2, 29)
  {
    NewYearExample();
    LeapDayExample();
  }

  /** Monday 2024-01-01 steps back to Friday 2023-12-29. */
  lemma NewYearExample()
    ensures LastWorkdayDate(Date(2024, 1, 1)) == Date(2023, 12, 29)
  {
    assert Weekday(Date(2024, 1, 1)) == 1;
    assert PrevDay(Date(2024, 1, 1)) == Date(2023, 12, 31);
    assert MinusDays(Date(2023, 12, 31), 2) == Date(2023, 12, 29);
  }

  /** Friday 2024-03-01 steps back to Thursday 2024-02-29. */
  lemma LeapDayExample()
    ensures LastWorkdayDate(Date(2024, 3, 1)) == Date(2024, 2, 29)
  {
    assert Weekday(Date(2024, 3, 1)) == 5;
  }

  /** The text form of the Monday example. */
  lemma TextExample()
    ensures FormatDate(Date(2024, 6, 10)) == "2024-06-10"
    ensures LastWorkday("2024-06-10") == Success("2024-06-07")
  {
    var d := Date(2024, 6, 10);
    var r := Date(2024, 6, 7);
    MondayExample();
    assert DecimalString(2024) == "2024";
    assert FormatDate(d) == "2024-06-10";
    assert FormatDate(r) == "2024-06-07";
    LastWorkdayOfFormatted(d);
  }
}
