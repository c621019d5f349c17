/**
 * The proleptic Gregorian calendar of Python's datetime.date, and the number
 * of days between a date and 1970-01-01 computed with integer arithmetic
 * (the "days from civil" formula that counts years from March, so that the
 * leap day is the last day of its year).
 */
module Calendar {

  datatype Date = Date(year: int, month: int, day: int)

  predicate IsLeapYear(y: int)
  {
    y % 4 == 0 && (y % 100 != 0 || y % 400 == 0)
  }

  function DaysInMonth(y: int, m: int): (n: int)
    requires 1 <= m <= 12
    ensures 28 <= n <= 31
    ensures m == 2 ==> (n == 29 <==> IsLeapYear(y))
  {
    if m == 2 then (if IsLeapYear(y) then 29 else 28)
    else if m == 4 || m == 6 || m == 9 || m == 11 then 30
    else 31
  }

  /** What datetime.date accepts: MINYEAR 1 to MAXYEAR 9999 and a day that exists in its month. */
  predicate ValidDate(d: Date)
  {
    1 <= d.year <= 9999 && 1 <= d.month <= 12 && 1 <= d.day <= DaysInMonth(d.year, d.month)
  }

  /** The calendar day after d (its year may step past 9999). */
  function NextDay(d: Date): (n: Date)
    requires ValidDate(d)
    ensures 1 <= n.month <= 12 && 1 <= n.day <= DaysInMonth(n.year, n.month)
  {
    if d.day < DaysInMonth(d.year, d.month) then Date(d.year, d.month, d.day + 1)
    else if d.month < 12 then Date(d.year, d.month + 1, 1)
    else Date(d.year + 1, 1, 1)
  }

  /** Days in the March-based years before March 1 of year y + 1, up to a constant. */
  function DaysBeforeMarchYear(y: int): int
  {
    365 * y + y / 4 - y / 100 + y / 400
  }

  /** Days from March 1 to the given day of the same March-based year. */
  function DayOfMarchYear(m: int, d: int): int
    requires 1 <= m <= 12
  {
    var mp := if m > 2 then m - 3 else m + 9;
    (153 * mp + 2) / 5 + d - 1
  }

  /** Days from 1970-01-01 to d: negative before the epoch. */
  function DaysFromCivil(d: Date): int
    requires 1 <= d.month <= 12
  {
    var y := if d.month <= 2 then d.year - 1 else d.year;
    DaysBeforeMarchYear(y) + DayOfMarchYear(d.month, d.day) - 719468
  }

  lemma EpochIsDayZero()
    ensures DaysFromCivil(Date(1970, 1, 1)) == 0
  {
  }

  lemma DivStep(y: int, k: int)
    requires k == 4 || k == 100 || k == 400
    ensures y / k - (y - 1) / k == if y % k == 0 then 1 else 0
  {
  }

  /** A March-based year has 366 days when the calendar year it ends in is a leap year. */
  lemma MarchYearLength(y: int)
    ensures DaysBeforeMarchYear(y) - DaysBeforeMarchYear(y - 1) == if IsLeapYear(y) then 366 else 365
  {
    DivStep(y, 4);
    DivStep(y, 100);
    DivStep(y, 400);
  }

  /**
   * DaysFromCivil counts days: the day after d is one more. With
   * EpochIsDayZero this pins DaysFromCivil down on every valid date.
   */
  lemma DaysFromCivilNext(d: Date)
    requires ValidDate(d)
    ensures DaysFromCivil(NextDay(d)) == DaysFromCivil(d) + 1
  {
    if d.day == DaysInMonth(d.year, d.month) {
      if d.month == 2 {
        FebruaryEnd(d.year);
      } else if d.month < 12 {
        MonthStep(d.year, d.month);
      } else {
        assert DayOfMarchYear(12, 31) + 1 == DayOfMarchYear(1, 1);
      }
    }
  }

  /** March 1 follows the last day of February, 28 or 29 days after February 1. */
  lemma FebruaryEnd(y: int)
    ensures DaysFromCivil(Date(y, 3, 1)) == DaysFromCivil(Date(y, 2, DaysInMonth(y, 2))) + 1
  {
    MarchYearLength(y);
    assert DayOfMarchYear(2, DaysInMonth(y, 2)) == 336 + DaysInMonth(y, 2);
    assert DayOfMarchYear(3, 1) == 0;
  }

  /** Within a March-based year the first of a month follows the last day of the month before. */
  lemma MonthStep(y: int, m: int)
    requires 1 <= m < 12 && m != 2
    ensures DayOfMarchYear(m + 1, 1) == DayOfMarchYear(m, DaysInMonth(y, m)) + 1
  {
  }

  lemma {:induction false} DaysBeforeMarchYearGrowth(a: int, b: int)
    requires a <= b
    ensures DaysBeforeMarchYear(b) - DaysBeforeMarchYear(a) >= 365 * (b - a)
    decreases b - a
  {
    if a < b {
      DaysBeforeMarchYearGrowth(a, b - 1);
      MarchYearLength(b);
    }
  }

  /** Every year since year 1 adds at least 365 days: the count only grows with the year. */
  lemma DaysFromCivilLowerBound(d: Date)
    requires ValidDate(d)
    ensures DaysFromCivil(d) >= DaysFromCivil(Date(1, 1, 1)) + 365 * (d.year - 1)
  {
    DaysBeforeMarchYearGrowth(0, d.year - 1);
  }

  /** Every valid date after 0001-01-01 has a larger day count. */
  lemma DaysFromCivilAfterFirstDay(d: Date)
    requires ValidDate(d) && d != Date(1, 1, 1)
    ensures DaysFromCivil(d) > DaysFromCivil(Date(1, 1, 1))
  {
    if d.year >= 2 {
      DaysFromCivilLowerBound(d);
    } else {
      assert DaysBeforeMarchYear(0) == 0 && DaysBeforeMarchYear(1) == 365;
      assert DayOfMarchYear(1, 1) == 306;
      if d.month == 1 {
        assert DayOfMarchYear(1, d.day) == 305 + d.day;
      } else if d.month == 2 {
        assert DayOfMarchYear(2, d.day) == 336 + d.day;
      }
    }
  }
}
