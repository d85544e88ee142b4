/** Python's proleptic Gregorian `date`: validity, ordinals and their order. */
module Calendar {

  datatype Date = Date(year: int, month: int, day: int) {
    predicate Valid() {
      1 <= year <= 9999 && 1 <= month <= 12 && 1 <= day <= DaysInMonth(year, month)
    }

    /** `date` comparison: field by field. */
    predicate Before(that: Date) {
      year < that.year || (year == that.year && (month < that.month || (month == that.month && day < that.day)))
    }
  }

  predicate IsLeap(year: int) {
    year % 4 == 0 && (year % 100 != 0 || year % 400 == 0)
  }

  function DaysInMonth(year: int, month: int): (n: int)
    ensures 28 <= n <= 31
  {
    if month == 2 then (if IsLeap(year) then 29 else 28)
    else if month == 4 || month == 6 || month == 9 || month == 11 then 30
    else 31
  }

  // Days before 1 January of the year, counting from 1 January of year 1.
  function DaysBeforeYear(year: int): int {
    (year - 1) * 365 + (year - 1) / 4 - (year - 1) / 100 + (year - 1) / 400
  }

  // Days of the year before the first of the month.
  function DaysBeforeMonth(year: int, month: nat): (n: nat) {
    if month <= 1 then 0 else DaysBeforeMonth(year, month - 1) + DaysInMonth(year, month - 1)
  }

  /** `date.toordinal()`: 1 January of year 1 is day 1. */
  function Ordinal(d: Date): int
    requires d.Valid()
  {
    DaysBeforeYear(d.year) + DaysBeforeMonth(d.year, d.month) + d.day
  }

  lemma {:induction false} MonthsOfYear(year: int)
    ensures DaysBeforeMonth(year, 13) == 365 + if IsLeap(year) then 1 else 0
  {
    var feb := if IsLeap(year) then 29 else 28;
    assert DaysBeforeMonth(year, 2) == 31;
    assert DaysBeforeMonth(year, 3) == 31 + feb;
    assert DaysBeforeMonth(year, 5) == 92 + feb;
    assert DaysBeforeMonth(year, 7) == 153 + feb;
    assert DaysBeforeMonth(year, 9) == 215 + feb;
    assert DaysBeforeMonth(year, 11) == 276 + feb;
  }

  lemma {:induction false} YearLength(year: int)
    requires year >= 1
    ensures DaysBeforeYear(year + 1) == DaysBeforeYear(year) + DaysBeforeMonth(year, 13)
  {
    MonthsOfYear(year);
    assert year / 4 == (year - 1) / 4 + if year % 4 == 0 then 1 else 0;
    assert year / 100 == (year - 1) / 100 + if year % 100 == 0 then 1 else 0;
    assert year / 400 == (year - 1) / 400 + if year % 400 == 0 then 1 else 0;
    assert year % 400 == 0 ==> year % 100 == 0 && year % 4 == 0;
    assert year % 100 == 0 ==> year % 4 == 0;
  }

  lemma {:induction false} MonthsMonotone(year: int, m1: nat, m2: nat)
    requires 1 <= m1 < m2
    ensures DaysBeforeMonth(year, m1) + DaysInMonth(year, m1) <= DaysBeforeMonth(year, m2)
  {
    if m1 < m2 - 1 {
      MonthsMonotone(year, m1, m2 - 1);
    }
  }

  lemma {:induction false} YearsMonotone(y1: int, y2: int)
    requires 1 <= y1 < y2
    ensures DaysBeforeYear(y1) + DaysBeforeMonth(y1, 13) <= DaysBeforeYear(y2)
    decreases y2
  {
    YearLength(y2 - 1);
    if y1 < y2 - 1 {
      YearsMonotone(y1, y2 - 1);
    }
  }

  lemma {:induction false} BeforeHasSmallerOrdinal(a: Date, b: Date)
    requires a.Valid() && b.Valid() && a.Before(b)
    ensures Ordinal(a) < Ordinal(b)
  {
    MonthsMonotone(a.year, a.month, 13);
    if a.year < b.year {
      YearsMonotone(a.year, b.year);
    } else if a.month < b.month {
      MonthsMonotone(a.year, a.month, b.month);
    }
  }

  /** Comparing dates field by field is comparing their day numbers. */
  lemma {:induction false} OrdinalOrder(a: Date, b: Date)
    requires a.Valid() && b.Valid()
    ensures a.Before(b) <==> Ordinal(a) < Ordinal(b)
    ensures a == b <==> Ordinal(a) == Ordinal(b)
  {
    if a.Before(b) {
      BeforeHasSmallerOrdinal(a, b);
    } else if b.Before(a) {
      BeforeHasSmallerOrdinal(b, a);
    }
  }

  /** The lengths of the months, from the closed form for the days since 1 March, and the leap
      years, from the lengths of the years and of the four-century cycle. */
  lemma {:induction false} MonthStarts(year: int, month: nat)
    requires 3 <= month <= 12
    ensures DaysBeforeMonth(year, month) == DaysBeforeMonth(year, 3) + (153 * (month - 3) + 2) / 5
    ensures DaysBeforeMonth(year, 2) == 31 && DaysBeforeMonth(year, 3) == 59 + (if year % 4 == 0 && (year % 100 != 0 || year % 400 == 0) then 1 else 0)
    ensures DaysInMonth(year, 12) == 31
    decreases month
  {
    assert DaysBeforeMonth(year, 1) == 0 && DaysBeforeMonth(year, 2) == 31;
    if month > 3 {
      MonthStarts(year, month - 1);
      assert month == 4 || month == 5 || month == 6 || month == 7 || month == 8 || month == 9 || month == 10 || month == 11 || month == 12;
    }
  }

  lemma {:induction false} FourCenturies(y: int)
    ensures (y + 400) / 4 == y / 4 + 100 && (y + 400) / 100 == y / 100 + 4 && (y + 400) / 400 == y / 400 + 1
  {
  }

  lemma {:induction false} NewYear(d: Date)
    requires d.Valid() && d.month == 1 && d.day == 1
    ensures Ordinal(d) == DaysBeforeYear(d.year) + 1
  {
  }

  /** Where the day numbers are anchored, and that they repeat after four centuries. */
  lemma {:induction false} Anchored(year: int, d: Date)
    ensures d == Date(1, 1, 1) ==> d.Valid() && Ordinal(d) == 1
    ensures d == Date(1970, 1, 1) ==> d.Valid() && Ordinal(d) == 719_163
    ensures DaysBeforeYear(year + 400) == DaysBeforeYear(year) + 146_097
  {
    hide Ordinal, DaysInMonth;
    FourCenturies(year - 1);
    if d.Valid() && d.month == 1 && d.day == 1 {
      NewYear(d);
    }
  }

  /** `d - timedelta(days=1)`, where that is still a date. */
  function PreviousDay(d: Date): (p: Date)
    requires d.Valid() && d != Date(1, 1, 1)
    ensures p.Valid()
  {
    if d.day > 1 then Date(d.year, d.month, d.day - 1)
    else if d.month > 1 then Date(d.year, d.month - 1, DaysInMonth(d.year, d.month - 1))
    else Date(d.year - 1, 12, 31)
  }

  lemma {:induction false} PreviousDayOrdinal(d: Date)
    requires d.Valid() && d != Date(1, 1, 1)
    ensures Ordinal(PreviousDay(d)) == Ordinal(d) - 1
  {
    if d.day == 1 && d.month == 1 {
      hide DaysBeforeYear, DaysInMonth;
      YearLength(d.year - 1);
      assert DaysBeforeMonth(d.year - 1, 13) == DaysBeforeMonth(d.year - 1, 12) + DaysInMonth(d.year - 1, 12);
      assert DaysBeforeMonth(d.year, 1) == 0;
    }
  }
}
