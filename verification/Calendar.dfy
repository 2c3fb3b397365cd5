/** The proleptic Gregorian calendar, defined year by year and month by month. Day 0 is 1970-01-01. */
module Calendar {
  const EPOCH_YEAR := 1970

  predicate IsLeap(y: int) {
    y % 4 == 0 && (y % 100 != 0 || y % 400 == 0)
  }

  function YearLength(y: int): int {
    if IsLeap(y) then 366 else 365
  }

  function MonthLength(leap: bool, m: int): int
    requires 0 <= m < 12
  {
    if m == 1 then (if leap then 29 else 28)
    else if m == 3 || m == 5 || m == 8 || m == 10 then 30
    else 31
  }

  /** The day number of January 1st of year y. */
  ghost function DaysBeforeYear(y: int): int
    decreases if y < EPOCH_YEAR then EPOCH_YEAR - y else y - EPOCH_YEAR
  {
    if y == EPOCH_YEAR then 0
    else if y > EPOCH_YEAR then DaysBeforeYear(y - 1) + YearLength(y - 1)
    else DaysBeforeYear(y + 1) - YearLength(y)
  }

  ghost function DaysBeforeMonth(leap: bool, m: int): int
    requires 0 <= m <= 12
  {
    if m == 0 then 0 else DaysBeforeMonth(leap, m - 1) + MonthLength(leap, m - 1)
  }

  /** The day number of day d of month m of year y, where d may run past either end of the month. */
  ghost function DayNumber(y: int, m: int, d: int): int
    requires 0 <= m < 12
  {
    DaysBeforeYear(y) + DaysBeforeMonth(IsLeap(y), m) + d - 1
  }

  ghost predicate ValidDate(y: int, m: int, d: int) {
    0 <= m < 12 && 1 <= d <= MonthLength(IsLeap(y), m)
  }

  lemma NextYear(y: int)
    ensures DaysBeforeYear(y + 1) == DaysBeforeYear(y) + YearLength(y)
  {
  }

  lemma {:induction false} YearsMonotone(y: int, z: int)
    requires y <= z
    ensures 365 * (z - y) <= DaysBeforeYear(z) - DaysBeforeYear(y) <= 366 * (z - y)
    decreases z - y
  {
    if y < z {
      YearsMonotone(y, z - 1);
      NextYear(z - 1);
    }
  }

  lemma MonthsTable(leap: bool)
    ensures DaysBeforeMonth(leap, 1) == 31
    ensures DaysBeforeMonth(leap, 2) == if leap then 60 else 59
    ensures DaysBeforeMonth(leap, 12) == if leap then 366 else 365
  {
    var l := if leap then 1 else 0;
    assert DaysBeforeMonth(leap, 1) == 31;
    assert DaysBeforeMonth(leap, 2) == 59 + l;
    assert DaysBeforeMonth(leap, 4) == 120 + l;
    assert DaysBeforeMonth(leap, 6) == 181 + l;
    assert DaysBeforeMonth(leap, 8) == 243 + l;
    assert DaysBeforeMonth(leap, 10) == 304 + l;
  }

  /** The days of the year before a month, in closed form. */
  lemma MonthFormula(leap: bool, m: int)
    requires 0 <= m <= 12
    ensures DaysBeforeMonth(leap, m) == (367 * (m + 1) - 362) / 12 - if m < 2 then 0 else if leap then 1 else 2
  {
    var l := if leap then 1 else 0;
    assert DaysBeforeMonth(leap, 1) == 31 && DaysBeforeMonth(leap, 2) == 59 + l;
    assert DaysBeforeMonth(leap, 3) == 90 + l && DaysBeforeMonth(leap, 4) == 120 + l && DaysBeforeMonth(leap, 5) == 151 + l;
    assert DaysBeforeMonth(leap, 6) == 181 + l && DaysBeforeMonth(leap, 7) == 212 + l && DaysBeforeMonth(leap, 8) == 243 + l;
    assert DaysBeforeMonth(leap, 9) == 273 + l && DaysBeforeMonth(leap, 10) == 304 + l && DaysBeforeMonth(leap, 11) == 334 + l;
    assert DaysBeforeMonth(leap, 12) == 365 + l;
  }

  lemma {:induction false} MonthsMonotone(leap: bool, m: int, n: int)
    requires 0 <= m <= n <= 12
    ensures DaysBeforeMonth(leap, m) + 28 * (n - m) <= DaysBeforeMonth(leap, n)
    decreases n - m
  {
    if m < n { MonthsMonotone(leap, m, n - 1); }
  }

  /** A valid day lies inside its year. */
  lemma ValidDateInYear(y: int, m: int, d: int)
    requires ValidDate(y, m, d)
    ensures DaysBeforeYear(y) <= DayNumber(y, m, d) < DaysBeforeYear(y + 1)
    ensures DayNumber(y, m, 1) <= DayNumber(y, m, d) < DayNumber(y, m, 1) + MonthLength(IsLeap(y), m)
  {
    MonthsMonotone(IsLeap(y), 0, m);
    MonthsMonotone(IsLeap(y), m + 1, 12);
    MonthsTable(IsLeap(y));
    NextYear(y);
  }

  /** Dates in lexicographic order have increasing day numbers. */
  lemma DayNumberMonotone(y: int, m: int, d: int, y': int, m': int, d': int)
    requires ValidDate(y, m, d) && ValidDate(y', m', d')
    requires y < y' || (y == y' && (m < m' || (m == m' && d < d')))
    ensures DayNumber(y, m, d) < DayNumber(y', m', d')
  {
    ValidDateInYear(y, m, d);
    ValidDateInYear(y', m', d');
    if y < y' {
      YearsMonotone(y + 1, y');
    } else if m < m' {
      MonthsMonotone(IsLeap(y), m + 1, m');
    }
  }

  /** Moving one year back from (y, m) crosses the leap day of y when m is past February, of y - 1 otherwise. */
  lemma YearStep(y: int, m: int, d: int)
    requires 0 <= m < 12
    ensures DayNumber(y, m, d) == DayNumber(y - 1, m, d + YearLength(y - 1 + (if 1 < m then 1 else 0)))
  {
    NextYear(y - 1);
    if 1 < m {
      LeapShift(m);
    } else {
      MonthsTable(true);
      MonthsTable(false);
    }
  }

  lemma {:induction false} LeapShift(m: int)
    requires 2 <= m <= 12
    ensures DaysBeforeMonth(true, m) == DaysBeforeMonth(false, m) + 1
  {
    if m == 2 {
      MonthsTable(true);
      MonthsTable(false);
    } else {
      LeapShift(m - 1);
    }
  }
}
