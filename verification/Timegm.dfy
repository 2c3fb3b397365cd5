/** Conversion between 64-bit second counts and broken-down civil time. */
module Timegm {
  import opened CInt
  import opened Calendar

  const SECSPERMIN := 60
  const MINSPERHOUR := 60
  const HOURSPERDAY := 24
  const SECSPERHOUR := 3600
  const SECSPERDAY := 86400
  const DAYSPERNYEAR := 365
  const DAYSPERLYEAR := 366
  const DAYSPERWEEK := 7
  const MONSPERYEAR := 12
  const TM_YEAR_BASE := 1900
  const EPOCH_WDAY := 4

  /** The fields of a broken-down time; tm_isdst is always 0 here. */
  datatype Tm = Tm(sec: int64, min: int64, hour: int64, mday: int64, mon: int64, year: int64, wday: int64, yday: int64)

  // ---------------------------------------------------------------------------------------------------------
  // Specification
  // ---------------------------------------------------------------------------------------------------------

  /** The instant denoted by fields that need not be normalised, in unbounded arithmetic. */
  ghost function TotalSeconds(tm: Tm): int {
    SECSPERDAY * DayNumber(TM_YEAR_BASE + tm.year + tm.mon / MONSPERYEAR, tm.mon % MONSPERYEAR, tm.mday)
    + SECSPERHOUR * tm.hour + SECSPERMIN * tm.min + tm.sec
  }

  /** The date and time fields are in their ordinary ranges. */
  ghost predicate Normal(tm: Tm) {
    && 0 <= tm.sec < SECSPERMIN && 0 <= tm.min < MINSPERHOUR && 0 <= tm.hour < HOURSPERDAY
    && ValidDate(TM_YEAR_BASE + tm.year, tm.mon, tm.mday)
  }

  /** tm is the civil date of the instant t, with its day of the year and its weekday (0 is Sunday). */
  ghost predicate Civil(tm: Tm, t: int) {
    && Normal(tm)
    && TotalSeconds(tm) == t
    && tm.yday == t / SECSPERDAY - DaysBeforeYear(TM_YEAR_BASE + tm.year)
    && tm.wday == (EPOCH_WDAY + t / SECSPERDAY) % DAYSPERWEEK
  }

  /** The years whose number fits an int even after the base 1900 is taken off. */
  ghost predicate Representable(t: int) {
    DaysBeforeYear(INT_MIN + TM_YEAR_BASE) <= t / SECSPERDAY < DaysBeforeYear(INT_MAX + 1)
  }

  // ---------------------------------------------------------------------------------------------------------
  // Pure helpers of the source
  // ---------------------------------------------------------------------------------------------------------

  /** The number of leap years through the end of year y, counted from year zero. */
  function LeapsThruEndOf(y: int): int
    decreases if y < 0 then 1 - y else 0
  {
    if y >= 0 then y / 4 - y / 100 + y / 400 else -(LeapsThruEndOf(-(y + 1)) + 1)
  }

  lemma LeapsClosedForm(y: int)
    ensures LeapsThruEndOf(y) == y / 4 - y / 100 + y / 400
  {
    if y < 0 {
      var z := -(y + 1);
      assert y / 4 == -(z / 4) - 1 && y / 100 == -(z / 100) - 1 && y / 400 == -(z / 400) - 1;
    }
  }

  lemma FloorStep(y: int, n: int)
    requires n > 1
    ensures y / n - (y - 1) / n == if y % n == 0 then 1 else 0
  {
    var q, r := y / n, y % n;
    assert y == q * n + r;
    if r == 0 {
      assert y - 1 == (q - 1) * n + (n - 1);
      DivUnique(y - 1, n, q - 1, n - 1);
    } else {
      DivUnique(y - 1, n, q, r - 1);
    }
  }

  /** The count rises by one exactly in leap years, before year zero as well as after. */
  lemma LeapsRecurrence(y: int)
    ensures LeapsThruEndOf(y) - LeapsThruEndOf(y - 1) == if IsLeap(y) then 1 else 0
  {
    LeapsClosedForm(y);
    LeapsClosedForm(y - 1);
    FloorStep(y, 4);
    FloorStep(y, 100);
    FloorStep(y, 400);
    if y % 100 == 0 { DivUnique(y, 4, 25 * (y / 100), 0); }
    if y % 400 == 0 { DivUnique(y, 100, 4 * (y / 400), 0); }
  }

  /** The days between two New Years are 365 a year and one more for every leap day counted. */
  lemma {:induction false} DaysBetweenYears(y: int, z: int)
    requires y <= z
    ensures DaysBeforeYear(z) - DaysBeforeYear(y)
         == (z - y) * DAYSPERNYEAR + LeapsThruEndOf(z - 1) - LeapsThruEndOf(y - 1)
    decreases z - y
  {
    hide DaysBeforeYear, LeapsThruEndOf, IsLeap;
    if y < z {
      DaysBetweenYears(y, z - 1);
      LeapsRecurrence(z - 1);
      NextYear(z - 1);
    }
  }

  /** The day number of a Gregorian date in closed form, month 0 being January. */
  function GregorianDay(y: int, m: int, d: int): int {
    var leap := y % 4 == 0 && (y % 100 != 0 || y % 400 == 0);
    365 * (y - 1970) + (y - 1) / 4 - (y - 1) / 100 + (y - 1) / 400 - 477
    + (367 * (m + 1) - 362) / 12 - (if m < 2 then 0 else if leap then 1 else 2)
    + d - 1
  }

  /** Counting year by year and month by month comes to the closed form. */
  lemma DayNumberClosed(y: int, m: int, d: int)
    requires 0 <= m < 12
    ensures DayNumber(y, m, d) == GregorianDay(y, m, d)
  {
    hide DaysBeforeYear, DaysBeforeMonth, LeapsThruEndOf;
    MonthFormula(IsLeap(y), m);
    LeapsClosedForm(y - 1);
    LeapsClosedForm(EPOCH_YEAR - 1);
    assert DaysBeforeYear(EPOCH_YEAR) == 0 by { NewYear1970(); }
    if y >= EPOCH_YEAR { DaysBetweenYears(EPOCH_YEAR, y); } else { DaysBetweenYears(y, EPOCH_YEAR); }
  }

  lemma NewYear1970()
    ensures DaysBeforeYear(EPOCH_YEAR) == 0
  {
  }

  /** The seconds from 1970 to the fields, in closed form. */
  function GregorianSeconds(tm: Tm): int {
    86400 * GregorianDay(1900 + tm.year + tm.mon / 12, tm.mon % 12, tm.mday) + 3600 * tm.hour + 60 * tm.min + tm.sec
  }

  lemma TotalClosed(tm: Tm)
    ensures TotalSeconds(tm) == GregorianSeconds(tm)
  {
    hide DayNumber, GregorianDay;
    DayNumberClosed(TM_YEAR_BASE + tm.year + tm.mon / MONSPERYEAR, tm.mon % MONSPERYEAR, tm.mday);
  }

  /**
   * A civil date in literals: ordinary fields, a day the month has, a weekday counted from Sunday with 1970 beginning on
   * a Thursday, and a day of the year counted from zero.
   */
  lemma CivilMeans(tm: Tm, t: int)
    requires Civil(tm, t)
    ensures t == GregorianSeconds(tm) && 0 <= tm.sec < 60 && 0 <= tm.min < 60 && 0 <= tm.hour < 24 && 0 <= tm.mon < 12
    ensures 1 <= tm.mday && GregorianDay(1900 + tm.year, tm.mon, tm.mday)
            < if tm.mon == 11 then GregorianDay(1901 + tm.year, 0, 1) else GregorianDay(1900 + tm.year, tm.mon + 1, 1)
    ensures tm.yday == GregorianDay(1900 + tm.year, tm.mon, tm.mday) - GregorianDay(1900 + tm.year, 0, 1)
    ensures tm.wday == (4 + GregorianDay(1900 + tm.year, tm.mon, tm.mday)) % 7
  {
    hide DaysBeforeYear, DaysBeforeMonth, GregorianDay, LeapsThruEndOf, IsLeap;
    var y := TM_YEAR_BASE + tm.year;
    TotalClosed(tm);
    CivilDay(tm);
    DayNumberClosed(y, tm.mon, tm.mday);
    DayNumberClosed(y, 0, 1);
    FirstOfMonth(y, tm.mon);
  }

  /** The first of the next month comes a month's length after the first of this one. */
  lemma FirstOfMonth(y: int, m: int)
    requires 0 <= m < 12
    ensures GregorianDay(y, 0, 1) == DaysBeforeYear(y)
    ensures forall d :: GregorianDay(y, m, d) == GregorianDay(y, m, 1) + d - 1
    ensures (if m == 11 then GregorianDay(y + 1, 0, 1) else GregorianDay(y, m + 1, 1))
         == GregorianDay(y, m, 1) + MonthLength(IsLeap(y), m)
  {
    DayNumberClosed(y, 0, 1);
    DayNumberClosed(y, m, 1);
    NextYear(y);
    MonthsTable(IsLeap(y));
    if m == 11 { DayNumberClosed(y + 1, 0, 1); } else { DayNumberClosed(y, m + 1, 1); }
  }

  function Tmcomp(a: Tm, b: Tm): (r: int) {
    if a.year != b.year then (if a.year < b.year then -1 else 1)
    else if a.mon != b.mon then a.mon - b.mon
    else if a.mday != b.mday then a.mday - b.mday
    else if a.hour != b.hour then a.hour - b.hour
    else if a.min != b.min then a.min - b.min
    else a.sec - b.sec
  }

  /** Comparing normalised fields one by one compares the instants they denote. */
  lemma TmcompOrders(a: Tm, b: Tm)
    requires Normal(a) && Normal(b)
    ensures Tmcomp(a, b) < 0 <==> TotalSeconds(a) < TotalSeconds(b)
    ensures Tmcomp(a, b) == 0 <==> TotalSeconds(a) == TotalSeconds(b)
  {
    hide DaysBeforeYear, DaysBeforeMonth, IsLeap, MonthLength;
    var ya, yb := TM_YEAR_BASE + a.year, TM_YEAR_BASE + b.year;
    if (a.year, a.mon, a.mday) != (b.year, b.mon, b.mday) {
      if a.year < b.year || (a.year == b.year && (a.mon < b.mon || (a.mon == b.mon && a.mday < b.mday))) {
        DayNumberMonotone(ya, a.mon, a.mday, yb, b.mon, b.mday);
      } else {
        DayNumberMonotone(yb, b.mon, b.mday, ya, a.mon, a.mday);
      }
    }
  }

  /** The civil date of an instant is unique. */
  lemma CivilUnique(a: Tm, b: Tm, t: int)
    requires Civil(a, t) && Civil(b, t)
    ensures a == b
  {
    TmcompOrders(a, b);
  }

  lemma CivilDay(tm: Tm)
    requires Normal(tm)
    ensures TotalSeconds(tm) / SECSPERDAY == DayNumber(TM_YEAR_BASE + tm.year, tm.mon, tm.mday)
  {
  }

  /** An instant has a civil date with an int year, also after 1900 is taken off, exactly when it is representable. */
  lemma CivilRepresentable(tm: Tm)
    requires Normal(tm)
    ensures Representable(TotalSeconds(tm)) <==> -2147483648 <= tm.year && tm.year + 1900 <= 2147483647
  {
    var y := TM_YEAR_BASE + tm.year;
    CivilDay(tm);
    ValidDateInYear(y, tm.mon, tm.mday);
    if y < INT_MIN + TM_YEAR_BASE {
      YearsMonotone(y + 1, INT_MIN + TM_YEAR_BASE);
    } else {
      YearsMonotone(INT_MIN + TM_YEAR_BASE, y);
    }
    if y <= INT_MAX {
      YearsMonotone(y + 1, INT_MAX + 1);
    } else {
      YearsMonotone(INT_MAX + 1, y);
    }
  }

  /** Representable instants are far from the ends of the 64-bit range. */
  lemma RepresentableBounds(t: int)
    requires Representable(t)
    ensures -70_000_000_000_000_000 <= t <= 70_000_000_000_000_000
  {
    YearsMonotone(INT_MIN + TM_YEAR_BASE, EPOCH_YEAR);
    YearsMonotone(EPOCH_YEAR, INT_MAX + 1);
  }

  // ---------------------------------------------------------------------------------------------------------
  // Overflow-checked increments and normalisation
  // ---------------------------------------------------------------------------------------------------------

  /** The sum is inside the int range on the side of i's own sign, the only side the source tests. */
  predicate Fits(i: int, j: int) {
    if i >= 0 then i + j <= INT_MAX else INT_MIN <= i + j
  }

  method IncrementOverflow(i: int64, j: int64) returns (overflow: bool, ip: int64)
    ensures overflow <==> !Fits(i, j)
    ensures ip == if overflow then i else i + j
  {
    if (if i >= 0 then j > INT_MAX - i else j < INT_MIN - i) {
      return true, i;
    }
    return false, i + j;
  }

  method IncrementOverflow32(l: int64, m: int64) returns (overflow: bool, lp: int64)
    ensures overflow <==> l + m < INT64_MIN || l + m > INT64_MAX
    ensures lp == if overflow then l else l + m
  {
    if (if l >= 0 then m > INT64_MAX - l else m < INT64_MIN - l) {
      return true, l;
    }
    return false, l + m;
  }

  /** Carries whole multiples of base from units into tens, rounding down. */
  method Carry(units: int64, base: int64) returns (tensdelta: int64, rest: int64)
    requires base > 1
    ensures units == tensdelta * base + rest && 0 <= rest < base
    ensures tensdelta == units / base
  {
    tensdelta := if units >= 0 then units / base else -1 - (-1 - units) / base;
    FloorByNegation(units, base);
    rest := units - tensdelta * base;
  }

  lemma FloorByNegation(u: int, b: int)
    requires b > 0
    ensures u < 0 ==> -1 - (-1 - u) / b == u / b
  {
    if u < 0 {
      var q := (-1 - u) / b;
      var r := (-1 - u) % b;
      assert -1 - u == q * b + r;
      assert u == (-1 - q) * b + (b - 1 - r);
      DivUnique(u, b, -1 - q, b - 1 - r);
    }
  }

  lemma DivUnique(u: int, b: int, q: int, r: int)
    requires b > 0 && u == q * b + r && 0 <= r < b
    ensures u / b == q && u % b == r
  {
    var k := u / b - q;
    assert k * b == r - u % b by {
      assert u == (u / b) * b + u % b;
      assert (u / b - q) * b == (u / b) * b - q * b;
    }
    MultipleAtLeast(k, b);
  }

  lemma MultipleAtLeast(k: int, b: int)
    requires b > 0
    ensures k >= 1 ==> k * b >= b
    ensures k <= -1 ==> k * b <= -b
  {
  }

  lemma QuotientBound(u: int, b: int)
    requires b > 0
    ensures if u >= 0 then 0 <= u / b <= u else u <= u / b < 0
  {
    var q := u / b;
    assert u == q * b + u % b;
    MultipleAtLeast(q, b);
    if q > 0 { MultipleAtLeast(b, q); }
    if q < -1 { MultipleAtLeast(b, -q - 1); }
  }

  method NormalizeOverflow(tens: int64, units: int64, base: int64) returns (overflow: bool, tens': int64, units': int64)
    requires base > 1
    ensures 0 <= units' < base && units' == units % base
    ensures !overflow ==> tens' * base + units' == tens * base + units && tens' == tens + units / base
    ensures overflow <==> !Fits(tens, units / base)
  {
    var delta;
    delta, units' := Carry(units, base);
    DivUnique(units, base, delta, units');
    overflow, tens' := IncrementOverflow(tens, delta);
  }

  method NormalizeOverflow32(tens: int64, units: int64, base: int64) returns (overflow: bool, tens': int64, units': int64)
    requires base > 1
    ensures units' == units % base
    ensures overflow <==> tens + units / base < INT64_MIN || tens + units / base > INT64_MAX
    ensures !overflow ==> tens' == tens + units / base
  {
    var delta;
    delta, units' := Carry(units, base);
    DivUnique(units, base, delta, units');
    overflow, tens' := IncrementOverflow32(tens, delta);
  }

  // ---------------------------------------------------------------------------------------------------------
  // Seconds to civil time
  // ---------------------------------------------------------------------------------------------------------

  /** Bounds on the year that keep every intermediate of the year search inside 64 bits. */
  lemma YearBounds(y: int, day: int)
    requires y >= EPOCH_YEAR ==> DaysBeforeYear(y) <= day
    requires y < EPOCH_YEAR ==> day < DaysBeforeYear(y + 1)
    requires -110_000_000_000_000 <= day <= 110_000_000_000_000
    ensures -400_000_000_000 <= y <= 400_000_000_000
  {
    if y >= EPOCH_YEAR {
      YearsMonotone(EPOCH_YEAR, y);
    } else {
      YearsMonotone(y + 1, EPOCH_YEAR);
    }
  }

  /** A jump of idelta years takes off at most 366 * |idelta| days and at least 365 * |idelta|. */
  lemma JumpBounds(y: int, newy: int)
    ensures y <= newy ==> DAYSPERNYEAR * (newy - y) <= DaysBeforeYear(newy) - DaysBeforeYear(y) <= DAYSPERLYEAR * (newy - y)
    ensures newy <= y ==> DAYSPERNYEAR * (y - newy) <= DaysBeforeYear(y) - DaysBeforeYear(newy) <= DAYSPERLYEAR * (y - newy)
    ensures DaysBeforeYear(newy) - DaysBeforeYear(y)
         == (newy - y) * DAYSPERNYEAR + LeapsThruEndOf(newy - 1) - LeapsThruEndOf(y - 1)
  {
    if y <= newy {
      YearsMonotone(y, newy);
      DaysBetweenYears(y, newy);
    } else {
      YearsMonotone(newy, y);
      DaysBetweenYears(newy, y);
    }
  }

  /** The number of years to jump, never zero. */
  method JumpLength(tdays: int64) returns (idelta: int64)
    ensures tdays < 0 ==> idelta < 0 && (idelta == -1 || DAYSPERLYEAR * idelta >= tdays)
    ensures tdays >= 0 ==> idelta > 0 && (idelta == 1 || DAYSPERLYEAR * idelta <= tdays)
    ensures if tdays < 0 then tdays <= idelta else idelta <= 1 + tdays
  {
    idelta := TruncDiv(tdays, DAYSPERLYEAR);
    if idelta == 0 {
      idelta := if tdays < 0 then -1 else 1;
    }
  }

  /** Where a jump lands, relative to the day sought: never past it, except by the last step back. */
  lemma JumpLands(y: int, newy: int, tdays: int)
    requires tdays < 0 || tdays >= YearLength(y)
    requires tdays < 0 ==> newy < y && (newy == y - 1 || DAYSPERLYEAR * (newy - y) >= tdays)
    requires tdays >= 0 ==> newy > y && (newy == y + 1 || DAYSPERLYEAR * (newy - y) <= tdays)
    ensures var left := tdays - (DaysBeforeYear(newy) - DaysBeforeYear(y));
            if tdays >= 0 then 0 <= left < tdays else tdays < left && left < YearLength(newy)
  {
    NextYear(y);
    NextYear(newy);
    JumpBounds(y, newy);
  }

  /**
   * The year search. It jumps by a 366th of the remaining days at a time, so that it approaches the year of
   * the day from the epoch's side without passing it, and keeps the sum of the days skipped and the days left.
   */
  method FindYear(day: int64) returns (ok: bool, y: int64, tdays: int64)
    requires -110_000_000_000_000 <= day <= 110_000_000_000_000
    ensures ok ==> DaysBeforeYear(y) + tdays == day && 0 <= tdays < YearLength(y)
    ensures ok ==> y <= INT_MAX && -400_000_000_000 <= y
    ensures !ok ==> day >= DaysBeforeYear(INT_MAX + 1) || day < DaysBeforeYear(INT_MIN)
  {
    assert DaysBeforeYear(EPOCH_YEAR) == 0;
    hide DaysBeforeYear, IsLeap, LeapsThruEndOf;
    y, tdays := EPOCH_YEAR, day;
    while tdays < 0 || tdays >= YearLength(y)
      invariant DaysBeforeYear(y) + tdays == day
      invariant -400_000_000_000 <= y <= INT_MAX && (day >= 0 ==> EPOCH_YEAR <= y && 0 <= tdays)
      invariant -110_000_000_000_000 <= tdays <= 110_000_000_000_000
      invariant day < 0 ==> y <= EPOCH_YEAR && tdays < YearLength(y)
      decreases tdays < 0, if tdays < 0 then -tdays else tdays
    {
      var idelta := JumpLength(tdays);
      var newy: int64 := y + idelta;
      JumpLands(y, newy, tdays);
      var overflow;
      overflow, newy := IncrementOverflow(y, idelta);
      if overflow {
        SearchFailed(y, y + idelta, day);
        return false, y, tdays;
      }
      JumpBounds(y, newy);
      var leapdays: int64 := LeapsThruEndOf(newy - 1) - LeapsThruEndOf(y - 1);
      tdays := tdays - (newy - y) * DAYSPERNYEAR;
      tdays := tdays - leapdays;
      y := newy;
      NextYear(y);
      YearBounds(y, day);
    }
    ok := true;
  }

  lemma SearchFailed(y: int, newy: int, day: int)
    requires if y >= 0 then newy > INT_MAX && DaysBeforeYear(newy) <= day
             else newy < INT_MIN && day < DaysBeforeYear(newy) + YearLength(newy)
    ensures day >= DaysBeforeYear(INT_MAX + 1) || day < DaysBeforeYear(INT_MIN)
  {
    if y >= 0 {
      YearsMonotone(INT_MAX + 1, newy);
    } else {
      NextYear(newy);
      YearsMonotone(newy + 1, INT_MIN);
    }
  }

  /** The year found is right as soon as the days left over fall inside it. */
  lemma YearOfDay(y: int, idays: int, day: int)
    requires DaysBeforeYear(y) + idays == day && 0 <= idays < YearLength(y)
    ensures DaysBeforeYear(y) <= day < DaysBeforeYear(y + 1)
    ensures y < INT_MIN + TM_YEAR_BASE ==> day < DaysBeforeYear(INT_MIN + TM_YEAR_BASE)
    ensures y >= INT_MIN + TM_YEAR_BASE ==> DaysBeforeYear(INT_MIN + TM_YEAR_BASE) <= day
    ensures y <= INT_MAX ==> day < DaysBeforeYear(INT_MAX + 1)
  {
    NextYear(y);
    if y < INT_MIN + TM_YEAR_BASE {
      YearsMonotone(y + 1, INT_MIN + TM_YEAR_BASE);
    } else {
      YearsMonotone(INT_MIN + TM_YEAR_BASE, y);
    }
    if y <= INT_MAX {
      YearsMonotone(y + 1, INT_MAX + 1);
    }
  }

  /** The weekday formula, in C's truncating remainders, yields the day number modulo seven. */
  lemma WeekdayFormula(y: int, idays: int, w: int)
    requires w == EPOCH_WDAY + TruncMod(y - EPOCH_YEAR, DAYSPERWEEK) * (DAYSPERNYEAR % DAYSPERWEEK)
                  + LeapsThruEndOf(y - 1) - LeapsThruEndOf(EPOCH_YEAR - 1) + idays
    ensures (if TruncMod(w, DAYSPERWEEK) < 0 then TruncMod(w, DAYSPERWEEK) + DAYSPERWEEK else TruncMod(w, DAYSPERWEEK))
         == (EPOCH_WDAY + DaysBeforeYear(y) + idays) % DAYSPERWEEK
  {
    JumpBounds(EPOCH_YEAR, y);
    var k := 52 * (y - EPOCH_YEAR) + TruncDiv(y - EPOCH_YEAR, DAYSPERWEEK);
    assert EPOCH_WDAY + DaysBeforeYear(y) + idays == w + 7 * k;
    var q, r := TruncDiv(w, DAYSPERWEEK), TruncMod(w, DAYSPERWEEK);
    if r < 0 {
      DivUnique(w + 7 * k, 7, q - 1 + k, r + 7);
    } else {
      DivUnique(w + 7 * k, 7, q + k, r);
    }
  }

  /** Brings the seconds of the day into range, carrying into the day. */
  method CorrectSeconds(tdays: int64, rem0: int64) returns (idays: int64, rem: int64)
    requires -DAYSPERLYEAR <= tdays <= DAYSPERLYEAR && INT_MIN <= rem0 <= INT_MAX
    ensures 0 <= rem < SECSPERDAY && idays * SECSPERDAY + rem == tdays * SECSPERDAY + rem0
  {
    idays, rem := tdays, rem0;
    while rem < 0
      invariant idays * SECSPERDAY + rem == tdays * SECSPERDAY + rem0 && rem <= INT_MAX
      decreases -rem
    {
      rem := rem + SECSPERDAY;
      idays := idays - 1;
    }
    while rem >= SECSPERDAY
      invariant idays * SECSPERDAY + rem == tdays * SECSPERDAY + rem0 && 0 <= rem <= INT_MAX
    {
      rem := rem - SECSPERDAY;
      idays := idays + 1;
    }
  }

  /** Moves the day into its year, or reports that the year leaves the int range. */
  method CorrectYear(y0: int64, days: int64) returns (ok: bool, y: int64, idays: int64)
    requires -400_000_000_000 <= y0 <= INT_MAX && -25_000 <= days <= 26_000
    ensures var day := DaysBeforeYear(y0) + days;
            if ok then DaysBeforeYear(y) + idays == day && 0 <= idays < YearLength(y) && -400_000_100_000 <= y <= INT_MAX
            else day < DaysBeforeYear(INT_MIN + TM_YEAR_BASE) || DaysBeforeYear(INT_MAX + 1) <= day
  {
    hide DaysBeforeYear, IsLeap;
    y, idays := y0, days;
    YearsMonotone(INT_MIN, INT_MIN + TM_YEAR_BASE);
    var overflow;
    while idays < 0
      invariant DaysBeforeYear(y) + idays == DaysBeforeYear(y0) + days && idays <= 26_000
      invariant y0 - (if idays < 0 then idays - days else 25_000 + YearLength(y)) <= y <= y0
      invariant days <= idays
      decreases -idays
    {
      NextYear(y - 1);
      overflow, y := IncrementOverflow(y, -1);
      if overflow {
        YearsMonotone(y, INT_MIN);
        ok := false;
        return;
      }
      idays := idays + YearLength(y);
    }
    ok := true;
    while idays >= YearLength(y)
      invariant 0 <= idays <= 26_000 && DaysBeforeYear(y) + idays == DaysBeforeYear(y0) + days
      invariant y0 - 26_000 <= y <= INT_MAX
    {
      NextYear(y);
      idays := idays - YearLength(y);
      overflow, y := IncrementOverflow(y, 1);
      if overflow {
        YearsMonotone(if y < 0 then y + 1 else y, if y < 0 then INT_MIN + TM_YEAR_BASE else y);
        ok := false;
        return;
      }
    }
  }

  method Weekday(y: int64, idays: int64) returns (wday: int64)
    requires -400_000_100_000 <= y <= INT_MAX && 0 <= idays < DAYSPERLYEAR
    ensures wday == (EPOCH_WDAY + DaysBeforeYear(y) + idays) % DAYSPERWEEK
  {
    JumpBounds(EPOCH_YEAR, y);
    wday := EPOCH_WDAY + TruncMod(y - EPOCH_YEAR, DAYSPERWEEK) * (DAYSPERNYEAR % DAYSPERWEEK)
            + LeapsThruEndOf(y - 1) - LeapsThruEndOf(EPOCH_YEAR - 1) + idays;
    WeekdayFormula(y, idays, wday);
    wday := TruncMod(wday, DAYSPERWEEK);
    if wday < 0 {
      wday := wday + DAYSPERWEEK;
    }
  }

  method MonthAndDay(leap: bool, yday: int64) returns (mon: int64, mday: int64)
    requires 0 <= yday < (if leap then 366 else 365)
    ensures 0 <= mon < MONSPERYEAR && 1 <= mday <= MonthLength(leap, mon)
    ensures DaysBeforeMonth(leap, mon) + mday - 1 == yday
    ensures (367 * (mon + 1) - 362) / 12 - (if mon < 2 then 0 else if leap then 1 else 2) + mday - 1 == yday
  {
    var idays := yday;
    mon := 0;
    MonthsTable(leap);
    forall m | 0 <= m <= 12
      ensures DaysBeforeMonth(leap, m) == (367 * (m + 1) - 362) / 12 - if m < 2 then 0 else if leap then 1 else 2
    {
      MonthFormula(leap, m);
    }
    while idays >= MonthLength(leap, mon)
      invariant 0 <= mon < MONSPERYEAR && 0 <= idays
      invariant DaysBeforeMonth(leap, mon) + idays == yday
    {
      idays := idays - MonthLength(leap, mon);
      mon := mon + 1;
      assert mon < MONSPERYEAR;
    }
    mday := idays + 1;
  }

  lemma OutsideEpoch()
    ensures DaysBeforeYear(INT_MIN) < DaysBeforeYear(INT_MIN + TM_YEAR_BASE)
    ensures DaysBeforeYear(INT_MAX + 1) > 0
  {
    YearsMonotone(INT_MIN, INT_MIN + TM_YEAR_BASE);
    YearsMonotone(EPOCH_YEAR, INT_MAX + 1);
  }

  method SplitDays(t: int64) returns (tdays: int64, rem: int64)
    ensures tdays * SECSPERDAY + rem == t && -SECSPERDAY < rem < SECSPERDAY
    ensures -110_000_000_000_000 <= tdays <= 110_000_000_000_000
    ensures tdays == t / SECSPERDAY || (tdays <= 0 && tdays == t / SECSPERDAY + 1)
  {
    tdays := TruncDiv(t, SECSPERDAY);
    rem := t - tdays * SECSPERDAY;
  }

  method ClockFields(rem: int64) returns (hour: int64, min: int64, sec: int64)
    requires 0 <= rem < SECSPERDAY
    ensures 0 <= hour < HOURSPERDAY && 0 <= min < MINSPERHOUR && 0 <= sec < SECSPERMIN
    ensures SECSPERHOUR * hour + SECSPERMIN * min + sec == rem
  {
    hour := rem / SECSPERHOUR;
    var inHour: int64 := rem % SECSPERHOUR;
    min := inHour / SECSPERMIN;
    sec := inHour % SECSPERMIN;
  }

  /** The fields computed from the day and the second of the day make up the civil date. */
  lemma AssembleCivil(tm: Tm, y: int, t: int)
    requires y == TM_YEAR_BASE + tm.year
    requires 0 <= tm.mon < MONSPERYEAR && 1 <= tm.mday <= MonthLength(IsLeap(y), tm.mon)
    requires DaysBeforeMonth(IsLeap(y), tm.mon) + tm.mday - 1 == tm.yday
    requires tm.wday == (EPOCH_WDAY + DaysBeforeYear(y) + tm.yday) % DAYSPERWEEK
    requires 0 <= tm.hour < HOURSPERDAY && 0 <= tm.min < MINSPERHOUR && 0 <= tm.sec < SECSPERMIN
    requires SECSPERDAY * (DaysBeforeYear(y) + tm.yday) + SECSPERHOUR * tm.hour + SECSPERMIN * tm.min + tm.sec == t
    ensures Civil(tm, t)
  {
    DivUnique(t, SECSPERDAY, DaysBeforeYear(y) + tm.yday, SECSPERHOUR * tm.hour + SECSPERMIN * tm.min + tm.sec);
  }

  lemma CivilTotal(tm: Tm, t: int)
    requires Civil(tm, t)
    ensures TotalSeconds(tm) == t
  {
  }

  /** The civil date of t, or none exactly when its year (or that year less 1900) does not fit an int. */
  method Timesub(t: int64) returns (r: Option<Tm>)
    ensures r.Some? <==> Representable(t)
    ensures r.Some? ==> Civil(r.value, t) && t == GregorianSeconds(r.value)
  {
    hide DaysBeforeYear, DaysBeforeMonth, MonthLength, IsLeap, Civil, GregorianSeconds;
    var tdays, rem := SplitDays(t);
    var ok, y;
    ok, y, tdays := FindYear(tdays);
    if !ok {
      OutsideEpoch();
      return None;
    }
    var seconds: int64 := tdays * SECSPERDAY;
    tdays := TruncDiv(seconds, SECSPERDAY);
    rem := rem + (seconds - tdays * SECSPERDAY);
    var idays;
    idays, rem := CorrectSeconds(tdays, rem);
    ghost var day := DaysBeforeYear(y) + idays;
    DivUnique(t, SECSPERDAY, day, rem);
    ok, y, idays := CorrectYear(y, idays);
    if !ok {
      return None;
    }
    YearOfDay(y, idays, day);
    var overflow, tmYear := IncrementOverflow(y, -TM_YEAR_BASE);
    if overflow {
      return None;
    }
    var wday := Weekday(y, idays);
    var mon, mday := MonthAndDay(IsLeap(y), idays);
    var hour, min, sec := ClockFields(rem);
    var tm := Tm(sec, min, hour, mday, mon, tmYear, wday, idays);
    AssembleCivil(tm, y, t);
    CivilTotal(tm, t);
    TotalClosed(tm);
    r := Some(tm);
  }

  // ---------------------------------------------------------------------------------------------------------
  // Civil time to seconds
  // ---------------------------------------------------------------------------------------------------------

  const SMALL := 0x4000_0000

  ghost predicate Within(x: int, bound: int) {
    -bound <= x <= bound
  }

  ghost predicate TimesWithin(tm: Tm, bound: int) {
    Within(tm.sec, bound) && Within(tm.min, bound) && Within(tm.hour, bound) && Within(tm.mday, bound)
  }

  ghost predicate FieldsWithin(tm: Tm, bound: int) {
    TimesWithin(tm, bound) && Within(tm.mon, bound) && Within(tm.year, bound)
  }

  /** The minutes, once the seconds have been carried into them if they are to be. */
  function Minutes(tm: Tm, doNormSecs: bool): int {
    if doNormSecs then tm.min + tm.sec / SECSPERMIN else tm.min
  }

  /** The seconds left over. */
  function LeftOver(tm: Tm, doNormSecs: bool): int {
    if doNormSecs then tm.sec % SECSPERMIN else tm.sec
  }

  /** No carry from seconds to minutes, minutes to hours or hours to days is refused. */
  predicate CarriesFit(tm: Tm, doNormSecs: bool) {
    var hours := Minutes(tm, doNormSecs) / MINSPERHOUR;
    && (doNormSecs ==> Fits(tm.min, tm.sec / SECSPERMIN))
    && Fits(tm.hour, hours) && Fits(tm.mday, (tm.hour + hours) / HOURSPERDAY)
  }

  /** The part of s seconds that is set aside: what they are over 0, or over 59 before 1970. */
  function Aside(s: int, beforeEpoch: bool): int {
    if 0 <= s < SECSPERMIN then 0 else if beforeEpoch then s - (SECSPERMIN - 1) else s
  }

  ghost function Saved(tm: Tm, doNormSecs: bool): int {
    var s := LeftOver(tm, doNormSecs);
    Aside(s, TotalSeconds(tm) - s < 0)
  }

  predicate AsideFits(s: int, beforeEpoch: bool) {
    0 <= s < SECSPERMIN || (beforeEpoch ==> Fits(s, 1 - SECSPERMIN))
  }

  /** When time2sub succeeds: nothing is refused, and there is a civil date with and without the seconds set aside. */
  ghost predicate Converts(tm: Tm, doNormSecs: bool) {
    var s := LeftOver(tm, doNormSecs);
    && CarriesFit(tm, doNormSecs) && AsideFits(s, TotalSeconds(tm) - s < 0)
    && Representable(TotalSeconds(tm) - Saved(tm, doNormSecs)) && Representable(TotalSeconds(tm))
  }

  /** A year far beyond those that fit an int, though inside 64 bits. */
  const FAR := 0x4000_0000_0000_0000

  /** A day so far off that its year is beyond int. */
  ghost predicate FarOff(day: int) {
    day < DaysBeforeYear(-FAR) || DaysBeforeYear(FAR) <= day
  }

  lemma FarYear(y: int, mon: int, mday: int)
    requires 0 <= mon < MONSPERYEAR && (y < -FAR - FAR / 2 || FAR + FAR / 2 < y)
    requires if y < 0 then mday <= FAR else -FAR <= mday
    ensures FarOff(DayNumber(y, mon, mday))
  {
    MonthsMonotone(IsLeap(y), 0, mon);
    MonthsMonotone(IsLeap(y), mon, 12);
    MonthsTable(IsLeap(y));
    if y < 0 {
      YearsMonotone(y, -FAR);
    } else {
      YearsMonotone(FAR, y);
    }
  }

  /** Rolls the day of the month into the month and year, keeping the day number. */
  method NormalizeDay(y0: int64, mon0: int64, mday0: int64) returns (ok: bool, y: int64, mon: int64, mday: int64)
    requires 0 <= mon0 < MONSPERYEAR
    ensures ok ==> ValidDate(y, mon, mday) && DayNumber(y, mon, mday) == DayNumber(y0, mon0, mday0)
    ensures !ok ==> FarOff(DayNumber(y0, mon0, mday0))
  {
    hide DaysBeforeYear, IsLeap, DayNumber, FarOff;
    y, mon, mday := y0, mon0, mday0;
    var overflow;
    var li: int64;
    while mday <= 0
      invariant DayNumber(y, mon, mday) == DayNumber(y0, mon0, mday0)
      decreases 1 - mday
    {
      YearStep(y, mon, mday);
      overflow, y := IncrementOverflow32(y, -1);
      if overflow {
        FarYear(y, mon, mday);
        return false, y, mon, mday;
      }
      li := y + (if 1 < mon then 1 else 0);
      mday := mday + YearLength(li);
    }
    while mday > DAYSPERLYEAR
      invariant DayNumber(y, mon, mday) == DayNumber(y0, mon0, mday0)
      invariant 0 < mday
    {
      if y == INT64_MAX { FarYear(y, mon, mday); }
      li := Wrap64(y + (if 1 < mon then 1 else 0));
      mday := mday - YearLength(li);
      overflow, y := IncrementOverflow32(y, 1);
      if overflow {
        return false, y, mon, mday;
      }
      YearStep(y, mon, mday);
    }
    while mday > MonthLength(IsLeap(y), mon)
      invariant 0 <= mon < MONSPERYEAR && 0 < mday <= DAYSPERLYEAR
      invariant DayNumber(y, mon, mday) == DayNumber(y0, mon0, mday0)
      decreases mday
    {
      MonthStep(y, mon, mday);
      if y == INT64_MAX { FarYear(y, mon, mday); }
      mday := mday - MonthLength(IsLeap(y), mon);
      mon := mon + 1;
      if mon >= MONSPERYEAR {
        mon := 0;
        overflow, y := IncrementOverflow32(y, 1);
        if overflow {
          return false, y, mon, mday;
        }
      }
    }
    ok := true;
  }

  /** A day past the end of its month is a day of the next month. */
  lemma MonthStep(y: int, mon: int, mday: int)
    requires 0 <= mon < MONSPERYEAR
    ensures var rest := mday - MonthLength(IsLeap(y), mon);
            DayNumber(y, mon, mday) == if mon + 1 < MONSPERYEAR then DayNumber(y, mon + 1, rest) else DayNumber(y + 1, 0, rest)
  {
    NextYear(y);
    MonthsTable(IsLeap(y));
  }

  /** Carries seconds into minutes, minutes into hours, hours into days, and months into years. */
  method CarryFields(tm: Tm, doNormSecs: bool)
      returns (ok: bool, sec: int64, min: int64, hour: int64, mday: int64, mon: int64, y: int64)
    ensures ok ==> 0 <= min < MINSPERHOUR && 0 <= hour < HOURSPERDAY && 0 <= mon < MONSPERYEAR
    ensures ok ==> y == TM_YEAR_BASE + tm.year + tm.mon / MONSPERYEAR && mon == tm.mon % MONSPERYEAR
    ensures ok ==> (SECSPERDAY * mday + SECSPERHOUR * hour + SECSPERMIN * min + sec
                    == SECSPERDAY * tm.mday + SECSPERHOUR * tm.hour + SECSPERMIN * tm.min + tm.sec)
    ensures ok ==> CarriesFit(tm, doNormSecs) && sec == LeftOver(tm, doNormSecs)
    ensures !ok && CarriesFit(tm, doNormSecs) ==> FarOff((TotalSeconds(tm) - LeftOver(tm, doNormSecs)) / SECSPERDAY)
  {
    hide DaysBeforeYear, FarOff, DayNumber;
    sec, min, hour, mday, mon, y := tm.sec, tm.min, tm.hour, tm.mday, tm.mon, tm.year;
    ok := false;
    var overflow;
    if doNormSecs {
      overflow, min, sec := NormalizeOverflow(min, sec, SECSPERMIN);
      if overflow { return; }
    }
    overflow, hour, min := NormalizeOverflow(hour, min, MINSPERHOUR);
    if overflow { return; }
    overflow, mday, hour := NormalizeOverflow(mday, hour, HOURSPERDAY);
    if overflow { return; }
    ghost var year := TM_YEAR_BASE + tm.year + tm.mon / MONSPERYEAR;
    DayOf(tm, year, tm.mon % MONSPERYEAR, mday, hour, min, sec);
    if year < INT64_MIN + TM_YEAR_BASE || INT64_MAX < year {
      FarYear(year, tm.mon % MONSPERYEAR, mday);
    }
    overflow, y, mon := NormalizeOverflow32(y, mon, MONSPERYEAR);
    if overflow { return; }
    overflow, y := IncrementOverflow32(y, TM_YEAR_BASE);
    if overflow { return; }
    ok := true;
  }

  /** The day of the carried fields is the day of the instant without its seconds. */
  lemma DayOf(tm: Tm, y: int, mon: int, mday: int, hour: int, min: int, sec: int)
    requires y == TM_YEAR_BASE + tm.year + tm.mon / MONSPERYEAR && mon == tm.mon % MONSPERYEAR
    requires 0 <= min < MINSPERHOUR && 0 <= hour < HOURSPERDAY
    requires SECSPERDAY * mday + SECSPERHOUR * hour + SECSPERMIN * min + sec
          == SECSPERDAY * tm.mday + SECSPERHOUR * tm.hour + SECSPERMIN * tm.min + tm.sec
    ensures TotalSeconds(tm) - sec == SECSPERDAY * DayNumber(y, mon, mday) + SECSPERHOUR * hour + SECSPERMIN * min
    ensures (TotalSeconds(tm) - sec) / SECSPERDAY == DayNumber(y, mon, mday)
  {
    hide DaysBeforeYear, DaysBeforeMonth, IsLeap;
    DivUnique(TotalSeconds(tm) - sec, SECSPERDAY, DayNumber(y, mon, mday), SECSPERHOUR * hour + SECSPERMIN * min);
  }

  /** Seconds outside 0..59 (a leap second, say) are set aside, on the side that cannot leave the range. */
  method SetAsideSeconds(sec0: int64, y: int64) returns (ok: bool, sec: int64, saved: int64)
    ensures ok <==> AsideFits(sec0, y < EPOCH_YEAR)
    ensures ok ==> 0 <= sec < SECSPERMIN && sec + saved == sec0 && saved == Aside(sec0, y < EPOCH_YEAR)
  {
    if 0 <= sec0 < SECSPERMIN {
      return true, sec0, 0;
    } else if y < EPOCH_YEAR {
      var overflow, rest := IncrementOverflow(sec0, 1 - SECSPERMIN);
      if overflow { return false, sec0, 0; }
      return true, SECSPERMIN - 1, rest;
    } else {
      return true, 0, sec0;
    }
  }

  /** The first half of time2sub: normalised fields and the seconds set aside, denoting the same instant. */
  method Normalize(tm: Tm, doNormSecs: bool) returns (ok: bool, yourtm: Tm, saved: int64)
    ensures ok ==> Normal(yourtm) && TotalSeconds(yourtm) + saved == TotalSeconds(tm) && saved == Saved(tm, doNormSecs)
    ensures var s := LeftOver(tm, doNormSecs);
            var fit := CarriesFit(tm, doNormSecs) && AsideFits(s, TotalSeconds(tm) - s < 0);
            if ok then fit else fit ==> FarOff((TotalSeconds(tm) - s) / SECSPERDAY)
  {
    hide DaysBeforeYear, DaysBeforeMonth, IsLeap, FarOff, DayNumber, TotalSeconds, LeftOver, CarriesFit, Fits, MonthLength;
    yourtm, saved := tm, 0;
    var sec, min, hour, mday, mon, y;
    ok, sec, min, hour, mday, mon, y := CarryFields(tm, doNormSecs);
    if !ok { return; }
    DayOf(tm, y, mon, mday, hour, min, sec);
    ok, y, mon, mday := NormalizeDay(y, mon, mday);
    if !ok { return; }
    EpochSide(y, mon, mday);
    if y < INT64_MIN + TM_YEAR_BASE { FarYear(y, mon, mday); }
    var overflow;
    overflow, y := IncrementOverflow32(y, -TM_YEAR_BASE);
    if overflow {
      ok := false;
      return;
    }
    ok, sec, saved := SetAsideSeconds(sec, y + TM_YEAR_BASE);
    if !ok { return; }
    yourtm := Tm(sec, min, hour, mday, mon, y, tm.wday, tm.yday);
    TotalOfNormal(yourtm);
  }

  /** Years before 1970 are those of the negative day numbers. */
  lemma EpochSide(y: int, mon: int, mday: int)
    requires ValidDate(y, mon, mday)
    ensures y < EPOCH_YEAR <==> DayNumber(y, mon, mday) < 0
    ensures mday <= 31
  {
    ValidDateInYear(y, mon, mday);
    if y < EPOCH_YEAR {
      YearsMonotone(y + 1, EPOCH_YEAR);
    } else {
      YearsMonotone(EPOCH_YEAR, y);
    }
  }

  lemma TotalOfNormal(tm: Tm)
    requires 0 <= tm.mon < MONSPERYEAR
    ensures TotalSeconds(tm) == SECSPERDAY * DayNumber(TM_YEAR_BASE + tm.year, tm.mon, tm.mday)
                              + SECSPERHOUR * tm.hour + SECSPERMIN * tm.min + tm.sec
  {
  }

  /**
   * The second half: binary search of all 64-bit instants. lo and hi close in on the instant sought, if there
   * is one, and every step shrinks the interval; otherwise the search ends empty-handed.
   */
  method SearchInstant(yourtm: Tm) returns (ok: bool, t: int64)
    requires Normal(yourtm)
    ensures ok <==> Representable(TotalSeconds(yourtm))
    ensures ok ==> t == TotalSeconds(yourtm)
  {
    ghost var target := TotalSeconds(yourtm);
    var lo: int64, hi: int64 := INT64_MIN, INT64_MAX;
    if Representable(target) { RepresentableBounds(target); }
    while true
      invariant lo <= hi
      invariant Representable(target) ==> lo <= target <= hi
      decreases hi - lo
    {
      HalfBounds(lo);
      HalfBounds(hi);
      t := TruncDiv(lo, 2) + TruncDiv(hi, 2);
      if t < lo {
        t := lo;
      } else if t > hi {
        t := hi;
      }
      var dir: int;
      var mytm := Timesub(t);
      if mytm == None {
        dir := if t > 0 then 1 else -1;
        UnrepresentableSide(t, target);
      } else {
        dir := Tmcomp(mytm.value, yourtm);
        TmcompOrders(mytm.value, yourtm);
      }
      assert Representable(target) ==> (dir < 0 <==> t < target) && (dir == 0 <==> t == target);
      if dir == 0 {
        return true, t;
      }
      if t == lo {
        if t == INT64_MAX {
          return false, t;
        }
        t := t + 1;
        lo := lo + 1;
      } else if t == hi {
        if t == INT64_MIN {
          return false, t;
        }
        t := t - 1;
        hi := hi - 1;
      }
      if lo > hi {
        return false, t;
      }
      if dir > 0 {
        hi := t;
      } else {
        lo := t;
      }
    }
  }

  lemma HalfBounds(x: int64)
    ensures -0x4000_0000_0000_0000 <= TruncDiv(x, 2) < 0x4000_0000_0000_0000
  {
    var h := TruncDiv(x, 2);
    assert x >= 0 ==> 2 * h <= x;
    assert x < 0 ==> x <= 2 * h;
  }

  /** An instant with no civil date lies on its own side of every instant that has one. */
  lemma UnrepresentableSide(t: int, target: int)
    requires !Representable(t)
    ensures Representable(target) ==> if t > 0 then target < t else t < target
  {
    YearsMonotone(EPOCH_YEAR, INT_MAX + 1);
    YearsMonotone(INT_MIN + TM_YEAR_BASE, EPOCH_YEAR);
  }

  method Time2sub(tm: Tm, doNormSecs: bool) returns (okay: bool, t: int64, out: Tm)
    ensures okay <==> Converts(tm, doNormSecs)
    ensures okay ==> t == TotalSeconds(tm) && Civil(out, t)
  {
    hide TotalSeconds, Representable, Civil, Normal, DaysBeforeYear, FarOff, LeftOver, CarriesFit, AsideFits;
    var ok, yourtm, saved := Normalize(tm, doNormSecs);
    FarOffWithout(tm, doNormSecs);
    if !ok { return false, -1, tm; }
    ok, t := SearchInstant(yourtm);
    if !ok { return false, -1, tm; }
    RepresentableBounds(t);
    if Representable(TotalSeconds(tm)) { RepresentableBounds(TotalSeconds(tm)); }
    var newt := Wrap64(t + saved);
    if (newt < t) != (saved < 0) { return false, -1, tm; }
    t := newt;
    var r := Timesub(t);
    if r == None { return false, t, tm; }
    return true, t, r.value;
  }

  /** If the day is far off without the seconds left over, then the instant is not found whatever is set aside. */
  lemma FarOffWithout(tm: Tm, doNormSecs: bool)
    ensures var s := LeftOver(tm, doNormSecs); FarOff((TotalSeconds(tm) - s) / SECSPERDAY) ==> !Converts(tm, doNormSecs)
  {
    hide TotalSeconds, DaysBeforeYear, LeftOver;
    var s := LeftOver(tm, doNormSecs);
    var t := TotalSeconds(tm) - s;
    if FarOff(t / SECSPERDAY) {
      FarOffNearby(t, TotalSeconds(tm) - Saved(tm, doNormSecs));
    }
  }

  lemma FarOffNearby(t: int, u: int)
    requires FarOff(t / SECSPERDAY) && t <= u < t + SECSPERMIN
    ensures !Representable(u)
  {
    YearsMonotone(-FAR, INT_MIN + TM_YEAR_BASE);
    YearsMonotone(INT_MAX + 1, FAR);
  }

  /** First without normalising the seconds, then, if that fails, with. */
  method Time2(tm: Tm) returns (okay: bool, t: int64, out: Tm)
    ensures okay <==> Converts(tm, false) || Converts(tm, true)
    ensures okay ==> t == TotalSeconds(tm) && Civil(out, t)
  {
    hide *;
    okay, t, out := Time2sub(tm, false);
    if !okay {
      okay, t, out := Time2sub(tm, true);
    }
  }

  /** The instant the fields denote, and the same fields normalised; -1 and the fields unchanged on failure. */
  method TimegmInternal(tm: Tm) returns (okay: bool, t: int64, out: Tm)
    ensures if okay then t == TotalSeconds(tm) == GregorianSeconds(tm) && Civil(out, t) else t == -1
    ensures okay <==> Converts(tm, false) || Converts(tm, true)
    ensures TimesWithin(tm, SMALL) ==> (okay <==> Representable(TotalSeconds(tm)))
    ensures FieldsWithin(tm, SMALL) ==> okay
  {
    hide TotalSeconds, Civil, Representable, Converts, GregorianSeconds;
    okay, t, out := Time2(tm);
    TotalClosed(tm);
    if TimesWithin(tm, SMALL) { SmallTimesConvert(tm); }
    if FieldsWithin(tm, SMALL) { SmallIsRepresentable(tm); }
    if !okay {
      t := -1;
    }
  }

  /** With a time of day and a day of the month this small nothing is refused, whatever the year and the month. */
  lemma SmallTimesConvert(tm: Tm)
    requires TimesWithin(tm, SMALL)
    ensures Converts(tm, true) <==> Representable(TotalSeconds(tm))
    ensures Converts(tm, false) ==> Representable(TotalSeconds(tm))
  {
    hide TotalSeconds, Representable;
    QuotientBound(tm.sec, SECSPERMIN);
    var min := Minutes(tm, true);
    QuotientBound(min, MINSPERHOUR);
    QuotientBound(tm.hour + min / MINSPERHOUR, HOURSPERDAY);
  }

  /** Fields this small denote an instant whose year is nowhere near the limits. */
  lemma SmallIsRepresentable(tm: Tm)
    requires FieldsWithin(tm, SMALL)
    ensures Representable(TotalSeconds(tm))
  {
    var y, m := TM_YEAR_BASE + tm.year + tm.mon / MONSPERYEAR, tm.mon % MONSPERYEAR;
    MonthsMonotone(IsLeap(y), 0, m);
    MonthsMonotone(IsLeap(y), m, 12);
    MonthsTable(IsLeap(y));
    YearsMonotone(INT_MIN + TM_YEAR_BASE, y);
    YearsMonotone(y, INT_MAX + 1);
  }
}
