/**
 * Proleptic Gregorian civil dates for Unix timestamps, evaluated in UTC.
 * This is the conversion Go's time.Time performs before Format prints the
 * year, month and day of a timestamp.
 *
 * The reference is a closed-form day count (DaysFromCivil). The conversion
 * (CivilFromDays) splits a day count into 400-, 100-, 4- and 1-year
 * cycles, the way Go's time package does. It is proved to invert the day
 * count in both directions.
 */
module Calendar {

  const SecondsPerDay: int := 86400
  /** Days from 0001-01-01 to 1970-01-01. */
  const UnixEpochDays: int := 719162
  const DaysPer400Years: int := 146097
  const DaysPer100Years: int := 36524
  const DaysPer4Years: int := 1461

  datatype Date = Date(year: int, month: int, day: int)

  predicate IsLeap(y: int) { y % 4 == 0 && (y % 100 != 0 || y % 400 == 0) }

  function DaysInYear(y: int): int { if IsLeap(y) then 366 else 365 }

  function DaysInMonth(y: int, m: int): int
    requires 1 <= m <= 12
  {
    if m == 2 then (if IsLeap(y) then 29 else 28)
    else if m == 4 || m == 6 || m == 9 || m == 11 then 30
    else 31
  }

  predicate ValidDate(d: Date)
  {
    1 <= d.month <= 12 && 1 <= d.day <= DaysInMonth(d.year, d.month)
  }

  /** Days from 0001-01-01 to January 1 of year y (negative for years before 1). */
  function DaysBeforeYear(y: int): int
  {
    var p := y - 1;
    365 * p + p / 4 - p / 100 + p / 400
  }

  /** Days from January 1 to the first day of month m of year y; m == 13 stands for the next January 1. */
  function DaysBeforeMonth(y: int, m: int): int
    requires 1 <= m <= 13
  {
    var common :=
      if m == 1 then 0 else if m == 2 then 31 else if m == 3 then 59
      else if m == 4 then 90 else if m == 5 then 120 else if m == 6 then 151
      else if m == 7 then 181 else if m == 8 then 212 else if m == 9 then 243
      else if m == 10 then 273 else if m == 11 then 304 else if m == 12 then 334
      else 365;
    if m > 2 && IsLeap(y) then common + 1 else common
  }

  /** Days from 1970-01-01 to d. */
  function DaysFromCivil(d: Date): int
    requires ValidDate(d)
  {
    DaysBeforeYear(d.year) - UnixEpochDays + DaysBeforeMonth(d.year, d.month) + d.day - 1
  }

  /** The month of year y that holds day yday (counted from 0), searched from month m on. */
  function FindMonth(y: int, yday: int, m: int): (r: int)
    requires 1 <= m <= 12 && DaysBeforeMonth(y, m) <= yday < DaysInYear(y)
    ensures m <= r <= 12
    ensures DaysBeforeMonth(y, r) <= yday < DaysBeforeMonth(y, r + 1)
    decreases 12 - m
  {
    if m == 12 || yday < DaysBeforeMonth(y, m + 1) then m else FindMonth(y, yday, m + 1)
  }

  /** A year and a day of that year counted from 0. */
  datatype YearDay = YearDay(year: int, yday: int)

  /**
   * The year holding the day that lies z days after 1970-01-01, and the
   * day's offset in it, found by splitting the days since 0001-01-01 into
   * 400-, 100-, 4- and 1-year cycles.
   */
  function YearOfDays(z: int): YearDay
  {
    var a := z + UnixEpochDays;
    var n400 := a / DaysPer400Years;
    var r400 := a % DaysPer400Years;
    // The last century of a 400-year cycle has one extra day.
    var n100 := if r400 / DaysPer100Years == 4 then 3 else r400 / DaysPer100Years;
    var r100 := r400 - DaysPer100Years * n100;
    var n4 := r100 / DaysPer4Years;
    var r4 := r100 % DaysPer4Years;
    // The last year of a 4-year cycle has one extra day.
    var n1 := if r4 / 365 == 4 then 3 else r4 / 365;
    YearDay(1 + 400 * n400 + 100 * n100 + 4 * n4 + n1, r4 - 365 * n1)
  }

  /** The civil date of the day that lies z days after 1970-01-01. */
  function CivilFromDays(z: int): Date
  {
    var yd := YearOfDays(z);
    if 0 <= yd.yday < DaysInYear(yd.year) then
      var m := FindMonth(yd.year, yd.yday, 1);
      Date(yd.year, m, yd.yday - DaysBeforeMonth(yd.year, m) + 1)
    else
      Date(yd.year, 1, 1) // never taken, as YearOfDaysCorrect shows
  }

  /** The civil date, in UTC, of Unix time t (seconds since 1970-01-01T00:00:00Z). */
  function CivilFromUnix(t: int): Date
  {
    CivilFromDays(t / SecondsPerDay)
  }

  // ---- properties of the reference day count ----

  /** Floor division by k steps up by one exactly at the multiples of k. */
  lemma {:induction false} FloorStep(p: int, k: int)
    requires k == 4 || k == 100 || k == 400
    ensures (p + 1) / k == p / k + (if (p + 1) % k == 0 then 1 else 0)
  {
    var q, r := p / k, p % k;
    assert p == k * q + r && 0 <= r < k;
    if r == k - 1 {
      assert p + 1 == k * (q + 1);
    } else {
      assert p + 1 == k * q + (r + 1);
    }
  }

  /** Consecutive years are DaysInYear apart. */
  lemma {:induction false} DaysBeforeNextYear(y: int)
    ensures DaysBeforeYear(y + 1) == DaysBeforeYear(y) + DaysInYear(y)
  {
    FloorStep(y - 1, 4);
    FloorStep(y - 1, 100);
    FloorStep(y - 1, 400);
  }

  lemma {:induction false} DaysBeforeYearMonotone(a: int, b: int)
    requires a < b
    ensures DaysBeforeYear(a) + DaysInYear(a) <= DaysBeforeYear(b)
  {
    DaysBeforeNextYear(a);
    var p, q := a, b - 1;
    assert 4 * (q / 4) >= q - 3 && 4 * (p / 4) <= p;
    assert 100 * (q / 100) <= q && 100 * (p / 100) >= p - 99;
    assert 400 * (q / 400) >= q - 399 && 400 * (p / 400) <= p;
  }

  /** The month table adds up month by month and covers the whole year. */
  lemma {:induction false} DaysBeforeMonthStep(y: int, m: int)
    requires 1 <= m <= 12
    ensures DaysBeforeMonth(y, m + 1) == DaysBeforeMonth(y, m) + DaysInMonth(y, m)
    ensures DaysBeforeMonth(y, 1) == 0 && DaysBeforeMonth(y, 13) == DaysInYear(y)
  {
  }

  lemma {:induction false} DaysBeforeMonthMonotone(y: int, m1: int, m2: int)
    requires 1 <= m1 < m2 <= 13
    ensures DaysBeforeMonth(y, m1) < DaysBeforeMonth(y, m2)
  {
  }

  /** The cycle counts of CivilFromDays add up to the reference day count of the year they name. */
  lemma {:induction false} CycleDays(n400: int, n100: int, n4: int, n1: int)
    requires 0 <= n100 <= 3 && 0 <= n4 <= 24 && 0 <= n1 <= 3
    ensures DaysBeforeYear(1 + 400 * n400 + 100 * n100 + 4 * n4 + n1)
         == DaysPer400Years * n400 + DaysPer100Years * n100 + DaysPer4Years * n4 + 365 * n1
  {
    var p := 400 * n400 + 100 * n100 + 4 * n4 + n1;
    assert p == 4 * (100 * n400 + 25 * n100 + n4) + n1;
    assert p / 4 == 100 * n400 + 25 * n100 + n4;
    assert p == 100 * (4 * n400 + n100) + (4 * n4 + n1);
    assert p / 100 == 4 * n400 + n100;
    assert p == 400 * n400 + (100 * n100 + 4 * n4 + n1);
    assert p / 400 == n400;
  }

  /** The cycle split lands on a day inside its year, and the reference day count agrees with it. */
  lemma {:induction false} YearOfDaysCorrect(z: int)
    ensures 0 <= YearOfDays(z).yday < DaysInYear(YearOfDays(z).year)
    ensures DaysBeforeYear(YearOfDays(z).year) - UnixEpochDays + YearOfDays(z).yday == z
  {
    var a := z + UnixEpochDays;
    var n400 := a / DaysPer400Years;
    var r400 := a % DaysPer400Years;
    var n100 := if r400 / DaysPer100Years == 4 then 3 else r400 / DaysPer100Years;
    var r100 := r400 - DaysPer100Years * n100;
    assert 0 <= n100 <= 3 && 0 <= r100 <= DaysPer100Years;
    assert r100 == DaysPer100Years ==> n100 == 3;
    var n4 := r100 / DaysPer4Years;
    var r4 := r100 % DaysPer4Years;
    assert 0 <= n4 <= 24;
    var n1 := if r4 / 365 == 4 then 3 else r4 / 365;
    var yday := r4 - 365 * n1;
    var y := 1 + 400 * n400 + 100 * n100 + 4 * n4 + n1;
    assert YearOfDays(z) == YearDay(y, yday);
    assert 0 <= yday <= 365;
    CycleDays(n400, n100, n4, n1);
    if yday == 365 {
      assert r4 == 1460;
      assert n4 == 24 ==> r100 == DaysPer100Years;
      LastDayOfCycleIsLeap(n400, n100, n4);
    }
  }

  /**
   * The 366th day of a year in a 4-year cycle can only fall in the cycle's
   * last year, and that year is a leap year: a multiple of 4 that is not a
   * century, or the last century of a 400-year cycle.
   */
  lemma {:induction false} LastDayOfCycleIsLeap(n400: int, n100: int, n4: int)
    requires 0 <= n100 <= 3 && 0 <= n4 <= 24
    requires n4 == 24 ==> n100 == 3
    ensures IsLeap(1 + 400 * n400 + 100 * n100 + 4 * n4 + 3)
  {
    var y := 1 + 400 * n400 + 100 * n100 + 4 * n4 + 3;
    var k := 4 * n400 + n100;
    assert y == 4 * (25 * k + n4 + 1);
    MultipleMod(25 * k + n4 + 1, 4);
    if n4 == 24 {
      assert y == 400 * (n400 + 1);
      MultipleMod(n400 + 1, 400);
    } else {
      assert y == 100 * k + 4 * (n4 + 1);
      OffsetMod(k, 4 * (n4 + 1));
    }
  }

  lemma {:induction false} MultipleMod(q: int, m: int)
    requires m == 4 || m == 400
    ensures (m * q) % m == 0
  {
    if m == 4 { assert (4 * q) % 4 == 0; } else { assert (400 * q) % 400 == 0; }
  }

  lemma {:induction false} OffsetMod(k: int, c: int)
    requires 0 < c < 100
    ensures (100 * k + c) % 100 == c
  {
  }

  /** CivilFromDays yields a valid date that the reference day count maps back to z. */
  lemma {:induction false} CivilFromDaysCorrect(z: int)
    ensures ValidDate(CivilFromDays(z)) && DaysFromCivil(CivilFromDays(z)) == z
  {
    var yd := YearOfDays(z);
    YearOfDaysCorrect(z);
    DaysBeforeMonthStep(yd.year, 1);
    var m := FindMonth(yd.year, yd.yday, 1);
    DaysBeforeMonthStep(yd.year, m);
  }

  /** Distinct valid dates have distinct day counts. */
  lemma {:induction false} DaysFromCivilInjective(d1: Date, d2: Date)
    requires ValidDate(d1) && ValidDate(d2) && DaysFromCivil(d1) == DaysFromCivil(d2)
    ensures d1 == d2
  {
    DaysBeforeMonthStep(d1.year, d1.month);
    DaysBeforeMonthStep(d2.year, d2.month);
    if d1.year < d2.year {
      DaysBeforeYearMonotone(d1.year, d2.year);
      DaysBeforeMonthMonotone(d1.year, d1.month + 0, 13);
      assert false;
    } else if d2.year < d1.year {
      DaysBeforeYearMonotone(d2.year, d1.year);
      assert false;
    }
    if d1.month < d2.month {
      DaysBeforeMonthMonotone(d1.year, d1.month + 1, d2.month);
      assert false;
    } else if d2.month < d1.month {
      DaysBeforeMonthMonotone(d1.year, d2.month + 1, d1.month);
      assert false;
    }
  }

  /** Converting a valid date to its day count and back gives the date itself. */
  lemma {:induction false} CivilOfDaysFromCivil(d: Date)
    requires ValidDate(d)
    ensures CivilFromDays(DaysFromCivil(d)) == d
  {
    CivilFromDaysCorrect(DaysFromCivil(d));
    DaysFromCivilInjective(CivilFromDays(DaysFromCivil(d)), d);
  }

  /** Every second of a day has that day's date. */
  lemma {:induction false} CivilFromUnixWithinDay(d: Date, s: int)
    requires ValidDate(d) && 0 <= s < SecondsPerDay
    ensures CivilFromUnix(DaysFromCivil(d) * SecondsPerDay + s) == d
  {
    var n := DaysFromCivil(d);
    DayOfSecond(n, s);
    CivilOfDaysFromCivil(d);
  }

  lemma {:induction false} DayOfSecond(n: int, s: int)
    requires 0 <= s < SecondsPerDay
    ensures (n * SecondsPerDay + s) / SecondsPerDay == n
  {
  }
}
