/** Years of the Gregorian calendar, in days and in seconds since the start of 1970. */
module Calendar {
  import opened Arith

  predicate LeapYear(year: int) {
    year % 4 == 0 && (year % 100 != 0 || year % 400 == 0)
  }

  /** Days before the first of January: 365 a year, and one more for every leap year gone by. */
  function DaysBefore(year: int): int {
    365 * (year - 1) + (year - 1) / 4 - (year - 1) / 100 + (year - 1) / 400
  }

  /** The next multiple of m is passed exactly when the year is one. */
  lemma MultiplesUpTo(year: int, m: int)
    requires m > 0
    ensures year / m - (year - 1) / m == if year % m == 0 then 1 else 0
  {
    var q, r := year / m, year % m;
    assert year == q * m + r;
    if r == 0 {
      assert (q - 1) * m == q * m - m;
      DivModUnique(year - 1, q - 1, m - 1, m);
    } else {
      DivModUnique(year - 1, q, r - 1, m);
    }
  }

  /** Counting leap years by rule and by quotients agrees. */
  lemma YearLength(year: int)
    ensures DaysBefore(year + 1) - DaysBefore(year) == if LeapYear(year) then 366 else 365
  {
    MultiplesUpTo(year, 4);
    MultiplesUpTo(year, 100);
    MultiplesUpTo(year, 400);
  }

  /** The first second of a year, in UTC. */
  function YearStart(year: int): int {
    86400 * (DaysBefore(year) - DaysBefore(1970))
  }

  lemma {:induction false} YearsAscend(year: int, later: int)
    requires year <= later
    ensures YearStart(year) <= YearStart(later)
    decreases later - year
  {
    hide DaysBefore;
    if year < later {
      YearLength(later - 1);
      YearsAscend(year, later - 1);
    }
  }

  /** An instant lies in one year only. */
  lemma InOneYear(t: int, year: int, year': int)
    requires YearStart(year) <= t < YearStart(year + 1) && YearStart(year') <= t < YearStart(year' + 1)
    ensures year == year'
  {
    hide YearStart;
    if year < year' {
      YearsAscend(year + 1, year');
    } else if year' < year {
      YearsAscend(year' + 1, year);
    }
  }
}
