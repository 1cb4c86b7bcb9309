/**
 * Calendar dates of the proleptic Gregorian calendar, as pandas' datetime64 uses them.
 * A date becomes an instant at its midnight: the number of microseconds since
 * 1970-01-01T00:00, the resolution of a PostgreSQL `timestamp`.
 */
module Calendar {
  import opened DivisionFacts

  datatype Date = Date(year: int, month: int, day: int)

  /** A calendar month; it stands for its first day, as `to_period('M').to_timestamp()` does. */
  datatype Month = Month(year: int, month: int)

  const MicrosPerDay: int := 86_400_000_000

  predicate IsLeapYear(y: int)
  {
    y % 4 == 0 && (y % 100 != 0 || y % 400 == 0)
  }

  function DaysInMonth(y: int, m: int): (n: int)
    requires 1 <= m <= 12
    ensures 28 <= n <= 31
    ensures m == 2 ==> (n == 29 <==> IsLeapYear(y))
  {
    if m == 2 then (if IsLeapYear(y) then 29 else 28)
    else if m == 4 || m == 6 || m == 9 || m == 11 then 30
    else 31
  }

  /** A date of the calendar: a month from 1 to 12 and a day within that month. */
  predicate ValidDate(d: Date)
  {
    1 <= d.month <= 12 && 1 <= d.day <= DaysInMonth(d.year, d.month)
  }

  /** Chronological order of dates, `a` on or before `b`. */
  predicate DateNotAfter(a: Date, b: Date)
  {
    a.year < b.year || (a.year == b.year && (a.month < b.month || (a.month == b.month && a.day <= b.day)))
  }

  /** The date that follows `d` in the calendar. */
  function NextDay(d: Date): (n: Date)
    requires ValidDate(d)
    ensures ValidDate(n)
  {
    if d.day < DaysInMonth(d.year, d.month) then Date(d.year, d.month, d.day + 1)
    else if d.month < 12 then Date(d.year, d.month + 1, 1)
    else Date(d.year + 1, 1, 1)
  }

  /**
   * Days since 1970-01-01. Years are counted from March so that the leap day ends a year;
   * a 400-year era has 146097 days. Dafny's `/` floors for a positive divisor.
   */
  function DaysFromCivil(d: Date): int
  {
    var y := if d.month <= 2 then d.year - 1 else d.year;
    var era := y / 400;
    var yoe := y - era * 400;
    var mp := if d.month > 2 then d.month - 3 else d.month + 9;
    var doy := (153 * mp + 2) / 5 + d.day - 1;
    var doe := yoe * 365 + yoe / 4 - yoe / 100 + doy;
    era * 146097 + doe - 719468
  }

  /** The instant at which a date starts, in microseconds since 1970-01-01T00:00. */
  function Midnight(d: Date): int
  {
    DaysFromCivil(d) * MicrosPerDay
  }

  /** The month containing `d`: `dt.to_period('M')`. */
  function MonthOf(d: Date): Month
  {
    Month(d.year, d.month)
  }

  /** The first day of a month: `to_timestamp()` of a monthly period. */
  function FirstDay(m: Month): Date
  {
    Date(m.year, m.month, 1)
  }

  /** Chronological order of months. */
  predicate MonthBefore(a: Month, b: Month)
  {
    a.year < b.year || (a.year == b.year && a.month < b.month)
  }

  /** The day count starts at the Unix epoch. */
  lemma Epoch()
    ensures DaysFromCivil(Date(1970, 1, 1)) == 0
  {
  }

  /** The day count agrees with a known date after a leap day. */
  lemma KnownDateMillennium()
    ensures DaysFromCivil(Date(2000, 3, 1)) == 11017
  {
  }

  /** The day count of the eligibility cutoff. */
  lemma KnownDateCutoff()
    ensures DaysFromCivil(Date(2025, 11, 6)) == 20398
  {
  }

  /** The day count of the first of November 2025, before the cutoff. */
  lemma KnownDateNovemberFirst()
    ensures DaysFromCivil(Date(2025, 11, 1)) == 20393
  {
  }

  /** The day count of the tenth of November 2025, after the cutoff. */
  lemma KnownDateNovemberTenth()
    ensures DaysFromCivil(Date(2025, 11, 10)) == 20402
  {
  }

  /** The last date whose midnight is before the earliest 64-bit nanosecond count. */
  lemma KnownDateBeforeLowestTimestamp()
    ensures DaysFromCivil(Date(1677, 9, 21)) == -106752
  {
  }

  /** The first date whose midnight a 64-bit nanosecond count can hold. */
  lemma KnownDateLowestTimestamp()
    ensures DaysFromCivil(Date(1677, 9, 22)) == -106751
  {
  }

  /** The first of the month of the earliest timestamp, three weeks before it. */
  lemma KnownDateFirstOfLowestMonth()
    ensures DaysFromCivil(Date(1677, 9, 1)) == -106772
  {
  }

  /** The first month start whose midnight a 64-bit nanosecond count can hold. */
  lemma KnownDateFirstRepresentableMonthStart()
    ensures DaysFromCivil(Date(1677, 10, 1)) == -106742
  {
  }

  /** The last date whose midnight a 64-bit nanosecond count can hold. */
  lemma KnownDateHighestTimestamp()
    ensures DaysFromCivil(Date(2262, 4, 11)) == 106751
  {
  }

  /** The last signup date whose week 8 still ends inside the 64-bit nanosecond range. */
  lemma KnownDateLastFullEighthWeek()
    ensures DaysFromCivil(Date(2262, 2, 14)) == 106695
  {
  }

  /** The first signup date whose week 8 ends past the 64-bit nanosecond range. */
  lemma KnownDateFirstCutEighthWeek()
    ensures DaysFromCivil(Date(2262, 2, 15)) == 106696
  {
  }

  /** The last signup date whose week 8 still starts inside the 64-bit nanosecond range. */
  lemma KnownDateLastEighthWeekStart()
    ensures DaysFromCivil(Date(2262, 2, 21)) == 106702
  {
  }

  /** The first signup date whose week 8 starts past the 64-bit nanosecond range. */
  lemma KnownDateFirstLostEighthWeek()
    ensures DaysFromCivil(Date(2262, 2, 22)) == 106703
  {
  }

  /** A signup date whose third week already starts past the 64-bit nanosecond range. */
  lemma KnownDateLateApril()
    ensures DaysFromCivil(Date(2262, 4, 1)) == 106741
  {
  }

  /** The first date whose midnight is after the latest 64-bit nanosecond count. */
  lemma KnownDateAfterHighestTimestamp()
    ensures DaysFromCivil(Date(2262, 4, 12)) == 106752
  {
  }

  /** The first day of the month of `d` is a valid date of that month, `d.day - 1` days before `d`. */
  lemma MonthStartOf(d: Date)
    requires ValidDate(d)
    ensures ValidDate(FirstDay(MonthOf(d)))
    ensures MonthOf(FirstDay(MonthOf(d))) == MonthOf(d)
    ensures DaysFromCivil(d) == DaysFromCivil(FirstDay(MonthOf(d))) + d.day - 1
    ensures Midnight(FirstDay(MonthOf(d))) <= Midnight(d)
  {
    var f := FirstDay(MonthOf(d));
    assert DaysFromCivil(d) - DaysFromCivil(f) == d.day - 1;
    assert Midnight(d) - Midnight(f) == (d.day - 1) * MicrosPerDay;
  }

  /** The day count advances by exactly one from each date to the next: it counts days. */
  lemma {:induction false} DaysFromCivilNextDay(d: Date)
    requires ValidDate(d)
    ensures DaysFromCivil(NextDay(d)) == DaysFromCivil(d) + 1
  {
    if d.day < DaysInMonth(d.year, d.month) {
      assert NextDay(d) == Date(d.year, d.month, d.day + 1);
      WithinMonth(d);
    } else if d.month == 2 {
      assert d == Date(d.year, 2, DaysInMonth(d.year, 2)) && NextDay(d) == Date(d.year, 3, 1);
      MarchYearLength(d.year - 1);
    } else {
      assert d == Date(d.year, d.month, DaysInMonth(d.year, d.month));
      MonthLengths(d.year, d.month);
    }
  }

  /** Within a month, the day count advances with the day of the month. */
  lemma WithinMonth(d: Date)
    ensures DaysFromCivil(Date(d.year, d.month, d.day + 1)) == DaysFromCivil(d) + 1
  {
  }

  /** Each month other than February spans the gap between its first day and the next month's. */
  lemma MonthLengths(y: int, m: int)
    requires 1 <= m <= 12 && m != 2
    ensures var n := if m < 12 then Date(y, m + 1, 1) else Date(y + 1, 1, 1);
            DaysFromCivil(n) == DaysFromCivil(Date(y, m, DaysInMonth(y, m))) + 1
  {
  }

  /**
   * A year counted from March of `y` to February of `y + 1` has 365 days, plus one when
   * `y + 1` is a leap year.
   */
  lemma MarchYearLength(y: int)
    ensures DaysFromCivil(Date(y + 1, 3, 1)) == DaysFromCivil(Date(y + 1, 2, DaysInMonth(y + 1, 2))) + 1
  {
    var era := y / 400;
    var yoe := y - era * 400;
    EraStep(y);
    EndOfFebruary(y);
    FirstOfMarch(y);
    FebruaryToMarch(era, yoe, DaysInMonth(y + 1, 2),
                    DaysFromCivil(Date(y + 1, 2, DaysInMonth(y + 1, 2))), DaysFromCivil(Date(y + 1, 3, 1)));
  }

  /** The two day counts above differ by one, whatever the length of February. */
  lemma FebruaryToMarch(era: int, yoe: int, february: int, last: int, first: int)
    requires 0 <= yoe < 400
    requires february == if IsLeapYear(era * 400 + yoe + 1) then 29 else 28
    requires last == era * 146097 + yoe * 365 + yoe / 4 - yoe / 100 + 336 + february - 719468
    requires first == if yoe < 399 then era * 146097 + (yoe + 1) * 365 + (yoe + 1) / 4 - (yoe + 1) / 100 - 719468
                      else (era + 1) * 146097 - 719468
    ensures first == last + 1
  {
    if yoe < 399 {
      YearOfEraStep(yoe, era);
    } else {
      EraRemainders(era + 1, 0);
      assert era * 400 + yoe + 1 == (era + 1) * 400 + 0;
    }
  }

  /** The day count of the last day of February of year `y + 1`, by era and year of era of `y`. */
  lemma EndOfFebruary(y: int)
    ensures var era, yoe := y / 400, y - y / 400 * 400;
      DaysFromCivil(Date(y + 1, 2, DaysInMonth(y + 1, 2)))
        == era * 146097 + yoe * 365 + yoe / 4 - yoe / 100 + 336 + DaysInMonth(y + 1, 2) - 719468
  {
  }

  /** The day count of March 1 of year `y + 1`: within the era of `y`, or the first day of the next. */
  lemma FirstOfMarch(y: int)
    ensures var era, yoe := y / 400, y - y / 400 * 400;
      DaysFromCivil(Date(y + 1, 3, 1))
        == if yoe < 399 then era * 146097 + (yoe + 1) * 365 + (yoe + 1) / 4 - (yoe + 1) / 100 - 719468
           else (era + 1) * 146097 - 719468
  {
    EraStep(y);
  }

  lemma YearOfEraStep(yoe: int, era: int)
    requires 0 <= yoe < 399
    ensures (yoe + 1) / 4 - yoe / 4 - ((yoe + 1) / 100 - yoe / 100) == (if IsLeapYear(era * 400 + yoe + 1) then 1 else 0)
  {
    QuotientStep4(yoe);
    QuotientStep100(yoe);
    LeapInEra(era, yoe + 1);
    var r := yoe + 1;
    if r % 100 == 0 {
      assert r == 4 * (25 * (r / 100));
    }
  }

  /** Inside an era, a year is a leap year when its offset is a multiple of 4 but not of 100. */
  lemma LeapInEra(era: int, r: int)
    requires 1 <= r < 400
    ensures IsLeapYear(era * 400 + r) <==> r % 4 == 0 && r % 100 != 0
  {
    EraRemainders(era, r);
  }

  /** Whole eras are multiples of 4, 100 and 400, so they leave these remainders unchanged. */
  lemma EraRemainders(era: int, r: int)
    requires 0 <= r < 400
    ensures (era * 400 + r) % 4 == r % 4
    ensures (era * 400 + r) % 100 == r % 100
    ensures (era * 400 + r) % 400 == r
  {
    ShiftByMultiple4(r, 100 * era);
    ShiftByMultiple100(r, 4 * era);
  }
}

/** Remainders and quotients by the constant divisors of the Gregorian leap-year rule. */
module DivisionFacts {

  /** Adding a multiple of 4 keeps the remainder by 4. */
  lemma ShiftByMultiple4(x: int, k: int)
    ensures (x + 4 * k) % 4 == x % 4
  {
    assert x + 4 * k == 4 * (x / 4 + k) + x % 4;
  }

  /** Adding a multiple of 100 keeps the remainder by 100. */
  lemma ShiftByMultiple100(x: int, k: int)
    ensures (x + 100 * k) % 100 == x % 100
  {
    assert x + 100 * k == 100 * (x / 100 + k) + x % 100;
  }

  /** The next year stays in the same 400-year era unless the year is the era's last. */
  lemma EraStep(y: int)
    ensures 0 <= y - y / 400 * 400 < 400
    ensures y - y / 400 * 400 < 399 ==> (y + 1) / 400 == y / 400
    ensures y - y / 400 * 400 == 399 ==> (y + 1) / 400 == y / 400 + 1 && (y + 1) % 400 == 0
  {
  }

  /** The quotient by 4 grows by one exactly at multiples of 4. */
  lemma QuotientStep4(n: int)
    requires 0 <= n
    ensures (n + 1) / 4 - n / 4 == if (n + 1) % 4 == 0 then 1 else 0
  {
  }

  /** The quotient by 100 grows by one exactly at multiples of 100. */
  lemma QuotientStep100(n: int)
    requires 0 <= n
    ensures (n + 1) / 100 - n / 100 == if (n + 1) % 100 == 0 then 1 else 0
  {
  }
}
