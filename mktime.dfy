/** kernel_mktime (kernel/mktime.c): the seconds since 1970-01-01
    00:00:00 of the boot time read from the CMOS clock. The kernel counts
    every fourth year as a leap year, which is right from 1901 to 2099. */
module MkTime {
  import opened Proc

  const MINUTE: int := 60
  const HOUR: int := 60 * MINUTE
  const DAY: int := 24 * HOUR
  const YEAR: int := 365 * DAY

  /** struct tm, the fields kernel_mktime reads. */
  datatype Tm = Tm(sec: int, min: int, hour: int, mday: int, mon: int, year: int)

  /** month[]: the seconds before each month of a leap year. */
  const MONTH: seq<int> := [0, DAY * 31, DAY * (31 + 29), DAY * (31 + 29 + 31), DAY * (31 + 29 + 31 + 30),
    DAY * (31 + 29 + 31 + 30 + 31), DAY * (31 + 29 + 31 + 30 + 31 + 30),
    DAY * (31 + 29 + 31 + 30 + 31 + 30 + 31), DAY * (31 + 29 + 31 + 30 + 31 + 30 + 31 + 31),
    DAY * (31 + 29 + 31 + 30 + 31 + 30 + 31 + 31 + 30), DAY * (31 + 29 + 31 + 30 + 31 + 30 + 31 + 31 + 30 + 31),
    DAY * (31 + 29 + 31 + 30 + 31 + 30 + 31 + 31 + 30 + 31 + 30)]

  /** The days of month m (0-based) in a leap year or not. */
  function MonthDays(m: int, leap: bool): (r: int)
    requires 0 <= m < 12
  {
    if m == 1 then (if leap then 29 else 28)
    else if m == 3 || m == 5 || m == 8 || m == 10 then 30
    else 31
  }

  /** The days before month m of a year. */
  function DaysBeforeMonth(m: int, leap: bool): (r: int)
    requires 0 <= m <= 12
  {
    if m == 0 then 0 else DaysBeforeMonth(m - 1, leap) + MonthDays(m - 1, leap)
  }

  /** month[] starts at 0, grows strictly and holds the length of a leap
      year's months summed. */
  lemma MonthTable()
    ensures MONTH[0] == 0
    ensures forall m :: 0 < m < 12 ==> MONTH[m - 1] < MONTH[m]
    ensures forall m :: 0 <= m < 12 ==> MONTH[m] == DAY * DaysBeforeMonth(m, true)
  {
    assert DaysBeforeMonth(1, true) == 31;
    assert DaysBeforeMonth(2, true) == 31 + 29;
    assert DaysBeforeMonth(3, true) == 31 + 29 + 31;
    assert DaysBeforeMonth(4, true) == 31 + 29 + 31 + 30;
    assert DaysBeforeMonth(5, true) == 31 + 29 + 31 + 30 + 31;
    assert DaysBeforeMonth(6, true) == 31 + 29 + 31 + 30 + 31 + 30;
    assert DaysBeforeMonth(7, true) == 31 + 29 + 31 + 30 + 31 + 30 + 31;
    assert DaysBeforeMonth(8, true) == 31 + 29 + 31 + 30 + 31 + 30 + 31 + 31;
    assert DaysBeforeMonth(9, true) == 31 + 29 + 31 + 30 + 31 + 30 + 31 + 31 + 30;
    assert DaysBeforeMonth(10, true) == 31 + 29 + 31 + 30 + 31 + 30 + 31 + 31 + 30 + 31;
    assert DaysBeforeMonth(11, true) == 31 + 29 + 31 + 30 + 31 + 30 + 31 + 31 + 30 + 31 + 30;
  }

  /** The sum kernel_mktime forms, before it is stored in a 32-bit long;
      year counts from 1970. C's % is zero exactly when Dafny's is, and the
      quotient (year+1)/4 truncates towards zero. */
  function Seconds(tm: Tm): (r: int)
    requires 0 <= tm.mon < 12
  {
    var year := tm.year - 70;
    var res := YEAR * year + DAY * CDiv(year + 1, 4) + MONTH[tm.mon];
    var res' := if tm.mon > 1 && (year + 2) % 4 != 0 then res - DAY else res;
    res' + DAY * (tm.mday - 1) + HOUR * tm.hour + MINUTE * tm.min + tm.sec
  }

  /** kernel_mktime(tm): the sum as a 32-bit long. */
  function KernelMktime(tm: Tm): (r: int)
    requires 0 <= tm.mon < 12
    ensures -0x8000_0000 <= Seconds(tm) < 0x8000_0000 ==> r == Seconds(tm)
  {
    Signed(ToWord(Seconds(tm)))
  }

  /** A year (counted from 1900) is a leap year for the kernel when it is
      a multiple of 4. */
  predicate Leap(y: int)
  {
    y % 4 == 0
  }

  /** The days from 1970-01-01 to 1 January of year 70 + n. */
  function DaysBeforeYear(n: nat): (r: int)
  {
    if n == 0 then 0 else DaysBeforeYear(n - 1) + (if Leap(70 + n - 1) then 366 else 365)
  }

  /** YEAR*year + DAY*((year+1)/4) counts the days of the years since 1970
      with one more for each of them that was a leap year. */
  lemma {:induction false} YearsMeans(n: nat)
    ensures 365 * n + (n + 1) / 4 == DaysBeforeYear(n)
  {
    if n > 0 {
      YearsMeans(n - 1);
      assert (n + 1) / 4 == n / 4 + (if (n + 1) % 4 == 0 then 1 else 0);
      assert Leap(70 + n - 1) <==> (n + 1) % 4 == 0;
    }
  }

  /** The second correction: after February a day is taken off the leap
      year table unless the year is a leap year. */
  lemma MonthsMeans(m: int, year: int)
    requires 0 <= m < 12
    ensures var leap := Leap(year + 70);
      MONTH[m] - (if m > 1 && (year + 2) % 4 != 0 then DAY else 0) == DAY * DaysBeforeMonth(m, leap)
  {
    MonthTable();
    if m > 1 {
      assert DaysBeforeMonth(m, false) == DaysBeforeMonth(m, true) - 1 by {
        MonthsDiffer(m);
      }
    }
    assert Leap(year + 70) <==> (year + 2) % 4 == 0;
  }

  /** From March on a common year has one day fewer before the month. */
  lemma {:induction false} MonthsDiffer(m: int)
    requires 2 <= m <= 12
    ensures DaysBeforeMonth(m, false) == DaysBeforeMonth(m, true) - 1
  {
    if m > 2 {
      MonthsDiffer(m - 1);
    }
  }

  /** For a date from 1970 on, kernel_mktime's sum is the day count of a
      calendar whose leap years are the multiples of 4, in seconds, plus
      the time of day; 1970-01-01 00:00:00 is 0. */
  lemma SecondsMeans(tm: Tm)
    requires 0 <= tm.mon < 12 && tm.year >= 70
    ensures Seconds(tm) == DAY * (DaysBeforeYear(tm.year - 70) + DaysBeforeMonth(tm.mon, Leap(tm.year)) + tm.mday - 1) +
                           HOUR * tm.hour + MINUTE * tm.min + tm.sec
    ensures Seconds(Tm(0, 0, 0, 1, 0, 70)) == 0
  {
    var n := tm.year - 70;
    YearsMeans(n);
    MonthsMeans(tm.mon, n);
    assert YEAR * n + DAY * ((n + 1) / 4) == DAY * DaysBeforeYear(n);
  }

  /** One more second, minute, hour or day of the month moves the result by
      1, 60, 3600 or 86400 seconds. */
  lemma FieldSteps(tm: Tm)
    requires 0 <= tm.mon < 12
    ensures Seconds(tm.(sec := tm.sec + 1)) == Seconds(tm) + 1
    ensures Seconds(tm.(min := tm.min + 1)) == Seconds(tm) + MINUTE
    ensures Seconds(tm.(hour := tm.hour + 1)) == Seconds(tm) + HOUR
    ensures Seconds(tm.(mday := tm.mday + 1)) == Seconds(tm) + DAY
  {
  }
}
