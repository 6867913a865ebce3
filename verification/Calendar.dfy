/** The proleptic Gregorian calendar by year and day of year, as chrono computes it, and the split of
    an instant into the fields of an RFC 3339 timestamp. */
module Calendar {
  const DAY: int := 86_400
  const NANO: int := 1_000_000_000
  const CYCLE: int := 146_097

  predicate Leap(y: int) {
    y % 4 == 0 && (y % 100 != 0 || y % 400 == 0)
  }

  function YearLength(y: int): int {
    if Leap(y) then 366 else 365
  }

  /** The leap days between the start of year 0 and the start of year `y`. */
  function LeapDays(y: int): int {
    (y + 3) / 4 - (y + 99) / 100 + (y + 399) / 400
  }

  /** The days between the start of year 0 and the start of year `y`. */
  function DaysBefore(y: int): int {
    365 * y + LeapDays(y)
  }

  datatype YearDay = YearDay(year: int, ordinal: int)

  predicate ValidYearDay(d: YearDay) {
    1 <= d.ordinal <= YearLength(d.year)
  }

  function DayNumber(d: YearDay): int {
    DaysBefore(d.year) + d.ordinal - 1
  }

  /** chrono's inverse: a 400-year cycle, an estimate by 365-day years, one correction. */
  function FromDayNumber(n: int): YearDay {
    var cycle := n % CYCLE;
    var y, ordinal0 := cycle / 365, cycle % 365;
    var base := 400 * (n / CYCLE);
    if ordinal0 < LeapDays(y) then YearDay(base + y - 1, ordinal0 + 365 - LeapDays(y - 1) + 1)
    else YearDay(base + y, ordinal0 - LeapDays(y) + 1)
  }

  lemma CeilStep4(y: int)
    ensures (y + 4) / 4 == (y + 3) / 4 + if y % 4 == 0 then 1 else 0
  {
  }

  lemma CeilStep100(y: int)
    ensures (y + 100) / 100 == (y + 99) / 100 + if y % 100 == 0 then 1 else 0
  {
  }

  lemma CeilStep400(y: int)
    ensures (y + 400) / 400 == (y + 399) / 400 + if y % 400 == 0 then 1 else 0
  {
  }

  lemma Divisible(y: int)
    ensures y % 400 == 0 ==> y % 100 == 0
    ensures y % 100 == 0 ==> y % 4 == 0
  {
  }

  lemma LeapDaysStep(y: int)
    ensures LeapDays(y + 1) == LeapDays(y) + if Leap(y) then 1 else 0
    ensures DaysBefore(y + 1) == DaysBefore(y) + YearLength(y)
  {
    assert LeapDays(y + 1) == (y + 4) / 4 - (y + 100) / 100 + (y + 400) / 400;
    assert LeapDays(y) == (y + 3) / 4 - (y + 99) / 100 + (y + 399) / 400;
    CeilStep4(y);
    CeilStep100(y);
    CeilStep400(y);
    Divisible(y);
    hide LeapDays;
  }

  lemma Shift4(y: int, k: int)
    ensures (y + 400 * k) / 4 == y / 4 + 100 * k && (y + 400 * k) % 4 == y % 4
  {
  }

  lemma Shift100(y: int, k: int)
    ensures (y + 400 * k) / 100 == y / 100 + 4 * k && (y + 400 * k) % 100 == y % 100
  {
  }

  lemma Shift400(y: int, k: int)
    ensures (y + 400 * k) / 400 == y / 400 + k && (y + 400 * k) % 400 == y % 400
  {
  }

  lemma CycleShift(y: int, k: int)
    ensures DaysBefore(y + 400 * k) == DaysBefore(y) + CYCLE * k
    ensures Leap(y + 400 * k) == Leap(y)
  {
    var z := y + 400 * k;
    assert LeapDays(z) == (z + 3) / 4 - (z + 99) / 100 + (z + 399) / 400;
    assert LeapDays(y) == (y + 3) / 4 - (y + 99) / 100 + (y + 399) / 400;
    assert (z + 3) / 4 == (y + 3) / 4 + 100 * k by { Shift4(y + 3, k); }
    assert (z + 99) / 100 == (y + 99) / 100 + 4 * k by { Shift100(y + 99, k); }
    assert (z + 399) / 400 == (y + 399) / 400 + k by { Shift400(y + 399, k); }
    Shift4(y, k);
    Shift100(y, k);
    Shift400(y, k);
  }

  /** Every day number has exactly one year and day of year. */
  lemma DayNumberOfFrom(n: int)
    ensures ValidYearDay(FromDayNumber(n)) && DayNumber(FromDayNumber(n)) == n
  {
    var cycle := n % CYCLE;
    var y, ordinal0 := cycle / 365, cycle % 365;
    assert 0 <= y <= 400 && cycle == 365 * y + ordinal0;
    LeapDaysBound(y);
    assert n == CYCLE * (n / CYCLE) + cycle;
    hide LeapDays, Leap;
    if ordinal0 < LeapDays(y) {
      LeapDaysBound(y - 1);
      LeapDaysStep(y - 1);
      CycleShift(y - 1, n / CYCLE);
    } else {
      CycleShift(y, n / CYCLE);
    }
  }

  lemma LeapDaysBound(y: int)
    requires 0 <= y <= 400
    ensures 0 <= LeapDays(y) <= 97 && (y == 0 ==> LeapDays(y) == 0)
  {
  }

  lemma {:induction false} DaysBeforeMonotone(a: int, b: int)
    requires a < b
    ensures DaysBefore(a) + YearLength(a) <= DaysBefore(b)
    decreases b - a
  {
    hide DaysBefore;
    LeapDaysStep(a);
    if a + 1 < b {
      DaysBeforeMonotone(a + 1, b);
    }
  }

  /** Calendar order is day order. */
  lemma DayOrder(a: YearDay, b: YearDay)
    requires ValidYearDay(a) && ValidYearDay(b)
    ensures DayNumber(a) < DayNumber(b) <==> a.year < b.year || (a.year == b.year && a.ordinal < b.ordinal)
    ensures DayNumber(a) == DayNumber(b) <==> a == b
  {
    hide DaysBefore;
    if a.year < b.year {
      DaysBeforeMonotone(a.year, b.year);
    } else if b.year < a.year {
      DaysBeforeMonotone(b.year, a.year);
    }
  }

  /** The inverse recovers any valid date. */
  lemma FromOfDayNumber(d: YearDay)
    requires ValidYearDay(d)
    ensures FromDayNumber(DayNumber(d)) == d
  {
    DayNumberOfFrom(DayNumber(d));
    DayOrder(FromDayNumber(DayNumber(d)), d);
  }

  // ----- Months -----

  /** The days of the year before month `m`. */
  function MonthStart(m: int, leap: bool): int
    requires 1 <= m <= 13
  {
    [0, 31, 59, 90, 120, 151, 181, 212, 243, 273, 304, 334, 365][m - 1] + if m > 2 && leap then 1 else 0
  }

  /** The month holding a day of the year. */
  function Month(ordinal: int, leap: bool): (m: int)
    requires 1 <= ordinal <= if leap then 366 else 365
    ensures 1 <= m <= 12 && MonthStart(m, leap) < ordinal <= MonthStart(m + 1, leap)
  {
    if ordinal <= MonthStart(2, leap) then 1
    else if ordinal <= MonthStart(3, leap) then 2
    else if ordinal <= MonthStart(4, leap) then 3
    else if ordinal <= MonthStart(5, leap) then 4
    else if ordinal <= MonthStart(6, leap) then 5
    else if ordinal <= MonthStart(7, leap) then 6
    else if ordinal <= MonthStart(8, leap) then 7
    else if ordinal <= MonthStart(9, leap) then 8
    else if ordinal <= MonthStart(10, leap) then 9
    else if ordinal <= MonthStart(11, leap) then 10
    else if ordinal <= MonthStart(12, leap) then 11
    else 12
  }

  function DayOfMonth(ordinal: int, leap: bool): (d: int)
    requires 1 <= ordinal <= if leap then 366 else 365
    ensures 1 <= d <= 31
  {
    ordinal - MonthStart(Month(ordinal, leap), leap)
  }

  lemma MonthStartMonotone(a: int, b: int, leap: bool)
    requires 1 <= a <= b <= 13
    ensures MonthStart(a, leap) <= MonthStart(b, leap)
    decreases b - a
  {
    if a < b {
      MonthStartMonotone(a + 1, b, leap);
    }
  }

  lemma MonthOrder(a: int, b: int, leap: bool)
    requires 1 <= a < b <= if leap then 366 else 365
    ensures Month(a, leap) < Month(b, leap)
            || (Month(a, leap) == Month(b, leap) && DayOfMonth(a, leap) < DayOfMonth(b, leap))
  {
    hide MonthStart;
    var m, n := Month(a, leap), Month(b, leap);
    if n < m {
      MonthStartMonotone(n + 1, m, leap);
    }
  }
}
