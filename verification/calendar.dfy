/**
 The calendar the journal reasons in. Every date the application stores is a
 date-only value; here a calendar day is a natural number counting days from
 0001-01-01 (day 0) in the proleptic Gregorian calendar. Years, months and
 days of the month are recovered by the functions below, which are proved to be
 the inverse of `ToDay`.
 */
module Calendar {

  /** A calendar day: the number of days since 0001-01-01. */
  type Day = nat

  predicate IsLeapYear(y: int) {
    y % 4 == 0 && (y % 100 != 0 || y % 400 == 0)
  }

  function YearLength(y: int): nat {
    if IsLeapYear(y) then 366 else 365
  }

  /** The day number of January 1 of year `y`. */
  function YearStart(y: int): Day
    requires y >= 1
  {
    if y == 1 then 0 else YearStart(y - 1) + YearLength(y - 1)
  }

  function Jan1(y: int): Day
    requires y >= 1
  {
    YearStart(y)
  }

  function Dec31(y: int): Day
    requires y >= 1
  {
    YearStart(y + 1) - 1
  }

  function MonthLength(y: int, m: int): nat
    requires 1 <= m <= 12
  {
    if m == 2 then (if IsLeapYear(y) then 29 else 28)
    else if m == 4 || m == 6 || m == 9 || m == 11 then 30
    else 31
  }

  /** Days of year `y` that precede the first day of month `m` (`m == 13` is the year's end). */
  function MonthStart(y: int, m: int): nat
    requires 1 <= m <= 13
  {
    if m == 1 then 0 else MonthStart(y, m - 1) + MonthLength(y, m - 1)
  }

  predicate ValidDate(y: int, m: int, dom: int) {
    y >= 1 && 1 <= m <= 12 && 1 <= dom <= MonthLength(y, m)
  }

  /** The day number of the civil date y-m-dom. */
  function ToDay(y: int, m: int, dom: int): Day
    requires ValidDate(y, m, dom)
  {
    YearStart(y) + MonthStart(y, m) + dom - 1
  }

  lemma MonthsFillYear(y: int)
    ensures MonthStart(y, 13) == YearLength(y)
  {
    assert MonthStart(y, 2) == 31;
    assert MonthStart(y, 3) == 31 + MonthLength(y, 2);
    assert MonthStart(y, 4) == MonthStart(y, 3) + 31;
    assert MonthStart(y, 5) == MonthStart(y, 3) + 61;
    assert MonthStart(y, 6) == MonthStart(y, 3) + 92;
    assert MonthStart(y, 7) == MonthStart(y, 3) + 122;
    assert MonthStart(y, 8) == MonthStart(y, 3) + 153;
    assert MonthStart(y, 9) == MonthStart(y, 3) + 184;
    assert MonthStart(y, 10) == MonthStart(y, 3) + 214;
    assert MonthStart(y, 11) == MonthStart(y, 3) + 245;
    assert MonthStart(y, 12) == MonthStart(y, 3) + 275;
  }

  lemma {:induction false} YearStartMonotone(a: int, b: int)
    requires 1 <= a <= b
    ensures YearStart(a) + 365 * (b - a) <= YearStart(b)
    decreases b - a
  {
    if a < b {
      YearStartMonotone(a, b - 1);
    }
  }

  lemma {:induction false} MonthStartMonotone(y: int, a: int, b: int)
    requires 1 <= a <= b <= 13
    ensures MonthStart(y, a) + 28 * (b - a) <= MonthStart(y, b)
    decreases b - a
  {
    if a < b {
      MonthStartMonotone(y, a, b - 1);
    }
  }

  function YearFrom(y: int, d: Day): (r: int)
    requires y >= 1 && YearStart(y) <= d
    ensures r >= y && YearStart(r) <= d < YearStart(r + 1)
    decreases d - YearStart(y)
  {
    if d < YearStart(y + 1) then y else YearFrom(y + 1, d)
  }

  /** The year containing day `d`. */
  function YearOf(d: Day): (y: int)
    ensures y >= 1 && YearStart(y) <= d < YearStart(y + 1)
  {
    YearFrom(1, d)
  }

  /** The year of a day is the only year whose span contains it. */
  lemma YearOfUnique(d: Day, y: int)
    requires y >= 1 && YearStart(y) <= d < YearStart(y + 1)
    ensures YearOf(d) == y
  {
    var r := YearOf(d);
    if r < y {
      YearStartMonotone(r + 1, y);
    } else if r > y {
      YearStartMonotone(y + 1, r);
    }
  }

  /** The zero-based position of day `d` within its year. */
  function DayOfYear(d: Day): (n: nat)
    ensures n < YearLength(YearOf(d))
  {
    d - YearStart(YearOf(d))
  }

  function MonthFrom(y: int, m: int, doy: nat): (r: int)
    requires 1 <= m <= 12 && MonthStart(y, m) <= doy < MonthStart(y, 13)
    ensures m <= r <= 12 && MonthStart(y, r) <= doy < MonthStart(y, r + 1)
    decreases 12 - m
  {
    if m == 12 || doy < MonthStart(y, m + 1) then m else MonthFrom(y, m + 1, doy)
  }

  /** The month (1..12) containing day `d`. */
  function MonthOf(d: Day): (m: int)
    ensures 1 <= m <= 12
    ensures MonthStart(YearOf(d), m) <= DayOfYear(d) < MonthStart(YearOf(d), m + 1)
  {
    MonthsFillYear(YearOf(d));
    MonthFrom(YearOf(d), 1, DayOfYear(d))
  }

  lemma MonthOfUnique(d: Day, m: int)
    requires 1 <= m <= 12
    requires MonthStart(YearOf(d), m) <= DayOfYear(d) < MonthStart(YearOf(d), m + 1)
    ensures MonthOf(d) == m
  {
    var y, r := YearOf(d), MonthOf(d);
    if r < m {
      MonthStartMonotone(y, r + 1, m);
    } else if r > m {
      MonthStartMonotone(y, m + 1, r);
    }
  }

  /** The day of the month (1..31) of day `d`. */
  function DayOfMonth(d: Day): (dom: int)
    ensures 1 <= dom <= MonthLength(YearOf(d), MonthOf(d))
  {
    DayOfYear(d) - MonthStart(YearOf(d), MonthOf(d)) + 1
  }

  /** Reading a day as a civil date and converting it back gives the same day. */
  lemma CivilRoundTrip(d: Day)
    ensures ValidDate(YearOf(d), MonthOf(d), DayOfMonth(d))
    ensures ToDay(YearOf(d), MonthOf(d), DayOfMonth(d)) == d
  {
  }

  /** Converting a valid civil date to a day and reading it back gives the same date. */
  lemma {:induction false} DayRoundTrip(y: int, m: int, dom: int)
    requires ValidDate(y, m, dom)
    ensures YearOf(ToDay(y, m, dom)) == y
    ensures MonthOf(ToDay(y, m, dom)) == m
    ensures DayOfMonth(ToDay(y, m, dom)) == dom
  {
    var d := ToDay(y, m, dom);
    MonthStartMonotone(y, m + 1, 13);
    MonthsFillYear(y);
    YearOfUnique(d, y);
    MonthOfUnique(d, m);
  }

  /** Later days never fall in an earlier (year, month). */
  lemma YearMonthMonotone(d1: Day, d2: Day)
    requires d1 <= d2
    ensures YearOf(d1) < YearOf(d2) || (YearOf(d1) == YearOf(d2) && MonthOf(d1) <= MonthOf(d2))
  {
    var y1, y2 := YearOf(d1), YearOf(d2);
    if y1 > y2 {
      YearStartMonotone(y2 + 1, y1);
    } else if y1 == y2 && MonthOf(d1) > MonthOf(d2) {
      MonthStartMonotone(y1, MonthOf(d2) + 1, MonthOf(d1));
    }
  }

  lemma YearMonotone(d1: Day, d2: Day)
    requires d1 <= d2
    ensures YearOf(d1) <= YearOf(d2)
  {
    YearMonthMonotone(d1, d2);
  }

  /** A day lies in year `y` exactly when it is between that year's January 1 and December 31. */
  lemma InYearIff(d: Day, y: int)
    requires y >= 1
    ensures YearOf(d) == y <==> Jan1(y) <= d <= Dec31(y)
  {
    if Jan1(y) <= d <= Dec31(y) {
      YearOfUnique(d, y);
    }
  }

  /** The day of the week as JavaScript's `getDay` numbers it: 0 is Sunday, 6 is Saturday. */
  function Weekday(d: Day): (w: int)
    ensures 0 <= w <= 6
  {
    // 0001-01-01 was a Monday.
    (d + 1) % 7
  }

  /** The ISO weekday: Monday is 1 and Sunday is 7 instead of 0. */
  function IsoWeekday(d: Day): (w: int)
    ensures 1 <= w <= 7
    ensures w % 7 == Weekday(d)
  {
    if Weekday(d) == 0 then 7 else Weekday(d)
  }

  /** January 1 of year `y` lies 365 days per year after the epoch plus one
      day per Gregorian leap year before `y`. */
  lemma {:induction false} YearStartClosedForm(y: int)
    requires y >= 1
    ensures YearStart(y) == 365 * (y - 1) + (y - 1) / 4 - (y - 1) / 100 + (y - 1) / 400
    decreases y
  {
    if y > 1 {
      YearStartClosedForm(y - 1);
      LeapStep(y - 1);
    }
  }

  /** Moving from `n - 1` to `n` adds one to the leap-year count exactly when `n` is a leap year. */
  lemma LeapStep(n: int)
    requires n >= 1
    ensures n / 4 - n / 100 + n / 400 == (n - 1) / 4 - (n - 1) / 100 + (n - 1) / 400 + (if IsLeapYear(n) then 1 else 0)
  {
    DivStep4(n);
    DivStep100(n);
    DivStep400(n);
  }

  lemma DivStep4(n: int)
    requires n >= 1
    ensures n / 4 == (n - 1) / 4 + (if n % 4 == 0 then 1 else 0)
  {
  }

  lemma DivStep100(n: int)
    requires n >= 1
    ensures n / 100 == (n - 1) / 100 + (if n % 100 == 0 then 1 else 0)
  {
  }

  lemma DivStep400(n: int)
    requires n >= 1
    ensures n / 400 == (n - 1) / 400 + (if n % 400 == 0 then 1 else 0)
  {
  }

  lemma ModSevenShift(m: int, x: int)
    ensures (7 * m + x) % 7 == x % 7
  {
    var q, r := x / 7, x % 7;
    assert 7 * m + x == 7 * (m + q) + r;
  }

  /** The weekday of January 1 of year `y`: one step per year, and one more per leap year. */
  lemma Jan1Weekday(y: int)
    requires y >= 1
    ensures Weekday(Jan1(y)) == (y + (y - 1) / 4 - (y - 1) / 100 + (y - 1) / 400) % 7
  {
    YearStartClosedForm(y);
    var leaps := (y - 1) / 4 - (y - 1) / 100 + (y - 1) / 400;
    assert Jan1(y) + 1 == 7 * (52 * (y - 1)) + (y + leaps);
    ModSevenShift(52 * (y - 1), y + leaps);
  }

  /** Day 0 is the Monday 0001-01-01, so `Weekday` agrees with the calendar:
      1970-01-01 was a Thursday and 2024-01-01 a Monday. */
  lemma WeekdayAnchors(y: int)
    requires y == 1970 || y == 2024
    ensures Weekday(ToDay(y, 1, 1)) == if y == 1970 then 4 else 1
  {
    Jan1Weekday(y);
    assert ToDay(y, 1, 1) == Jan1(y);
    if y == 1970 {
      assert (y - 1) / 4 == 492 && (y - 1) / 100 == 19 && (y - 1) / 400 == 4;
      assert 2447 % 7 == 4;
    } else {
      assert (y - 1) / 4 == 505 && (y - 1) / 100 == 20 && (y - 1) / 400 == 5;
      assert 2514 % 7 == 1;
    }
  }

  /** The first day of the month containing `d`. */
  function FirstOfMonth(d: Day): (f: Day)
    ensures f <= d < f + 31
    ensures YearOf(f) == YearOf(d) && MonthOf(f) == MonthOf(d) && DayOfMonth(f) == 1
  {
    var f := d - DayOfMonth(d) + 1;
    DayRoundTrip(YearOf(d), MonthOf(d), 1);
    f
  }
}
