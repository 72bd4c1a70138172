/** Calendar days and the part of JavaScript's `Date` arithmetic the
    date-range helpers rely on: the two-digit-year rule of the
    `Date(year, month, day)` constructor, and the carrying of an
    out-of-range month into the year and of an out-of-range day into the
    neighbouring months. */
module Dates {

  /** A calendar day: full year, month numbered 0..11 as JavaScript numbers
      months, day of the month from 1. Time of day is not modelled. */
  datatype Date = Date(year: int, month: int, day: int)

  /** The Gregorian leap-year rule. */
  predicate IsLeapYear(year: int) {
    year % 4 == 0 && (year % 100 != 0 || year % 400 == 0)
  }

  function DaysInMonth(year: int, month: int): (n: int)
    requires 0 <= month < 12
    ensures 28 <= n <= 31
    ensures n == 29 <==> month == 1 && IsLeapYear(year)
  {
    if month == 1 then (if IsLeapYear(year) then 29 else 28)
    else if month == 3 || month == 5 || month == 8 || month == 10 then 30
    else 31
  }

  /** A day that exists on the calendar. */
  predicate Valid(d: Date) {
    0 <= d.month < 12 && 1 <= d.day <= DaysInMonth(d.year, d.month)
  }

  /** Chronological order of days: `a` is not later than `b`. */
  predicate NotAfter(a: Date, b: Date) {
    || a.year < b.year
    || (a.year == b.year && a.month < b.month)
    || (a.year == b.year && a.month == b.month && a.day <= b.day)
  }

  /** The number of months from January of year 0 to the month of `d`. */
  function MonthIndex(d: Date): int {
    d.year * 12 + d.month
  }

  /** A day of a strictly earlier month is earlier. */
  lemma EarlierMonth(a: Date, b: Date)
    requires 0 <= a.month < 12 && 0 <= b.month < 12
    requires MonthIndex(a) < MonthIndex(b)
    ensures NotAfter(a, b) && !NotAfter(b, a)
  {
  }

  /** Moving from day 1 of a month over the whole month lands on the
      month after; from the first month of a year, the year before. */
  function PrevMonth(year: int, month: int): (d: Date)
    requires 0 <= month < 12
    ensures 0 <= d.month < 12 && MonthIndex(d) == year * 12 + month - 1
  {
    if month == 0 then Date(year - 1, 11, 1) else Date(year, month - 1, 1)
  }

  function NextMonth(year: int, month: int): (d: Date)
    requires 0 <= month < 12
    ensures 0 <= d.month < 12 && MonthIndex(d) == year * 12 + month + 1
  {
    if month == 11 then Date(year + 1, 0, 1) else Date(year, month + 1, 1)
  }

  /** A day number that may lie outside its month carried into the
      neighbouring months: day 0 is the last day of the month before, day
      `n + 1` of an `n`-day month is day 1 of the month after. */
  function CarryDays(year: int, month: int, day: int): (d: Date)
    requires 0 <= month < 12
    ensures Valid(d)
    decreases if day < 1 then 1 - day else 0, if day < 1 then 0 else day
  {
    if day < 1 then
      var p := PrevMonth(year, month);
      CarryDays(p.year, p.month, day + DaysInMonth(p.year, p.month))
    else if day > DaysInMonth(year, month) then
      var n := NextMonth(year, month);
      CarryDays(n.year, n.month, day - DaysInMonth(year, month))
    else Date(year, month, day)
  }

  /** A month number outside 0..11 carried into the year, then the day
      carried into the months. */
  function Carry(year: int, month: int, day: int): (d: Date)
    ensures Valid(d)
  {
    CarryDays(year + month / 12, month % 12, day)
  }

  /** The year the `Date(year, month, day)` constructor uses: years 0 to
      99 stand for 1900 to 1999. */
  function FullYear(year: int): (y: int)
    ensures 0 <= year <= 99 ==> y == 1900 + year
    ensures (year < 0 || year > 99) ==> y == year
  {
    if 0 <= year <= 99 then 1900 + year else year
  }

  /** `new Date(year, month, day)` at day granularity. */
  function MakeDate(year: int, month: int, day: int): (d: Date)
    ensures Valid(d)
  {
    Carry(FullYear(year), month, day)
  }

  /** `d.setMonth(d.getMonth() - n)`: the same day number `n` months
      earlier, carried forward when that month is too short. The target
      month is `n` months before the month of `d`; the day is kept when
      the target month has it, and otherwise spills into the month after
      by as many days as the target month is short. */
  function ShiftMonths(d: Date, n: int): (r: Date)
    ensures Valid(r)
    ensures var t := d.month - n; var y, m := d.year + t / 12, t % 12;
      && 0 <= m < 12 && y * 12 + m == MonthIndex(d) - n
      && (1 <= d.day <= DaysInMonth(y, m) ==> r == Date(y, m, d.day))
      && (DaysInMonth(y, m) < d.day <= 31 ==>
            MonthIndex(r) == MonthIndex(d) - n + 1 && r.day == d.day - DaysInMonth(y, m))
  {
    CarryTarget(d.year, d.month - n, d.day);
    Carry(d.year, d.month - n, d.day)
  }

  /** Carrying a month number `t` and a day number: the target month is
      `t` months after January of `year`; the day is kept when that month
      has it, and otherwise spills into the month after. */
  lemma CarryTarget(year: int, t: int, day: int)
    ensures var y, m := year + t / 12, t % 12;
      && 0 <= m < 12 && y * 12 + m == year * 12 + t
      && (1 <= day <= DaysInMonth(y, m) ==> Carry(year, t, day) == Date(y, m, day))
      && (DaysInMonth(y, m) < day <= 31 ==>
            MonthIndex(Carry(year, t, day)) == year * 12 + t + 1
            && Carry(year, t, day).day == day - DaysInMonth(y, m))
  {
    CarryMonthIndex(year, t);
    if 1 <= day <= 31 {
      CarryOnce(year + t / 12, t % 12, day);
    }
  }

  /** `getMonthsBetween`: calendar months from the month of `start` to the
      month of `end`, ignoring the days. */
  function MonthsBetween(start: Date, end: Date): (r: int)
    ensures MonthIndex(start) + r == MonthIndex(end)
  {
    (end.year - start.year) * 12 + (end.month - start.month)
  }

  /** A day that exists is left alone by carrying. */
  lemma CarryValid(d: Date)
    requires Valid(d)
    ensures Carry(d.year, d.month, d.day) == d
  {
    assert d.month / 12 == 0 && d.month % 12 == d.month;
  }

  /** Carrying a month number moves whole years: the month index is kept. */
  lemma CarryMonthIndex(year: int, month: int)
    ensures 0 <= month % 12 < 12
    ensures (year + month / 12) * 12 + month % 12 == year * 12 + month
  {
  }

  /** Day 0 of the month after is the last day of the month. */
  lemma DayZero(year: int, month: int)
    requires 0 <= month < 12
    ensures var n := NextMonth(year, month);
      CarryDays(n.year, n.month, 0) == Date(year, month, DaysInMonth(year, month))
  {
    var n := NextMonth(year, month);
    var p := PrevMonth(n.year, n.month);
    assert p.year == year && p.month == month;
  }

  /** The month after a carried month number is the carried month number
      after it. */
  lemma CarryNext(year: int, month: int)
    ensures NextMonth(year + month / 12, month % 12)
      == Date(year + (month + 1) / 12, (month + 1) % 12, 1)
  {
    var q, r := month / 12, month % 12;
    assert month == 12 * q + r;
    if r == 11 {
      assert month + 1 == 12 * (q + 1) + 0;
      assert (month + 1) / 12 == q + 1 && (month + 1) % 12 == 0;
    } else {
      assert month + 1 == 12 * q + (r + 1);
      assert (month + 1) / 12 == q && (month + 1) % 12 == r + 1;
    }
  }

  /** `new Date(y, m + 1, 0)` is the last day of the month that
      `new Date(y, m, 1)` starts. */
  lemma LastDayOfMonth(year: int, month: int)
    ensures var s := MakeDate(year, month, 1);
      MakeDate(year, month + 1, 0) == Date(s.year, s.month, DaysInMonth(s.year, s.month))
  {
    var y := FullYear(year);
    CarryNext(y, month);
    DayZero(y + month / 12, month % 12);
  }

  /** A day number from 1 to 31 is carried at most one month forward,
      keeping at most 3 of its days. */
  lemma CarryOnce(year: int, month: int, day: int)
    requires 0 <= month < 12 && 1 <= day <= 31
    ensures var d := CarryDays(year, month, day);
      || d == Date(year, month, day)
      || (MonthIndex(d) == year * 12 + month + 1 && d.day == day - DaysInMonth(year, month) && d.day <= 3)
  {
    if day > DaysInMonth(year, month) {
      var n := NextMonth(year, month);
      assert day - DaysInMonth(year, month) <= DaysInMonth(n.year, n.month);
    }
  }

  /** Going back one or more months from a real day never lands after it. */
  lemma ShiftBackEarlier(d: Date, n: int)
    requires Valid(d) && n >= 1
    ensures NotAfter(ShiftMonths(d, n), d) && ShiftMonths(d, n) != d
  {
    var t := d.month - n;
    CarryMonthIndex(d.year, t);
    CarryOnce(d.year + t / 12, t % 12, d.day);
    var r := ShiftMonths(d, n);
    if MonthIndex(r) < MonthIndex(d) {
      EarlierMonth(r, d);
    } else {
      assert MonthIndex(r) == MonthIndex(d) && r.day < d.day;
    }
  }

  /** Going back `n` months spans `n` calendar months, or `n - 1` when
      the day had to be carried out of a short month. */
  lemma ShiftMonthsDistance(d: Date, n: int)
    requires Valid(d)
    ensures var m := MonthsBetween(ShiftMonths(d, n), d);
      m == n || (m == n - 1 && d.day > 28)
  {
    var t := d.month - n;
    CarryMonthIndex(d.year, t);
    CarryOnce(d.year + t / 12, t % 12, d.day);
  }

  /** Months between add up along a chain of dates. */
  lemma MonthsBetweenAdds(a: Date, b: Date, c: Date)
    ensures MonthsBetween(a, b) + MonthsBetween(b, c) == MonthsBetween(a, c)
    ensures MonthsBetween(a, a) == 0
  {
  }

  /** Two days of the same month are 0 months apart; a later day is never
      a negative number of months away. */
  lemma MonthsBetweenOrder(a: Date, b: Date)
    requires 0 <= a.month < 12 && 0 <= b.month < 12
    ensures a.year == b.year && a.month == b.month ==> MonthsBetween(a, b) == 0
    ensures NotAfter(a, b) ==> MonthsBetween(a, b) >= 0
    ensures MonthsBetween(a, b) > 0 ==> NotAfter(a, b)
  {
    if a.year < b.year {
      assert a.year * 12 + 12 <= b.year * 12;
    } else if a.year > b.year {
      assert b.year * 12 + 12 <= a.year * 12;
    }
  }
}
