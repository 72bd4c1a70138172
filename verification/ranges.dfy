/** The date-range helpers: ranges from a preset or from a year and
    optional month, inclusive filtering of transactions by date, and the
    years a list of transactions covers. Parsing a transaction's date text
    (`new Date(text)`) is a parameter `parse`, `None` standing for an
    invalid date; the current day is a parameter `now`. */
module Ranges {
  import opened Wrappers
  import opened Dates
  import Seqs

  /** An inclusive range of days. */
  datatype DateRange = DateRange(start: Date, end: Date)

  /** The number of months a `last-…` preset reaches back; every other
      preset, `custom` included, falls back to twelve. */
  function PresetMonths(preset: string): (n: int)
    ensures preset == "last-month" ==> n == 1
    ensures preset == "last-3-months" ==> n == 3
    ensures preset == "last-6-months" ==> n == 6
    ensures preset !in {"last-month", "last-3-months", "last-6-months"} ==> n == 12
  {
    if preset == "last-month" then 1
    else if preset == "last-3-months" then 3
    else if preset == "last-6-months" then 6
    else 12
  }

  /** `getDateRangeFromPreset`: `all-time` is the fixed range from
      1 January 2000 to 31 December 2099; every other preset ends today and
      starts the same day of the month the preset's number of months
      earlier. */
  function PresetRange(preset: string, now: Date): (r: DateRange)
    ensures preset == "all-time" ==> r == DateRange(Date(2000, 0, 1), Date(2099, 11, 31))
    ensures preset != "all-time" ==> r.end == now
    ensures preset != "all-time" ==> r.start == ShiftMonths(now, PresetMonths(preset))
    ensures Valid(r.start)
  {
    if preset == "all-time" then
      DateRange(MakeDate(2000, 0, 1), MakeDate(2099, 11, 31))
    else
      DateRange(ShiftMonths(now, PresetMonths(preset)), now)
  }

  /** A preset range on a real day starts strictly before it ends, and a
      `last-…` range spans its number of months (one fewer when the day
      of the month does not exist in the starting month). */
  lemma PresetOrdered(preset: string, now: Date)
    requires Valid(now)
    ensures var r := PresetRange(preset, now);
      NotAfter(r.start, r.end) && r.start != r.end
    ensures preset != "all-time" ==>
      var k := MonthsBetween(PresetRange(preset, now).start, now);
      k == PresetMonths(preset) || (k == PresetMonths(preset) - 1 && now.day > 28)
  {
    if preset != "all-time" {
      ShiftBackEarlier(now, PresetMonths(preset));
      ShiftMonthsDistance(now, PresetMonths(preset));
    }
  }

  /** `custom` and presets the helper does not know behave like
      `last-12-months`. */
  lemma PresetFallback(preset: string, now: Date)
    requires preset !in {"last-month", "last-3-months", "last-6-months", "all-time"}
    ensures PresetRange(preset, now) == PresetRange("last-12-months", now)
  {
  }

  /** `getCustomDateRange`: a whole year from 1 January to 31 December,
      or one month from its first to its last day. A month number outside
      0..11 is carried into the year; years 0 to 99 stand for 1900 to
      1999. */
  function CustomRange(year: int, month: Option<int>): (r: DateRange)
    ensures Valid(r.start) && Valid(r.end) && NotAfter(r.start, r.end)
    ensures month.None? ==> r == DateRange(Date(FullYear(year), 0, 1), Date(FullYear(year), 11, 31))
    ensures month.Some? ==>
      && r.start.day == 1
      && r.end.year == r.start.year && r.end.month == r.start.month
      && r.end.day == DaysInMonth(r.start.year, r.start.month)
    ensures month.Some? ==> MonthIndex(r.start) == FullYear(year) * 12 + month.value
    ensures month.Some? && 0 <= month.value < 12 ==>
      r.start == Date(FullYear(year), month.value, 1)
  {
    match month
    case Some(m) =>
      LastDayOfMonth(year, m);
      CarryTarget(FullYear(year), m, 1);
      DateRange(MakeDate(year, m, 1), MakeDate(year, m + 1, 0))
    case None =>
      assert 0 / 12 == 0 && 11 / 12 == 0;
      DateRange(MakeDate(year, 0, 1), MakeDate(year, 11, 31))
  }

  /** A parsed date inside the range, both ends included; an invalid date
      compares false with everything and so is never inside. */
  predicate InRange(p: Option<Date>, range: DateRange) {
    p.Some? && NotAfter(range.start, p.value) && NotAfter(p.value, range.end)
  }

  /** `filterTransactionsByDate`: with no range, the list itself; with a
      range, the transactions whose parsed date lies inside it, in their
      original order. */
  function FilterByDate<T(!new)>(ts: seq<T>, range: Option<DateRange>,
                                 dateOf: T -> string, parse: string -> Option<Date>): (r: seq<T>)
    ensures range.None? ==> r == ts
    ensures range.Some? ==> forall t :: t in r <==> t in ts && InRange(parse(dateOf(t)), range.value)
    ensures |r| <= |ts|
  {
    match range
    case None => ts
    case Some(rg) => Seqs.Filter(ts, t => InRange(parse(dateOf(t)), rg))
  }

  /** Filtering by date distributes over concatenation, so the kept
      transactions stay in their original order. */
  lemma FilterByDateConcat<T(!new)>(a: seq<T>, b: seq<T>, range: Option<DateRange>,
                                    dateOf: T -> string, parse: string -> Option<Date>)
    ensures FilterByDate(a + b, range, dateOf, parse)
         == FilterByDate(a, range, dateOf, parse) + FilterByDate(b, range, dateOf, parse)
  {
    if range.Some? {
      Seqs.FilterConcat(a, b, t => InRange(parse(dateOf(t)), range.value));
    }
  }

  /** Years in strictly decreasing order, hence without repeats. */
  predicate Descending(ys: seq<int>) {
    forall i, j :: 0 <= i < j < |ys| ==> ys[i] > ys[j]
  }

  /** Adding one year to a strictly decreasing list of years. */
  function InsertYear(y: int, ys: seq<int>): (r: seq<int>)
    requires Descending(ys)
    ensures Descending(r)
    ensures forall x :: x in r <==> x == y || x in ys
  {
    if ys == [] then [y]
    else if y > ys[0] then [y] + ys
    else if y == ys[0] then ys
    else
      var t := InsertYear(y, ys[1..]);
      assert forall k :: 0 <= k < |t| ==> t[k] < ys[0] by {
        forall k | 0 <= k < |t|
          ensures t[k] < ys[0]
        {
          assert t[k] in t;
          if t[k] != y {
            var m :| 0 <= m < |ys[1..]| && ys[1..][m] == t[k];
            assert ys[m + 1] == t[k];
          }
        }
      }
      [ys[0]] + t
  }

  /** Some transaction of `ts` has a parseable date in year `y`. */
  predicate HasYear<T>(ts: seq<T>, dateOf: T -> string, parse: string -> Option<Date>, y: int) {
    exists i :: 0 <= i < |ts| && parse(dateOf(ts[i])).Some? && parse(dateOf(ts[i])).value.year == y
  }

  /** `getAvailableYears`: the distinct years of the parseable transaction
      dates, latest first. */
  function AvailableYears<T>(ts: seq<T>, dateOf: T -> string, parse: string -> Option<Date>): (r: seq<int>)
    ensures Descending(r)
    ensures forall y :: y in r <==> HasYear(ts, dateOf, parse, y)
  {
    if ts == [] then []
    else
      var rest := AvailableYears(ts[1..], dateOf, parse);
      assert forall y :: HasYear(ts[1..], dateOf, parse, y) ==> HasYear(ts, dateOf, parse, y) by {
        forall y | HasYear(ts[1..], dateOf, parse, y)
          ensures HasYear(ts, dateOf, parse, y)
        {
          var i :| 0 <= i < |ts[1..]| && parse(dateOf(ts[1..][i])).Some? && parse(dateOf(ts[1..][i])).value.year == y;
          assert ts[1..][i] == ts[i + 1];
        }
      }
      assert forall y :: HasYear(ts, dateOf, parse, y) ==>
        HasYear(ts[1..], dateOf, parse, y) || (parse(dateOf(ts[0])).Some? && parse(dateOf(ts[0])).value.year == y) by {
        forall y | HasYear(ts, dateOf, parse, y)
          ensures HasYear(ts[1..], dateOf, parse, y) || (parse(dateOf(ts[0])).Some? && parse(dateOf(ts[0])).value.year == y)
        {
          var i :| 0 <= i < |ts| && parse(dateOf(ts[i])).Some? && parse(dateOf(ts[i])).value.year == y;
          if i > 0 {
            assert ts[1..][i - 1] == ts[i];
          }
        }
      }
      match parse(dateOf(ts[0]))
      case Some(d) => InsertYear(d.year, rest)
      case None => rest
  }
}
