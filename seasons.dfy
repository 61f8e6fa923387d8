/** The four fixed season windows of the 2019-2020 coherence campaign, as the
    two coherence scripts tabulate them (upper-case keys in one, lower-case keys
    in the other), and the calendar arithmetic needed to measure them. */
module Seasons {
  import opened Text

  /** A calendar date; the tables hold `datetime(y, m, d)` at midnight. */
  datatype Date = Date(year: int, month: int, day: int)

  datatype DateRange = DateRange(start: Date, end: Date)

  predicate IsLeapYear(y: int)
  {
    y % 4 == 0 && (y % 100 != 0 || y % 400 == 0)
  }

  function DaysInMonth(y: int, m: int): int
    requires 1 <= m <= 12
  {
    if m == 2 then (if IsLeapYear(y) then 29 else 28)
    else if m == 4 || m == 6 || m == 9 || m == 11 then 30
    else 31
  }

  /** The dates Python's `datetime` accepts (years 1 to 9999). */
  predicate ValidDate(d: Date)
  {
    1 <= d.year <= 9999 && 1 <= d.month <= 12 && 1 <= d.day <= DaysInMonth(d.year, d.month)
  }

  /** Days of year `y` before the first of month `m`. */
  function DaysBeforeMonth(y: int, m: int): int
    requires 1 <= m <= 12
  {
    [0, 31, 59, 90, 120, 151, 181, 212, 243, 273, 304, 334][m - 1] + (if m > 2 && IsLeapYear(y) then 1 else 0)
  }

  lemma MonthStep(y: int, m: int)
    requires 1 <= m < 12
    ensures DaysBeforeMonth(y, m + 1) == DaysBeforeMonth(y, m) + DaysInMonth(y, m)
  {
  }

  /** Proleptic Gregorian day number, 1 for 0001-01-01 (`date.toordinal()`). */
  function DayOrdinal(d: Date): (n: int)
    requires ValidDate(d)
    ensures n >= 1
    ensures n == 1 <==> d == Date(1, 1, 1)
  {
    var y := d.year - 1;
    365 * y + y / 4 - y / 100 + y / 400 + DaysBeforeMonth(d.year, d.month) + d.day
  }

  /** The calendar's successor of a date. */
  function NextDay(d: Date): Date
    requires ValidDate(d)
  {
    if d.day < DaysInMonth(d.year, d.month) then Date(d.year, d.month, d.day + 1)
    else if d.month < 12 then Date(d.year, d.month + 1, 1)
    else Date(d.year + 1, 1, 1)
  }

  lemma DivStep(y: int)
    ensures y / 4 - (y - 1) / 4 == (if y % 4 == 0 then 1 else 0)
    ensures y / 100 - (y - 1) / 100 == (if y % 100 == 0 then 1 else 0)
    ensures y / 400 - (y - 1) / 400 == (if y % 400 == 0 then 1 else 0)
  {
  }

  lemma DaysInYear(y: int)
    ensures DaysBeforeMonth(y, 12) + 31 == if IsLeapYear(y) then 366 else 365
  {
  }

  /** The day number counts days: the next day has the next number. */
  lemma NextDayOrdinal(d: Date)
    requires ValidDate(d) && d != Date(9999, 12, 31)
    ensures ValidDate(NextDay(d))
    ensures DayOrdinal(NextDay(d)) == DayOrdinal(d) + 1
  {
    if d.day < DaysInMonth(d.year, d.month) {
    } else if d.month < 12 {
      MonthStep(d.year, d.month);
    } else {
      NewYearOrdinal(d.year);
    }
  }

  /** The first of January follows the last of December. */
  lemma NewYearOrdinal(y: int)
    requires 1 <= y < 9999
    ensures DayOrdinal(Date(y + 1, 1, 1)) == DayOrdinal(Date(y, 12, 31)) + 1
  {
    var x := y - 1;
    assert DayOrdinal(Date(y + 1, 1, 1)) == 365 * y + y / 4 - y / 100 + y / 400 + 1;
    assert DayOrdinal(Date(y, 12, 31)) == 365 * x + x / 4 - x / 100 + x / 400 + DaysBeforeMonth(y, 12) + 31;
    DivStep(y);
    DaysInYear(y);
  }

  /** Whole days from the start of a range to its end (`end - start`). */
  function DaysBetween(r: DateRange): int
    requires ValidDate(r.start) && ValidDate(r.end)
  {
    DayOrdinal(r.end) - DayOrdinal(r.start)
  }

  /** `SEASON_DATE_RANGES` (create_coherence_items.py). */
  const SeasonDateRanges: map<string, DateRange> := map[
    "WINTER" := DateRange(Date(2019, 12, 1), Date(2020, 2, 28)),
    "SPRING" := DateRange(Date(2020, 3, 1), Date(2020, 5, 31)),
    "SUMMER" := DateRange(Date(2020, 6, 1), Date(2020, 8, 31)),
    "FALL" := DateRange(Date(2020, 9, 1), Date(2020, 11, 30))
  ]

  /** `SEASONS` (coherence_stac.py). */
  const SeasonWindows: map<string, DateRange> := map[
    "winter" := DateRange(Date(2019, 12, 1), Date(2020, 2, 28)),
    "spring" := DateRange(Date(2020, 3, 1), Date(2020, 5, 31)),
    "summer" := DateRange(Date(2020, 6, 1), Date(2020, 8, 31)),
    "fall" := DateRange(Date(2020, 9, 1), Date(2020, 11, 30))
  ]

  /** Every window is a pair of valid dates; its length is twice the half-width
      the tests expect between the window's midpoint and either end: 44 days 12
      hours for winter, 45 days 12 hours for spring and summer, 45 days for
      fall. The campaign year 2020 is a leap year, yet winter ends on the 28th. */
  lemma SeasonLengths()
    ensures forall k :: k in SeasonDateRanges ==>
      ValidDate(SeasonDateRanges[k].start) && ValidDate(SeasonDateRanges[k].end)
    ensures DaysBetween(SeasonDateRanges["WINTER"]) * 86400 == 2 * (44 * 86400 + 43200)
    ensures DaysBetween(SeasonDateRanges["SPRING"]) * 86400 == 2 * (45 * 86400 + 43200)
    ensures DaysBetween(SeasonDateRanges["SUMMER"]) * 86400 == 2 * (45 * 86400 + 43200)
    ensures DaysBetween(SeasonDateRanges["FALL"]) * 86400 == 2 * (45 * 86400)
    ensures IsLeapYear(2020)
  {
    Ordinals();
    assert DaysBetween(SeasonDateRanges["WINTER"]) == 89;
    assert DaysBetween(SeasonDateRanges["SPRING"]) == 91;
    assert DaysBetween(SeasonDateRanges["SUMMER"]) == 91;
    assert DaysBetween(SeasonDateRanges["FALL"]) == 90;
  }

  /** The windows follow each other in the order winter, spring, summer, fall,
      without overlapping, from 2019-12-01 to 2020-11-30. */
  lemma SeasonsInOrder()
    ensures var w, sp, su, f := SeasonDateRanges["WINTER"], SeasonDateRanges["SPRING"],
                                SeasonDateRanges["SUMMER"], SeasonDateRanges["FALL"];
            && ValidDate(w.start) && ValidDate(w.end) && ValidDate(sp.start) && ValidDate(sp.end)
            && ValidDate(su.start) && ValidDate(su.end) && ValidDate(f.start) && ValidDate(f.end)
            && DayOrdinal(w.start) < DayOrdinal(w.end) < DayOrdinal(sp.start)
            && DayOrdinal(sp.start) < DayOrdinal(sp.end) < DayOrdinal(su.start)
            && DayOrdinal(su.start) < DayOrdinal(su.end) < DayOrdinal(f.start)
            && DayOrdinal(f.start) < DayOrdinal(f.end)
            && DayOrdinal(f.end) - DayOrdinal(w.start) == 365
  {
    Ordinals();
  }

  /** The day numbers of the eight table dates. */
  lemma Ordinals()
    ensures DayOrdinal(Date(2019, 12, 1)) == 737394
    ensures DayOrdinal(Date(2020, 2, 28)) == 737483
    ensures DayOrdinal(Date(2020, 3, 1)) == 737485
    ensures DayOrdinal(Date(2020, 5, 31)) == 737576
    ensures DayOrdinal(Date(2020, 6, 1)) == 737577
    ensures DayOrdinal(Date(2020, 8, 31)) == 737668
    ensures DayOrdinal(Date(2020, 9, 1)) == 737669
    ensures DayOrdinal(Date(2020, 11, 30)) == 737759
  {
    Ordinal2019_12_01();
    Ordinal2020_02_28();
    Ordinal2020_03_01();
    Ordinal2020_05_31();
    Ordinal2020_06_01();
    Ordinal2020_08_31();
    Ordinal2020_09_01();
    Ordinal2020_11_30();
  }

  lemma Ordinal2019_12_01() ensures DayOrdinal(Date(2019, 12, 1)) == 737394 { }
  lemma Ordinal2020_02_28() ensures DayOrdinal(Date(2020, 2, 28)) == 737483 { }
  lemma Ordinal2020_03_01() ensures DayOrdinal(Date(2020, 3, 1)) == 737485 { }
  lemma Ordinal2020_05_31() ensures DayOrdinal(Date(2020, 5, 31)) == 737576 { }
  lemma Ordinal2020_06_01() ensures DayOrdinal(Date(2020, 6, 1)) == 737577 { }
  lemma Ordinal2020_08_31() ensures DayOrdinal(Date(2020, 8, 31)) == 737668 { }
  lemma Ordinal2020_09_01() ensures DayOrdinal(Date(2020, 9, 1)) == 737669 { }
  lemma Ordinal2020_11_30() ensures DayOrdinal(Date(2020, 11, 30)) == 737759 { }

  /** The two tables hold the same windows; only the case of the keys differs. */
  lemma TablesAgree()
    ensures forall k :: k in SeasonDateRanges ==> ToLower(k) in SeasonWindows && SeasonWindows[ToLower(k)] == SeasonDateRanges[k]
    ensures forall k :: k in SeasonWindows ==> ToUpper(k) in SeasonDateRanges && SeasonDateRanges[ToUpper(k)] == SeasonWindows[k]
  {
    assert ToLower("WINTER") == "winter";
    assert ToLower("SPRING") == "spring";
    assert ToLower("SUMMER") == "summer";
    assert ToLower("FALL") == "fall";
    assert ToUpper("winter") == "WINTER";
    assert ToUpper("spring") == "SPRING";
    assert ToUpper("summer") == "SUMMER";
    assert ToUpper("fall") == "FALL";
  }
}
