/**
 * The calendar dimension (INSERT_UPDATE_DIM_DATE_SQL): a recursive expansion
 * from 2010-01-01 that adds one day per step while the previous date is before
 * 2030-12-31, so both ends are included. Date_SK is the date written as the
 * integer YYYYMMDD.
 */
module DimDate {
  import opened Sql
  import opened CoreTable

  datatype Date = Date(year: int, month: int, day: int)

  /** The anchor of the recursion. */
  const First: Date := Date(2010, 1, 1)

  /** The recursion stops once this date has been produced. */
  const Last: Date := Date(2030, 12, 31)

  // ---------------------------------------------------------------------------
  // The Gregorian calendar
  // ---------------------------------------------------------------------------

  /** The Gregorian rule: every fourth year, except centuries not divisible by 400. */
  predicate IsLeapYear(y: int)
  {
    y % 400 == 0 || (y % 4 == 0 && y % 100 != 0)
  }

  function DaysInMonth(y: int, m: int): int
  {
    if m == 2 then (if IsLeapYear(y) then 29 else 28)
    else if m == 4 || m == 6 || m == 9 || m == 11 then 30
    else 31
  }

  predicate ValidDate(d: Date)
  {
    1 <= d.year <= 9999 && 1 <= d.month <= 12 && 1 <= d.day <= DaysInMonth(d.year, d.month)
  }

  /** Date_DT + 1. */
  function NextDay(d: Date): Date
  {
    if d.day < DaysInMonth(d.year, d.month) then Date(d.year, d.month, d.day + 1)
    else if d.month < 12 then Date(d.year, d.month + 1, 1)
    else Date(d.year + 1, 1, 1)
  }

  /** Calendar order. */
  predicate Before(a: Date, b: Date)
  {
    a.year < b.year
    || (a.year == b.year && a.month < b.month)
    || (a.year == b.year && a.month == b.month && a.day < b.day)
  }

  /** The day after a valid date is a valid date, later than it. */
  lemma NextDayValid(d: Date)
    requires ValidDate(d) && d.year < 9999
    ensures ValidDate(NextDay(d)) && Before(d, NextDay(d))
  {
  }

  /** No valid date lies strictly between a date and the day after it. */
  lemma NextDayIsSuccessor(d: Date, e: Date)
    requires ValidDate(d) && ValidDate(e) && Before(d, e)
    ensures NextDay(d) == e || Before(NextDay(d), e)
  {
  }

  // ---------------------------------------------------------------------------
  // Date_SK = CAST(TO_CHAR(Date_DT, 'YYYYMMDD') AS INTEGER)
  // ---------------------------------------------------------------------------

  function DateSk(d: Date): int
  {
    d.year * 10000 + d.month * 100 + d.day
  }

  /** Reading the fields back out of a YYYYMMDD integer. */
  function SkDate(sk: int): Date
  {
    Date(sk / 10000, (sk / 100) % 100, sk % 100)
  }

  /** Date_SK is a lossless encoding of a valid date. */
  lemma SkDateRoundTrip(d: Date)
    requires ValidDate(d)
    ensures SkDate(DateSk(d)) == d
  {
    var sk := DateSk(d);
    var low := d.month * 100 + d.day;
    assert 0 <= low < 10000;
    assert sk / 10000 == d.year;
    assert sk % 10000 == low;
    assert sk / 100 == d.year * 100 + d.month;
    assert (sk / 100) % 100 == d.month;
  }

  /** Date_SK follows calendar order, so it orders rows the way Date_DT does. */
  lemma DateSkMonotone(a: Date, b: Date)
    requires ValidDate(a) && ValidDate(b)
    ensures Before(a, b) <==> DateSk(a) < DateSk(b)
  {
  }

  // ---------------------------------------------------------------------------
  // Day numbers counted from 2010-01-01
  // ---------------------------------------------------------------------------

  /** The days of the months of year y before month m. */
  function DaysBeforeMonth(y: int, m: int): int
    decreases m
  {
    if m <= 1 then 0 else DaysBeforeMonth(y, m - 1) + DaysInMonth(y, m - 1)
  }

  function DaysInYear(y: int): int
  {
    if IsLeapYear(y) then 366 else 365
  }

  /** The twelve month lengths add up to the length of the year. */
  lemma MonthsFillYear(y: int)
    ensures DaysBeforeMonth(y, 12) + DaysInMonth(y, 12) == DaysInYear(y)
  {
    var feb := DaysInMonth(y, 2);
    assert DaysBeforeMonth(y, 3) == 31 + feb;
    assert DaysBeforeMonth(y, 4) == 62 + feb;
    assert DaysBeforeMonth(y, 5) == 92 + feb;
    assert DaysBeforeMonth(y, 6) == 123 + feb;
    assert DaysBeforeMonth(y, 7) == 153 + feb;
    assert DaysBeforeMonth(y, 8) == 184 + feb;
    assert DaysBeforeMonth(y, 9) == 215 + feb;
    assert DaysBeforeMonth(y, 10) == 245 + feb;
    assert DaysBeforeMonth(y, 11) == 276 + feb;
    assert DaysBeforeMonth(y, 12) == 306 + feb;
  }

  /** The number of Gregorian leap years among the years 1 .. y. */
  function LeapYearsThrough(y: int): int
  {
    y / 4 - y / 100 + y / 400
  }

  /** The days from 2010-01-01 to January 1st of year y. */
  function DaysBeforeYear(y: int): int
  {
    365 * (y - First.year) + LeapYearsThrough(y - 1) - LeapYearsThrough(First.year - 1)
  }

  /** The number of days from 2010-01-01 to d. */
  function DayNumber(d: Date): int
  {
    DaysBeforeYear(d.year) + DaysBeforeMonth(d.year, d.month) + d.day - 1
  }

  /** Going from year y - 1 to y adds one multiple of k exactly when k divides y. */
  lemma MultiplesStep(y: int, k: int)
    requires k == 4 || k == 100 || k == 400
    ensures y / k - (y - 1) / k == if y % k == 0 then 1 else 0
  {
  }

  /** A multiple of 400 is a multiple of 100, which is a multiple of 4. */
  lemma DivisibilityChain(y: int)
    ensures y % 400 == 0 ==> y % 100 == 0
    ensures y % 100 == 0 ==> y % 4 == 0
  {
    if y % 400 == 0 {
      MultipleMod(y / 400 * 4, 100);
    }
    if y % 100 == 0 {
      MultipleMod(y / 100 * 25, 4);
    }
  }

  lemma MultipleMod(q: int, k: int)
    requires k == 4 || k == 100
    ensures (q * k) % k == 0
  {
  }

  /** The leap-year count grows by one exactly at a leap year. */
  lemma LeapYearsStep(y: int)
    ensures LeapYearsThrough(y) - LeapYearsThrough(y - 1) == if IsLeapYear(y) then 1 else 0
  {
    DivisibilityChain(y);
    MultiplesStep(y, 4);
    MultiplesStep(y, 100);
    MultiplesStep(y, 400);
  }

  /** Consecutive new years are one year's length apart. */
  lemma DaysBeforeNextYear(y: int)
    ensures DaysBeforeYear(y + 1) == DaysBeforeYear(y) + DaysInYear(y)
  {
    LeapYearsStep(y);
  }

  /** Each step of the recursion advances the day number by exactly one. */
  lemma DayNumberNext(d: Date)
    requires ValidDate(d)
    ensures DayNumber(NextDay(d)) == DayNumber(d) + 1
  {
    var y, m := d.year, d.month;
    if d.day < DaysInMonth(y, m) {
      assert NextDay(d) == Date(y, m, d.day + 1);
    } else if m < 12 {
      assert NextDay(d) == Date(y, m + 1, 1);
      assert DaysBeforeMonth(y, m + 1) == DaysBeforeMonth(y, m) + DaysInMonth(y, m);
    } else {
      assert NextDay(d) == Date(y + 1, 1, 1);
      DaysBeforeNextYear(y);
      MonthsFillYear(y);
    }
  }

  lemma LastDayNumber()
    ensures DayNumber(First) == 0
    ensures DayNumber(Last) == 7669
  {
    MonthsFillYear(Last.year);
  }

  // ---------------------------------------------------------------------------
  // Derived columns
  // ---------------------------------------------------------------------------

  /** DATE_PART('ISODOW', d): 1 = Monday .. 7 = Sunday; 2010-01-01 was a Friday. */
  function IsoDow(d: Date): (r: int)
    ensures 1 <= r <= 7
  {
    (DayNumber(d) + 4) % 7 + 1
  }

  /** Consecutive days have consecutive ISO weekdays, Sunday followed by Monday. */
  lemma IsoDowNext(d: Date)
    requires ValidDate(d)
    ensures IsoDow(NextDay(d)) == IsoDow(d) % 7 + 1
  {
    DayNumberNext(d);
    WeekdayStep(DayNumber(d) + 4);
  }

  lemma WeekdayStep(n: int)
    ensures (n + 1) % 7 + 1 == (n % 7 + 1) % 7 + 1
  {
  }

  /** Week_Day_Ind: false on Saturday and Sunday. */
  function WeekDayInd(d: Date): bool
  {
    !(6 <= IsoDow(d) <= 7)
  }

  /** DATE_PART('QUARTER', d). */
  function QuarterOf(m: int): (q: int)
    requires 1 <= m <= 12
    ensures 1 <= q <= 4
    ensures (q - 1) * 3 < m <= q * 3
  {
    (m - 1) / 3 + 1
  }

  /** Quarter_Desc: 'Quarter - ' followed by the quarter number. */
  function QuarterDesc(q: nat): string
  {
    "Quarter - " + DecimalString(q)
  }

  /** The Leap_Year_Ind CASE: divisible by 4 and (not by 100 or by 400). */
  function LeapYearInd(y: int): (r: bool)
  {
    y % 4 == 0 && (y % 100 != 0 || y % 400 == 0)
  }

  /** The indicator flags exactly the years whose February has 29 days, i.e. that last 366 days. */
  lemma LeapYearIndMeansLeapYear(y: int)
    ensures LeapYearInd(y) <==> DaysInMonth(y, 2) == 29
    ensures LeapYearInd(y) <==> DaysInYear(y) == 366
  {
    DivisibilityChain(y);
  }

  // ---------------------------------------------------------------------------
  // The recursive expansion GEN_DIM_DATE
  // ---------------------------------------------------------------------------

  /** The dates the recursion produces from d: d itself, then more while the date is before 2030-12-31. */
  function ExpandDates(d: Date): seq<Date>
    requires ValidDate(d) && d.year <= Last.year
    decreases DateSk(Last) - DateSk(d)
  {
    if Before(d, Last) then
      NextDayValid(d);
      DateSkMonotone(d, NextDay(d));
      [d] + ExpandDates(NextDay(d))
    else [d]
  }

  function GenDates(): seq<Date>
  {
    ExpandDates(First)
  }

  /** The expansion from d starts at d, ends at 2030-12-31 and holds only valid dates of that range. */
  lemma {:induction false} ExpandDatesBounds(d: Date)
    requires ValidDate(d) && d.year <= Last.year && !Before(Last, d)
    ensures ExpandDates(d)[0] == d && ExpandDates(d)[|ExpandDates(d)| - 1] == Last
    ensures forall i :: 0 <= i < |ExpandDates(d)| ==>
      ValidDate(ExpandDates(d)[i]) && !Before(ExpandDates(d)[i], d) && !Before(Last, ExpandDates(d)[i])
    decreases DateSk(Last) - DateSk(d)
  {
    if Before(d, Last) {
      var n := NextDay(d);
      NextDayValid(d);
      DateSkMonotone(d, n);
      NextDayIsSuccessor(d, Last);
      ExpandDatesBounds(n);
      var rest := ExpandDates(n);
      var e := ExpandDates(d);
      assert e == [d] + rest;
      forall i | 0 <= i < |e|
        ensures ValidDate(e[i]) && !Before(e[i], d) && !Before(Last, e[i])
      {
        if i > 0 {
          assert e[i] == rest[i - 1];
        }
      }
    }
  }

  /** The expansion is in strictly increasing calendar order. */
  lemma {:induction false} ExpandDatesSorted(d: Date)
    requires ValidDate(d) && d.year <= Last.year && !Before(Last, d)
    ensures forall i, j :: 0 <= i < j < |ExpandDates(d)| ==> Before(ExpandDates(d)[i], ExpandDates(d)[j])
    decreases DateSk(Last) - DateSk(d)
  {
    if Before(d, Last) {
      var n := NextDay(d);
      NextDayValid(d);
      DateSkMonotone(d, n);
      NextDayIsSuccessor(d, Last);
      ExpandDatesSorted(n);
      ExpandDatesBounds(n);
      var rest := ExpandDates(n);
      var e := ExpandDates(d);
      assert e == [d] + rest;
      forall i, j | 0 <= i < j < |e|
        ensures Before(e[i], e[j])
      {
        assert e[j] == rest[j - 1];
        if i > 0 {
          assert e[i] == rest[i - 1];
        } else {
          assert !Before(rest[j - 1], n);
        }
      }
    }
  }

  /** From a date d of 2010 or later, the expansion has one date per day number up to 2030-12-31. */
  lemma {:induction false} ExpandDatesLength(d: Date)
    requires ValidDate(d) && First.year <= d.year && !Before(Last, d)
    ensures |ExpandDates(d)| == DayNumber(Last) - DayNumber(d) + 1
    decreases DateSk(Last) - DateSk(d)
  {
    if Before(d, Last) {
      var n := NextDay(d);
      NextDayValid(d);
      DateSkMonotone(d, n);
      NextDayIsSuccessor(d, Last);
      DayNumberNext(d);
      ExpandDatesLength(n);
    } else {
      assert d == Last;
    }
  }

  /** Every valid date from d to 2030-12-31 is produced. */
  lemma {:induction false} ExpandDatesCovers(d: Date, x: Date)
    requires ValidDate(d) && d.year <= Last.year && ValidDate(x)
    requires !Before(x, d) && !Before(Last, x)
    ensures x in ExpandDates(d)
    decreases DateSk(Last) - DateSk(d)
  {
    if d != x {
      assert Before(d, Last);
      NextDayValid(d);
      DateSkMonotone(d, NextDay(d));
      NextDayIsSuccessor(d, x);
      ExpandDatesCovers(NextDay(d), x);
    }
  }

  /**
   * GEN_DIM_DATE holds 7,670 dates, 2010-01-01 first and 2030-12-31 last, in
   * strictly increasing order, and exactly the valid dates of that range.
   */
  lemma GenDatesShape()
    ensures |GenDates()| == 7670
    ensures GenDates()[0] == First && GenDates()[|GenDates()| - 1] == Last
    ensures forall i, j :: 0 <= i < j < |GenDates()| ==> Before(GenDates()[i], GenDates()[j])
    ensures forall x :: x in GenDates() <==> ValidDate(x) && !Before(x, First) && !Before(Last, x)
  {
    LastDayNumber();
    ExpandShape(First);
  }

  /** The same facts for the expansion from any date of 2010 .. 2030. */
  lemma ExpandShape(d: Date)
    requires ValidDate(d) && First.year <= d.year && !Before(Last, d)
    ensures |ExpandDates(d)| == DayNumber(Last) - DayNumber(d) + 1
    ensures ExpandDates(d)[0] == d && ExpandDates(d)[|ExpandDates(d)| - 1] == Last
    ensures forall i, j :: 0 <= i < j < |ExpandDates(d)| ==> Before(ExpandDates(d)[i], ExpandDates(d)[j])
    ensures forall x :: x in ExpandDates(d) <==> ValidDate(x) && !Before(x, d) && !Before(Last, x)
  {
    LastDayNumber();
    ExpandDatesLength(d);
    ExpandDatesBounds(d);
    ExpandDatesSorted(d);
    forall x | ValidDate(x) && !Before(x, d) && !Before(Last, x)
      ensures x in ExpandDates(d)
    {
      ExpandDatesCovers(d, x);
    }
  }

  // ---------------------------------------------------------------------------
  // The INSERT into CORE_DB.dim_date
  // ---------------------------------------------------------------------------

  /**
   * The columns of dim_date besides Date_SK that the model keeps (Day_Name,
   * Week_No, Month_Name and the audit columns are left out).
   */
  datatype DateAttrs = DateAttrs(dateDt: Date, dowNo: int, weekDayInd: bool, monthNo: int,
                                 quarterNo: int, quarterDesc: string, yearNo: int, leapYearInd: bool)

  /**
   * The generated row for a date: its key decodes back to the date, its
   * quarter holds the month and its leap flag says whether the year has 366 days.
   */
  function DateRow(d: Date): (r: Row<DateAttrs>)
    requires ValidDate(d)
    ensures SkDate(r.sk) == d && r.attrs.dateDt == d
    ensures r.attrs.monthNo == d.month && r.attrs.yearNo == d.year
    ensures 1 <= r.attrs.dowNo <= 7
    ensures (r.attrs.quarterNo - 1) * 3 < d.month <= r.attrs.quarterNo * 3
    ensures r.attrs.leapYearInd <==> DaysInYear(d.year) == 366
  {
    SkDateRoundTrip(d);
    LeapYearIndMeansLeapYear(d.year);
    var q := QuarterOf(d.month);
    Row(DateSk(d), DateAttrs(d, IsoDow(d), WeekDayInd(d), d.month, q, QuarterDesc(q), d.year, LeapYearInd(d.year)))
  }

  /** The rows of GEN_DIM_DATE. */
  function DateRows(ds: seq<Date>): (r: seq<Row<DateAttrs>>)
    requires forall i :: 0 <= i < |ds| ==> ValidDate(ds[i])
    ensures |r| == |ds|
    ensures forall i :: 0 <= i < |ds| ==> r[i] == DateRow(ds[i])
    ensures forall i :: 0 <= i < |ds| ==> SkDate(r[i].sk) == ds[i] && r[i].attrs.dateDt == ds[i]
    ensures forall i :: 0 <= i < |ds| ==> (r[i].attrs.leapYearInd <==> DaysInYear(ds[i].year) == 366)
  {
    seq(|ds|, i requires 0 <= i < |ds| => DateRow(ds[i]))
  }

  function GeneratedDateRows(): seq<Row<DateAttrs>>
  {
    GenDatesShape();
    DateRows(GenDates())
  }

  /** The natural key of dim_date. */
  function DateDtOf(a: DateAttrs): Date { a.dateDt }

  /** Rows built from dates in increasing order have increasing Date_SK and distinct Date_DT. */
  lemma {:induction false} IncreasingDatesGiveUniqueRows(ds: seq<Date>)
    requires forall i :: 0 <= i < |ds| ==> ValidDate(ds[i])
    requires forall i, j :: 0 <= i < j < |ds| ==> Before(ds[i], ds[j])
    ensures forall i, j :: 0 <= i < j < |ds| ==> DateRows(ds)[i].sk < DateRows(ds)[j].sk
    ensures UniqueSks(DateRows(ds))
    ensures UniqueKeys(DateRows(ds), DateDtOf)
  {
    var r := DateRows(ds);
    forall i, j | 0 <= i < j < |ds|
      ensures r[i].sk < r[j].sk && DateDtOf(r[i].attrs) != DateDtOf(r[j].attrs)
    {
      DateSkMonotone(ds[i], ds[j]);
    }
  }

  /**
   * The generated rows satisfy both the primary key on Date_SK and the
   * natural-key check on Date_DT, 7,670 of them in Date_SK order.
   */
  lemma GeneratedDateRowsUnique()
    ensures |GeneratedDateRows()| == 7670
    ensures forall i, j :: 0 <= i < j < |GeneratedDateRows()| ==> GeneratedDateRows()[i].sk < GeneratedDateRows()[j].sk
    ensures UniqueSks(GeneratedDateRows())
    ensures UniqueKeys(GeneratedDateRows(), DateDtOf)
  {
    GenDatesShape();
    IncreasingDatesGiveUniqueRows(GenDates());
  }

  /** Every valid date of 2010 .. 2030 has a row whose Date_SK is its YYYYMMDD integer. */
  lemma GeneratedDateRowsCover(x: Date)
    requires ValidDate(x) && !Before(x, First) && !Before(Last, x)
    ensures HasSk(GeneratedDateRows(), DateSk(x))
  {
    GenDatesShape();
    RowsCoverDates(GenDates(), x);
  }

  lemma RowsCoverDates(ds: seq<Date>, x: Date)
    requires forall i :: 0 <= i < |ds| ==> ValidDate(ds[i])
    requires x in ds
    ensures HasSk(DateRows(ds), DateSk(x))
  {
    var i :| 0 <= i < |ds| && ds[i] == x;
    assert DateRows(ds)[i].sk == DateSk(x);
  }

  /** INSERT INTO "CORE_DB".dim_date SELECT * FROM GEN_DIM_DATE WHERE Date_SK NOT IN (SELECT Date_SK FROM dim_date). */
  method LoadDimDate(dim: Table<DateAttrs, Date>)
    modifies dim
    ensures dim.rows == InsertMissing(old(dim.rows), GeneratedDateRows())
  {
    dim.InsertMissingKeys(GeneratedDateRows());
  }

  /** Loading into an empty dim_date stores exactly the 7,670 generated rows. */
  lemma LoadIntoEmptyDimDate()
    ensures InsertMissing([], GeneratedDateRows()) == GeneratedDateRows()
    ensures |InsertMissing([], GeneratedDateRows())| == 7670
  {
    InsertMissingIntoEmpty(GeneratedDateRows());
    GeneratedDateRowsUnique();
  }
}
