/**
 * The time-of-day dimension (INSERT_UPDATE_DIM_TIME_SQL): a recursive expansion
 * that starts from a seed row for midnight and adds one second per step until
 * Time_SK reaches 86399. Each row carries the hour, minute and second of the
 * clock, the zero-padded 'HH:MM:SS' description and a day-phase bucket.
 */
module DimTime {
  import opened Sql
  import opened CoreTable

  /** The recursion keeps producing rows while Time_SK is below this value. */
  const LastTimeSk: int := 86399

  // ---------------------------------------------------------------------------
  // Clock fields and formatting
  // ---------------------------------------------------------------------------

  /** DATE_PART('HOUR', CURRENT_DATE + t seconds). */
  function ClockHour(t: nat): nat { (t / 3600) % 24 }

  /** DATE_PART('MINUTE', CURRENT_DATE + t seconds). */
  function ClockMinute(t: nat): nat { (t / 60) % 60 }

  /** DATE_PART('SECOND', CURRENT_DATE + t seconds) for a whole number of seconds. */
  function ClockSecond(t: nat): nat { t % 60 }

  /**
   * CASE WHEN x < 10 THEN '0' ELSE '' END || CAST(x AS VARCHAR(2)):
   * the explicit cast to VARCHAR(2) keeps at most two characters.
   */
  function PaddedField(x: nat): string
  {
    (if x < 10 then "0" else "") + Prefix(DecimalString(x), 2)
  }

  /** The Time_Desc expression: three padded fields joined by ':'. */
  function TimeDesc(h: nat, m: nat, s: nat): string
  {
    PaddedField(h) + ":" + PaddedField(m) + ":" + PaddedField(s)
  }

  /**
   * TO_CHAR(ts, 'HH24:MI:SS'), the format the fact loads compare with Time_Desc:
   * two digits per field, separated by ':'.
   */
  function ToCharHH24MISS(h: nat, m: nat, s: nat): (r: string)
    requires h < 100 && m < 100 && s < 100
    ensures |r| == 8 && r[2] == ':' && r[5] == ':'
    ensures forall i :: 0 <= i < 8 && i != 2 && i != 5 ==> IsDigit(r[i])
  {
    [Digit(h / 10), Digit(h % 10), ':', Digit(m / 10), Digit(m % 10), ':', Digit(s / 10), Digit(s % 10)]
  }

  /** A padded field of a value below 100 is its two decimal digits. */
  lemma {:induction false} PaddedFieldDigits(x: nat)
    requires x < 100
    ensures PaddedField(x) == [Digit(x / 10), Digit(x % 10)]
  {
    if x < 10 {
      assert DecimalString(x) == [Digit(x)];
    } else {
      assert DecimalString(x / 10) == [Digit(x / 10)];
      assert DecimalString(x) == [Digit(x / 10), Digit(x % 10)];
    }
  }

  /** Time_Desc is the zero-padded HH:MM:SS that TO_CHAR produces. */
  lemma TimeDescIsZeroPadded(h: nat, m: nat, s: nat)
    requires h < 100 && m < 100 && s < 100
    ensures TimeDesc(h, m, s) == ToCharHH24MISS(h, m, s)
  {
    PaddedFieldDigits(h);
    PaddedFieldDigits(m);
    PaddedFieldDigits(s);
  }

  /** Different clock readings have different descriptions. */
  lemma TimeDescInjective(h: nat, m: nat, s: nat, h': nat, m': nat, s': nat)
    requires h < 100 && m < 100 && s < 100 && h' < 100 && m' < 100 && s' < 100
    requires TimeDesc(h, m, s) == TimeDesc(h', m', s')
    ensures h == h' && m == m' && s == s'
  {
    TimeDescIsZeroPadded(h, m, s);
    TimeDescIsZeroPadded(h', m', s');
    var d, d' := ToCharHH24MISS(h, m, s), ToCharHH24MISS(h', m', s');
    assert d[0] == d'[0] && d[1] == d'[1] && d[3] == d'[3] && d[4] == d'[4] && d[6] == d'[6] && d[7] == d'[7];
    DigitInjective(h / 10, h' / 10);
    DigitInjective(h % 10, h' % 10);
    DigitInjective(m / 10, m' / 10);
    DigitInjective(m % 10, m' % 10);
    DigitInjective(s / 10, s' / 10);
    DigitInjective(s % 10, s' % 10);
  }

  // ---------------------------------------------------------------------------
  // Day phases
  // ---------------------------------------------------------------------------

  datatype DayPhase = MidNight | EarlyMorning | Morning | Afternoon | Evening | Night

  /** The text stored in Day_Phase_Desc. */
  function PhaseName(p: DayPhase): string
  {
    match p
    case MidNight => "Mid Night"
    case EarlyMorning => "Early Morning"
    case Morning => "Morning"
    case Afternoon => "Afternoon"
    case Evening => "Evening"
    case Night => "Night"
  }

  /** The first and last hour of each phase, as a table. */
  function PhaseHours(p: DayPhase): (int, int)
  {
    match p
    case MidNight => (0, 4)
    case EarlyMorning => (5, 7)
    case Morning => (8, 11)
    case Afternoon => (12, 16)
    case Evening => (17, 19)
    case Night => (20, 23)
  }

  /** The CASE ... WHEN hour BETWEEN a AND b ... END with no ELSE: the first range that holds, NULL if none. */
  function PhaseOfHour(h: int): (r: Option<DayPhase>)
    ensures r.Some? <==> 0 <= h <= 23
    ensures forall p :: r == Some(p) <==> PhaseHours(p).0 <= h <= PhaseHours(p).1
  {
    if 0 <= h <= 4 then Some(MidNight)
    else if 5 <= h <= 7 then Some(EarlyMorning)
    else if 8 <= h <= 11 then Some(Morning)
    else if 12 <= h <= 16 then Some(Afternoon)
    else if 17 <= h <= 19 then Some(Evening)
    else if 20 <= h <= 23 then Some(Night)
    else None
  }

  /** The Day_Phase_Desc column for an hour. */
  function PhaseColumn(h: int): Option<string>
  {
    match PhaseOfHour(h)
    case None => None
    case Some(p) => Some(PhaseName(p))
  }

  /** Distinct phases are stored as distinct texts, so the column determines the phase. */
  lemma PhaseNamesDistinct(p: DayPhase, q: DayPhase)
    requires PhaseName(p) == PhaseName(q)
    ensures p == q
  {
    assert PhaseName(p)[0] == PhaseName(q)[0];
    if |PhaseName(p)| == 7 {
      assert PhaseName(p)[1] == PhaseName(q)[1];
    }
  }

  // ---------------------------------------------------------------------------
  // The recursive expansion GEN_DIM_TIME
  // ---------------------------------------------------------------------------

  /** A row of GEN_DIM_TIME; clock is the MidNight column, as seconds after CURRENT_DATE. */
  datatype GenRow = GenRow(clock: nat, timeSk: int, hour: int, minute: int, second: int,
                           timeDesc: string, dayPhase: Option<string>)

  /** The hard-coded anchor row of the recursion. */
  function Seed(): GenRow
  {
    GenRow(0, 0, 0, 0, 0, "00:00:00", Some("Mid Night"))
  }

  /** The recursive member: one second later, with every field computed from the new clock. */
  function Step(r: GenRow): GenRow
  {
    var t := r.clock + 1;
    GenRow(t, r.timeSk + 1, ClockHour(t), ClockMinute(t), ClockSecond(t),
           TimeDesc(ClockHour(t), ClockMinute(t), ClockSecond(t)), PhaseColumn(ClockHour(t)))
  }

  /** The rows the recursion produces from r: r itself, then more while Time_SK < 86399. */
  function Expand(r: GenRow): seq<GenRow>
    decreases LastTimeSk - r.timeSk
  {
    if r.timeSk < LastTimeSk then [r] + Expand(Step(r)) else [r]
  }

  /** GEN_DIM_TIME. */
  function GenDimTime(): seq<GenRow>
  {
    Expand(Seed())
  }

  /** The row whose clock and Time_SK are both k seconds. */
  function RowAt(k: nat): GenRow
  {
    GenRow(k, k, ClockHour(k), ClockMinute(k), ClockSecond(k),
           TimeDesc(ClockHour(k), ClockMinute(k), ClockSecond(k)), PhaseColumn(ClockHour(k)))
  }

  /** Within one day the hour never wraps: Hour = SK div 3600, Minute = SK div 60 mod 60, Second = SK mod 60. */
  lemma RowAtFields(k: nat)
    requires k <= LastTimeSk
    ensures RowAt(k).hour == k / 3600 < 24
    ensures RowAt(k).minute == (k / 60) % 60
    ensures RowAt(k).second == k % 60
    ensures k == RowAt(k).hour * 3600 + RowAt(k).minute * 60 + RowAt(k).second
  {
    var q := k / 60;
    assert k == q * 60 + k % 60;
    assert q == (q / 60) * 60 + q % 60;
    assert k / 3600 == q / 60;
    assert k / 3600 < 24;
  }

  /** The hard-coded seed agrees with the clock at second 0. */
  lemma SeedIsRowAtZero()
    ensures Seed() == RowAt(0)
  {
    PaddedFieldDigits(0);
    assert TimeDesc(0, 0, 0) == "00:00:00";
  }

  /** One step of the recursion moves from the row for second k to the row for second k + 1. */
  lemma StepRowAt(k: nat)
    ensures RowAt(k).timeSk == k
    ensures Step(RowAt(k)) == RowAt(k + 1)
  {
  }

  /**
   * For any numbering of rows in which each step leads from the row for k to
   * the row for k + 1, the expansion from the row for k lists the rows for
   * k .. 86399.
   */
  lemma {:induction false} ExpandFollows(rowFor: nat -> GenRow, k: nat)
    requires k <= LastTimeSk
    requires forall i: nat :: i <= LastTimeSk ==> rowFor(i).timeSk == i
    requires forall i: nat :: i < LastTimeSk ==> Step(rowFor(i)) == rowFor(i + 1)
    ensures |Expand(rowFor(k))| == LastTimeSk + 1 - k
    ensures forall j :: 0 <= j < |Expand(rowFor(k))| ==> Expand(rowFor(k))[j] == rowFor(k + j)
    decreases LastTimeSk - k
  {
    if k < LastTimeSk {
      ExpandFollows(rowFor, k + 1);
      var e := Expand(rowFor(k));
      var rest := Expand(rowFor(k + 1));
      assert e == [rowFor(k)] + rest;
      forall j | 0 <= j < |e|
        ensures e[j] == rowFor(k + j)
      {
        if j > 0 {
          assert e[j] == rest[j - 1];
        }
      }
    }
  }

  /** The expansion from the row at second k lists the rows at seconds k .. 86399. */
  lemma ExpandFromRowAt(k: nat)
    requires k <= LastTimeSk
    ensures |Expand(RowAt(k))| == LastTimeSk + 1 - k
    ensures forall j :: 0 <= j < |Expand(RowAt(k))| ==> Expand(RowAt(k))[j] == RowAt(k + j)
  {
    forall i: nat | i <= LastTimeSk
      ensures RowAt(i).timeSk == i && Step(RowAt(i)) == RowAt(i + 1)
    {
      StepRowAt(i);
    }
    ExpandFollows(RowAt, k);
  }

  /**
   * GEN_DIM_TIME has exactly 86,400 rows, and the row at position k is the row
   * for second k: its Time_SK is k and its hour, minute, second, description
   * and phase follow from k.
   */
  lemma GenDimTimeRows()
    ensures |GenDimTime()| == LastTimeSk + 1
    ensures forall k :: 0 <= k < |GenDimTime()| ==> GenDimTime()[k] == RowAt(k)
  {
    SeedIsRowAtZero();
    ExpandFromRowAt(0);
  }

  /** The declared natural key Time_Desc has no duplicates among the generated rows. */
  lemma TimeDescUnique(k1: nat, k2: nat)
    requires k1 <= LastTimeSk && k2 <= LastTimeSk && k1 != k2
    ensures RowAt(k1).timeDesc != RowAt(k2).timeDesc
  {
    RowAtFields(k1);
    RowAtFields(k2);
    var r1, r2 := RowAt(k1), RowAt(k2);
    if r1.timeDesc == r2.timeDesc {
      TimeDescInjective(r1.hour, r1.minute, r1.second, r2.hour, r2.minute, r2.second);
    }
  }

  /** Every generated row has a phase, the one whose hours contain its hour. */
  lemma GeneratedPhases(k: nat)
    requires k <= LastTimeSk
    ensures exists p :: RowAt(k).dayPhase == Some(PhaseName(p)) && PhaseHours(p).0 <= k / 3600 <= PhaseHours(p).1
  {
    RowAtFields(k);
    var p := PhaseOfHour(k / 3600).value;
    assert RowAt(k).dayPhase == Some(PhaseName(p));
  }

  // ---------------------------------------------------------------------------
  // The INSERT into CORE_DB.dim_time
  // ---------------------------------------------------------------------------

  /** The columns of dim_time besides Time_SK (audit columns left out). */
  datatype TimeAttrs = TimeAttrs(hour: int, minute: int, second: int, timeDesc: string, dayPhase: Option<string>)

  /** The SELECT list of the INSERT: every column but MidNight. */
  function ToStored(r: GenRow): Row<TimeAttrs>
  {
    Row(r.timeSk, TimeAttrs(r.hour, r.minute, r.second, r.timeDesc, r.dayPhase))
  }

  function GeneratedTimeRows(): seq<Row<TimeAttrs>>
  {
    MapSeq(ToStored, GenDimTime())
  }

  /** The natural key of dim_time. */
  function TimeDescOf(a: TimeAttrs): string { a.timeDesc }

  /**
   * The generated rows have the surrogate keys 0 .. 86399 in order and pairwise
   * distinct descriptions, so neither the primary key nor the natural-key check
   * can fail on them.
   */
  lemma GeneratedTimeRowsUnique()
    ensures |GeneratedTimeRows()| == LastTimeSk + 1
    ensures forall k :: 0 <= k < |GeneratedTimeRows()| ==> GeneratedTimeRows()[k].sk == k
    ensures UniqueKeys(GeneratedTimeRows(), TimeDescOf)
    ensures UniqueSks(GeneratedTimeRows())
  {
    GenDimTimeRows();
    StoredRowsUnique(GenDimTime());
  }

  /** The stored form of any sequence listing the rows for seconds 0 .. 86399 in order. */
  lemma StoredRowsUnique(g: seq<GenRow>)
    requires |g| == LastTimeSk + 1
    requires forall k :: 0 <= k < |g| ==> g[k] == RowAt(k)
    ensures forall k :: 0 <= k < |g| ==> MapSeq(ToStored, g)[k].sk == k
    ensures UniqueKeys(MapSeq(ToStored, g), TimeDescOf)
    ensures UniqueSks(MapSeq(ToStored, g))
  {
    var st := MapSeq(ToStored, g);
    forall k | 0 <= k < |g|
      ensures st[k].sk == k && TimeDescOf(st[k].attrs) == RowAt(k).timeDesc
    {
      StoredRowAt(g, k);
    }
    forall i, j | 0 <= i < j < |st|
      ensures TimeDescOf(st[i].attrs) != TimeDescOf(st[j].attrs)
    {
      TimeDescUnique(i, j);
    }
  }

  lemma StoredRowAt(g: seq<GenRow>, k: nat)
    requires k < |g| && g[k] == RowAt(k)
    ensures MapSeq(ToStored, g)[k].sk == k
    ensures TimeDescOf(MapSeq(ToStored, g)[k].attrs) == RowAt(k).timeDesc
  {
    assert MapSeq(ToStored, g)[k] == ToStored(g[k]);
  }

  /** The generated row for second k has Time_SK k and the description of k's clock fields. */
  lemma GeneratedTimeRowAt(k: nat)
    requires k <= LastTimeSk
    ensures k < |GeneratedTimeRows()|
    ensures GeneratedTimeRows()[k].sk == k
    ensures GeneratedTimeRows()[k].attrs.timeDesc == TimeDesc(k / 3600, (k / 60) % 60, k % 60)
  {
    GenDimTimeRows();
    RowAtFields(k);
    StoredRowAt(GenDimTime(), k);
  }

  /** INSERT INTO "CORE_DB".dim_time SELECT ... FROM GEN_DIM_TIME WHERE Time_SK NOT IN (SELECT Time_SK FROM dim_time). */
  method LoadDimTime(dim: Table<TimeAttrs, string>)
    modifies dim
    ensures dim.rows == InsertMissing(old(dim.rows), GeneratedTimeRows())
  {
    dim.InsertMissingKeys(GeneratedTimeRows());
  }

  /** Loading into an empty dim_time stores exactly the 86,400 generated rows. */
  lemma LoadIntoEmptyDimTime()
    ensures InsertMissing([], GeneratedTimeRows()) == GeneratedTimeRows()
    ensures |InsertMissing([], GeneratedTimeRows())| == 86400
  {
    InsertMissingIntoEmpty(GeneratedTimeRows());
    GeneratedTimeRowsUnique();
  }
}
