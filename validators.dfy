/**
 * The two post-load checks of the DAG (validate_row_count and
 * validate_nat_keys_dup) with their configuration lists. Each walks its list
 * in order and stops the Airflow task at the first table that fails, with exit code
 * 200 for a short table and 300 for a duplicated natural key. The database is
 * reached only through the two queries, modelled as functions: the row count
 * of a table, and the natural-key tuples of a table's rows.
 */
module Validators {
  import opened Sql
  import opened CoreTable
  import DimDate
  import DimTime

  /** How a validation task ends: it returns normally, or calls sys.exit(code). */
  datatype Outcome = Passed | Exit(code: int)

  const RowCountExitCode: int := 200
  const NatKeyExitCode: int := 300

  // ---------------------------------------------------------------------------
  // The configuration lists
  // ---------------------------------------------------------------------------

  datatype RowCountEntry = RowCountEntry(table: string, minRowCnt: nat)

  /** DICT_ROW_CNT_VALDTN, in list order. */
  const RowCountConfig: seq<RowCountEntry> := [
    RowCountEntry("\"SRC_DB\".STG_SRC_AIRPORT_CODES", 4760),
    RowCountEntry("\"SRC_DB\".STG_SRC_DC_TAXI_TRIPS", 2099990),
    RowCountEntry("\"SRC_DB\".STG_SRC_US_ACCIDENTS", 2974330),
    RowCountEntry("\"STG_DB\".STG_ADDRESS", 26100),
    RowCountEntry("\"STG_DB\".STG_ACCIDENT_CONDITION", 860),
    RowCountEntry("\"STG_DB\".STG_AIRPORT", 4700),
    RowCountEntry("\"STG_DB\".STG_WEATHER_CONDITION", 1360),
    RowCountEntry("\"STG_DB\".STG_PROVIDER", 10),
    RowCountEntry("\"STG_DB\".STG_SOURCE", 3),
    RowCountEntry("\"STG_DB\".STG_ACCIDENT", 2974330),
    RowCountEntry("\"STG_DB\".STG_TRIP", 2099990),
    RowCountEntry("\"CORE_DB\".DIM_DATE", 7670),
    RowCountEntry("\"CORE_DB\".DIM_TIME", 86400),
    RowCountEntry("\"CORE_DB\".DIM_ADDRESS", 26100),
    RowCountEntry("\"CORE_DB\".DIM_ACC_COND", 860),
    RowCountEntry("\"CORE_DB\".DIM_AIRPORT", 4760),
    RowCountEntry("\"CORE_DB\".DIM_WTHR_COND", 1360),
    RowCountEntry("\"CORE_DB\".LKP_PROVIDER", 10),
    RowCountEntry("\"CORE_DB\".LKP_SOURCE", 3),
    RowCountEntry("\"CORE_DB\".FACT_ACCIDENT", 86400),
    RowCountEntry("\"CORE_DB\".FACT_TRIP", 2099990)
  ]

  datatype NatKeyEntry = NatKeyEntry(table: string, naturalKey: string)

  /** DICT_NAT_KEYS_DUP_VALDTN, in list order. */
  const NatKeyConfig: seq<NatKeyEntry> := [
    NatKeyEntry("\"CORE_DB\".DIM_DATE", "Date_DT"),
    NatKeyEntry("\"CORE_DB\".DIM_TIME", "Time_Desc"),
    NatKeyEntry("\"CORE_DB\".DIM_ADDRESS", "City, State, Zipcode"),
    NatKeyEntry("\"CORE_DB\".DIM_ACC_COND", "Amenity, Bump, Crossing, Give_Way, Junction, No_Exit, Railway, Roundabout, Station, Stop, Traffic_Calming, Traffic_Signal, Turning_Loop, Sunrise_Sunset, Civil_Twilight, Nautical_Twilight, Astronomical_Twilight"),
    NatKeyEntry("\"CORE_DB\".DIM_AIRPORT", "ID"),
    NatKeyEntry("\"CORE_DB\".DIM_WTHR_COND", "Wind_Direction, Weather_Condition"),
    NatKeyEntry("\"CORE_DB\".LKP_PROVIDER", "Provider_Name"),
    NatKeyEntry("\"CORE_DB\".LKP_SOURCE", "Source_Name"),
    NatKeyEntry("\"CORE_DB\".FACT_ACCIDENT", "Accident_ID"),
    NatKeyEntry("\"CORE_DB\".FACT_TRIP", "Trip_ID")
  ]

  // ---------------------------------------------------------------------------
  // Selecting the tables of one schema: str.contains(schema + '.')
  // ---------------------------------------------------------------------------

  /** A character with a special meaning in a regular expression. */
  predicate IsRegexMeta(c: char)
  {
    c in ".^$*+?()[]{}|\\"
  }

  /** A schema name that a regular expression matches literally. */
  predicate Literal(schema: string)
  {
    forall i :: 0 <= i < |schema| ==> !IsRegexMeta(schema[i])
  }

  /** The pattern schema + '.' matches at position i: the schema text, then any character but a newline. */
  predicate MatchesAt(table: string, schema: string, i: nat)
  {
    i + |schema| < |table| && table[i..i + |schema|] == schema && table[i + |schema|] != '\n'
  }

  /** re.search(schema + '.', table) scanning from position i onwards. */
  function SearchFrom(table: string, schema: string, i: nat): (r: bool)
    ensures r <==> exists j :: i <= j && MatchesAt(table, schema, j)
    decreases |table| - i
  {
    if i + |schema| >= |table| then false
    else if MatchesAt(table, schema, i) then true
    else SearchFrom(table, schema, i + 1)
  }

  /** Series.str.contains(schema + '.'): the pattern matches somewhere in the table name. */
  function ContainsSchemaDot(table: string, schema: string): (r: bool)
    requires Literal(schema)
    ensures r <==> exists j :: MatchesAt(table, schema, j)
  {
    SearchFrom(table, schema, 0)
  }

  /** A table name that starts with the schema and a dot is always selected. */
  lemma QualifiedNameSelected(schema: string, name: string)
    requires Literal(schema)
    ensures ContainsSchemaDot(schema + "." + name, schema)
  {
    var t := schema + "." + name;
    assert t[0..|schema|] == schema;
    assert MatchesAt(t, schema, 0);
  }

  /** The dot is a wildcard: any character but a newline may follow the schema text. */
  lemma DotIsWildcard(schema: string, c: char, name: string)
    requires Literal(schema) && c != '\n'
    ensures ContainsSchemaDot(schema + [c] + name, schema)
  {
    var t := schema + [c] + name;
    assert t[0..|schema|] == schema;
    assert MatchesAt(t, schema, 0);
  }

  /** The schema text at the very end of a name, with nothing after it, does not match. */
  lemma SchemaAloneNotSelected(schema: string)
    requires Literal(schema)
    ensures !ContainsSchemaDot(schema, schema)
  {
  }

  /** A schema name as the call sites write it: in double quotes. */
  function Quoted(name: string): (r: string)
    ensures |r| == |name| + 2 && r[0] == '"' && r[|r| - 1] == '"'
  {
    "\"" + name + "\""
  }

  predicate NoQuote(s: string)
  {
    forall i :: 0 <= i < |s| ==> s[i] != '"'
  }

  /** A match of "T". inside "SCHEMA".NAME, with no other double quote, starts at 0 and T is SCHEMA. */
  lemma QuotedMatchIsSchema(schema: string, name: string, target: string, j: nat)
    requires NoQuote(schema) && NoQuote(name) && NoQuote(target)
    requires MatchesAt(Quoted(schema) + "." + name, Quoted(target), j)
    ensures schema == target
  {
    var t := Quoted(schema) + "." + name;
    var p := Quoted(target);
    assert t[j] == t[j..j + |p|][0] == p[0] == '"';
    assert t[j + |target| + 1] == t[j..j + |p|][|target| + 1] == p[|target| + 1] == '"';
    // The only double quotes of t are at 0 and |schema| + 1.
    forall k | 0 <= k < |t|
      ensures t[k] == '"' ==> k == 0 || k == |schema| + 1
    {
      if 0 < k < |schema| + 1 {
        assert t[k] == schema[k - 1];
      } else if k > |schema| + 2 {
        assert t[k] == name[k - |schema| - 3];
      }
    }
    assert j == 0 && |target| == |schema|;
    forall k | 0 <= k < |schema|
      ensures schema[k] == target[k]
    {
      assert schema[k] == t[k + 1] == t[0..|p|][k + 1] == p[k + 1] == target[k];
    }
  }

  /**
   * For table names written as "SCHEMA".NAME, with no other double quote, the
   * pattern "T". selects exactly the tables of schema T: the wildcard cannot
   * make "SRC_DB". match a table of another schema.
   */
  lemma QuotedSchemaSelects(schema: string, name: string, target: string)
    requires NoQuote(schema) && NoQuote(name) && NoQuote(target) && Literal(Quoted(target))
    ensures ContainsSchemaDot(Quoted(schema) + "." + name, Quoted(target)) <==> schema == target
  {
    var t := Quoted(schema) + "." + name;
    if ContainsSchemaDot(t, Quoted(target)) {
      var j: nat :| MatchesAt(t, Quoted(target), j);
      QuotedMatchIsSchema(schema, name, target, j);
    }
    if schema == target {
      QualifiedNameSelected(Quoted(target), name);
    }
  }

  /** DF_ROW_CNT_VALDTN filtered to one schema, keeping list order. */
  function SelectTables(entries: seq<RowCountEntry>, schema: string): (r: seq<RowCountEntry>)
    requires Literal(schema)
    ensures |r| <= |entries|
    ensures forall e :: e in r <==> e in entries && ContainsSchemaDot(e.table, schema)
  {
    if |entries| == 0 then []
    else
      var last := entries[|entries| - 1];
      var front := entries[..|entries| - 1];
      assert entries == front + [last];
      SelectTables(front, schema) + (if ContainsSchemaDot(last.table, schema) then [last] else [])
  }

  /**
   * The filter keeps list order: filtering a concatenation concatenates the
   * filtered parts, and one entry is kept iff its table matches. So the selected
   * tables are the matching entries in the order the list gives them.
   */
  lemma {:induction false} SelectTablesAppend(a: seq<RowCountEntry>, b: seq<RowCountEntry>, schema: string)
    requires Literal(schema)
    ensures SelectTables(a + b, schema) == SelectTables(a, schema) + SelectTables(b, schema)
    decreases |b|
  {
    if |b| == 0 {
      assert a + b == a;
    } else {
      var front := b[..|b| - 1];
      var last := b[|b| - 1];
      var kept := if ContainsSchemaDot(last.table, schema) then [last] else [];
      assert (a + b)[..|a + b| - 1] == a + front;
      assert (a + b)[|a + b| - 1] == last;
      calc {
        SelectTables(a + b, schema);
        SelectTables(a + front, schema) + kept;
        { SelectTablesAppend(a, front, schema); }
        SelectTables(a, schema) + SelectTables(front, schema) + kept;
        SelectTables(a, schema) + (SelectTables(front, schema) + kept);
        SelectTables(a, schema) + SelectTables(b, schema);
      }
    }
  }

  /** A single entry is kept iff its table matches. */
  lemma SelectTablesSingle(e: RowCountEntry, schema: string)
    requires Literal(schema)
    ensures SelectTables([e], schema) == if ContainsSchemaDot(e.table, schema) then [e] else []
  {
    assert [e][..0] == [];
  }

  // ---------------------------------------------------------------------------
  // validate_row_count
  // ---------------------------------------------------------------------------

  predicate Short(e: RowCountEntry, rowCount: string -> nat)
  {
    rowCount(e.table) < e.minRowCnt
  }

  /** The position of the first table whose count is below its minimum, if any. */
  function FirstShort(entries: seq<RowCountEntry>, rowCount: string -> nat): (r: Option<nat>)
    ensures r.Some? ==> r.value < |entries| && Short(entries[r.value], rowCount)
    ensures r.Some? ==> forall j :: 0 <= j < r.value ==> !Short(entries[j], rowCount)
    ensures r.None? <==> forall j :: 0 <= j < |entries| ==> !Short(entries[j], rowCount)
  {
    if |entries| == 0 then None
    else if Short(entries[0], rowCount) then Some(0)
    else
      match FirstShort(entries[1..], rowCount)
      case None =>
        assert forall j :: 1 <= j < |entries| ==> entries[j] == entries[1..][j - 1];
        None
      case Some(k) =>
        assert forall j :: 1 <= j < |entries| ==> entries[j] == entries[1..][j - 1];
        Some(k + 1)
  }

  /** The table column of a configuration list, in list order: the tables a loop logs as PASSED. */
  function Tables<E>(entries: seq<E>, table: E -> string): (r: seq<string>)
    ensures |r| == |entries| && forall i :: 0 <= i < |r| ==> r[i] == table(entries[i])
  {
    seq(|entries|, i requires 0 <= i < |entries| => table(entries[i]))
  }

  function RowCountTable(e: RowCountEntry): string { e.table }

  /**
   * The loop of validate_row_count over the selected tables: query each in
   * order; the first whose count is below its minimum ends the Airflow task with exit
   * code 200, and no later table is queried. The tables logged as PASSED are
   * returned.
   */
  method CheckRowCounts(tables: seq<RowCountEntry>, rowCount: string -> nat) returns (outcome: Outcome, passed: seq<string>)
    ensures match FirstShort(tables, rowCount)
            case Some(k) => outcome == Exit(RowCountExitCode) && passed == Tables(tables[..k], RowCountTable)
            case None => outcome == Passed && passed == Tables(tables, RowCountTable)
  {
    passed := [];
    var i := 0;
    while i < |tables|
      invariant 0 <= i <= |tables|
      invariant forall j :: 0 <= j < i ==> !Short(tables[j], rowCount)
      invariant passed == Tables(tables[..i], RowCountTable)
    {
      var rowCnt := rowCount(tables[i].table);
      if rowCnt < tables[i].minRowCnt {
        return Exit(RowCountExitCode), passed;
      }
      passed := passed + [tables[i].table];
      i := i + 1;
    }
    assert tables[..i] == tables;
    return Passed, passed;
  }

  /** validate_row_count(schema): the configured tables of the schema, checked in list order. */
  method ValidateRowCount(schema: string, rowCount: string -> nat) returns (outcome: Outcome, passed: seq<string>)
    requires Literal(schema)
    ensures var tables := SelectTables(RowCountConfig, schema);
            match FirstShort(tables, rowCount)
            case Some(k) => outcome == Exit(RowCountExitCode) && passed == Tables(tables[..k], RowCountTable)
            case None => outcome == Passed && passed == Tables(tables, RowCountTable)
  {
    var tables := SelectTables(RowCountConfig, schema);
    outcome, passed := CheckRowCounts(tables, rowCount);
  }

  /** The row-count check fails exactly when some selected table is short; a count equal to the minimum passes. */
  lemma RowCountFailsIffShort(entries: seq<RowCountEntry>, schema: string, rowCount: string -> nat)
    requires Literal(schema)
    ensures FirstShort(SelectTables(entries, schema), rowCount).Some? <==>
      exists e :: e in entries && ContainsSchemaDot(e.table, schema) && rowCount(e.table) < e.minRowCnt
  {
    var tables := SelectTables(entries, schema);
    if exists e :: e in entries && ContainsSchemaDot(e.table, schema) && rowCount(e.table) < e.minRowCnt {
      var e :| e in entries && ContainsSchemaDot(e.table, schema) && rowCount(e.table) < e.minRowCnt;
      assert e in tables;
    }
  }

  // ---------------------------------------------------------------------------
  // validate_nat_keys_dup
  // ---------------------------------------------------------------------------

  /** The number of rows with natural-key tuple k (NULLs group together, as in GROUP BY). */
  function Count<K(==)>(keys: seq<K>, k: K): (n: nat)
    ensures n <= |keys|
    ensures n == 0 <==> k !in keys
  {
    if |keys| == 0 then 0
    else
      var rest := Count(keys[1..], k);
      assert k in keys <==> k == keys[0] || k in keys[1..];
      (if keys[0] == k then 1 else 0) + rest
  }

  predicate HasDuplicate<K(==)>(keys: seq<K>)
  {
    exists i, j :: 0 <= i < j < |keys| && keys[i] == keys[j]
  }

  /** A key occurring at two positions has a count of at least two. */
  lemma {:induction false} TwoOccurrencesCount<K>(keys: seq<K>, i: nat, j: nat)
    requires i < j < |keys| && keys[i] == keys[j]
    ensures Count(keys, keys[i]) >= 2
  {
    if i > 0 {
      TwoOccurrencesCount(keys[1..], i - 1, j - 1);
    } else {
      assert keys[1..][j - 1] == keys[j];
    }
  }

  /** A key counted at least twice occurs at two positions. */
  lemma {:induction false} CountTwoOccurrences<K>(keys: seq<K>, k: K)
    requires Count(keys, k) >= 2
    ensures HasDuplicate(keys)
  {
    var rest := keys[1..];
    if keys[0] == k {
      assert k in rest;
      var j :| 0 <= j < |rest| && rest[j] == k;
      assert keys[j + 1] == keys[0];
    } else {
      CountTwoOccurrences(rest, k);
      var i, j :| 0 <= i < j < |rest| && rest[i] == rest[j];
      assert keys[i + 1] == keys[j + 1];
    }
  }

  /**
   * SELECT COUNT(*) FROM t GROUP BY key HAVING COUNT(*) > 1 LIMIT 1: the count
   * of one duplicated key, or no row. Which group LIMIT 1 picks is not
   * specified; the model takes the group of the earliest such row.
   */
  function DupQuery<K(==)>(keys: seq<K>): (r: seq<nat>)
    ensures |r| <= 1
    ensures forall n :: n in r ==> n > 1
  {
    if |keys| == 0 then []
    else if Count(keys, keys[0]) > 1 then [Count(keys, keys[0])]
    else DupQuery(keys[1..])
  }

  /** The query returns a row exactly when some natural-key tuple repeats. */
  lemma {:induction false} DupQueryIffDuplicate<K>(keys: seq<K>)
    ensures DupQuery(keys) != [] <==> HasDuplicate(keys)
  {
    if |keys| > 0 {
      if Count(keys, keys[0]) > 1 {
        CountTwoOccurrences(keys, keys[0]);
      } else {
        DupQueryIffDuplicate(keys[1..]);
        if HasDuplicate(keys) {
          var i, j :| 0 <= i < j < |keys| && keys[i] == keys[j];
          if i == 0 {
            TwoOccurrencesCount(keys, i, j);
          } else {
            assert keys[1..][i - 1] == keys[i] && keys[1..][j - 1] == keys[j];
          }
        }
        if HasDuplicate(keys[1..]) {
          var i, j :| 0 <= i < j < |keys[1..]| && keys[1..][i] == keys[1..][j];
          assert keys[i + 1] == keys[j + 1];
        }
      }
    }
  }

  /** The position of the first configured table whose natural keys repeat, if any. */
  function FirstDuplicated<K(==)>(entries: seq<NatKeyEntry>, natKeys: NatKeyEntry -> seq<K>): (r: Option<nat>)
    ensures r.Some? ==> r.value < |entries| && DupQuery(natKeys(entries[r.value])) != []
    ensures r.Some? ==> forall j :: 0 <= j < r.value ==> DupQuery(natKeys(entries[j])) == []
    ensures r.None? <==> forall j :: 0 <= j < |entries| ==> DupQuery(natKeys(entries[j])) == []
  {
    if |entries| == 0 then None
    else if DupQuery(natKeys(entries[0])) != [] then Some(0)
    else
      match FirstDuplicated(entries[1..], natKeys)
      case None =>
        assert forall j :: 1 <= j < |entries| ==> entries[j] == entries[1..][j - 1];
        None
      case Some(k) =>
        assert forall j :: 1 <= j < |entries| ==> entries[j] == entries[1..][j - 1];
        Some(k + 1)
  }

  function NatKeyTable(e: NatKeyEntry): string { e.table }

  /**
   * The loop of validate_nat_keys_dup: run the duplicate query for each table
   * in order; the first that returns a row ends the Airflow task with exit code 300,
   * and no later table is queried. The tables logged as PASSED are returned.
   */
  method CheckNatKeys<K(==)>(entries: seq<NatKeyEntry>, natKeys: NatKeyEntry -> seq<K>) returns (outcome: Outcome, passed: seq<string>)
    ensures match FirstDuplicated(entries, natKeys)
            case Some(k) => outcome == Exit(NatKeyExitCode) && passed == Tables(entries[..k], NatKeyTable)
            case None => outcome == Passed && passed == Tables(entries, NatKeyTable)
  {
    passed := [];
    var i := 0;
    while i < |entries|
      invariant 0 <= i <= |entries|
      invariant forall j :: 0 <= j < i ==> DupQuery(natKeys(entries[j])) == []
      invariant passed == Tables(entries[..i], NatKeyTable)
    {
      var result := DupQuery(natKeys(entries[i]));
      if |result| > 0 {
        return Exit(NatKeyExitCode), passed;
      }
      passed := passed + [entries[i].table];
      i := i + 1;
    }
    assert entries[..i] == entries;
    return Passed, passed;
  }

  /** validate_nat_keys_dup(): the configured tables, checked in list order. */
  method ValidateNatKeysDup<K(==)>(natKeys: NatKeyEntry -> seq<K>) returns (outcome: Outcome, passed: seq<string>)
    ensures match FirstDuplicated(NatKeyConfig, natKeys)
            case Some(k) => outcome == Exit(NatKeyExitCode) && passed == Tables(NatKeyConfig[..k], NatKeyTable)
            case None => outcome == Passed && passed == Tables(NatKeyConfig, NatKeyTable)
  {
    outcome, passed := CheckNatKeys(NatKeyConfig, natKeys);
  }

  /** The natural-key check fails exactly when some checked table has a repeated natural-key tuple. */
  lemma NatKeysFailIffDuplicate<K>(entries: seq<NatKeyEntry>, natKeys: NatKeyEntry -> seq<K>)
    ensures FirstDuplicated(entries, natKeys).Some? <==>
      exists j :: 0 <= j < |entries| && HasDuplicate(natKeys(entries[j]))
  {
    forall j | 0 <= j < |entries|
      ensures DupQuery(natKeys(entries[j])) != [] <==> HasDuplicate(natKeys(entries[j]))
    {
      DupQueryIffDuplicate(natKeys(entries[j]));
    }
  }

  /** The two failure classes end the Airflow task with different exit codes. */
  lemma ExitCodesDistinct()
    ensures Exit(RowCountExitCode) != Exit(NatKeyExitCode) && Exit(RowCountExitCode) != Passed
  {
  }

  // ---------------------------------------------------------------------------
  // The checks against the loads
  // ---------------------------------------------------------------------------

  /** The natural-key tuples of a CORE_DB table, in row order. */
  function KeysOf<T, K>(rows: seq<Row<T>>, key: T -> K): (r: seq<K>)
    ensures |r| == |rows| && forall i :: 0 <= i < |rows| ==> r[i] == key(rows[i].attrs)
  {
    seq(|rows|, i requires 0 <= i < |rows| => key(rows[i].attrs))
  }

  /** A table whose natural keys are unique, as every load keeps them, passes the duplicate query. */
  lemma UniqueKeysPassDupQuery<T, K>(rows: seq<Row<T>>, key: T -> K)
    requires UniqueKeys(rows, key)
    ensures DupQuery(KeysOf(rows, key)) == []
  {
    DupQueryIffDuplicate(KeysOf(rows, key));
  }

  /** The configured row-count entries of the two generated dimensions. */
  lemma GeneratedDimensionEntries()
    ensures RowCountConfig[11] == RowCountEntry("\"CORE_DB\".DIM_DATE", 7670)
    ensures RowCountConfig[12] == RowCountEntry("\"CORE_DB\".DIM_TIME", 86400)
  {
  }

  /** The generated calendar dimension holds exactly its configured minimum of 7,670 rows. */
  lemma GeneratedDimDateMeetsMinimum()
    ensures RowCountConfig[11].table == "\"CORE_DB\".DIM_DATE"
    ensures |DimDate.GeneratedDateRows()| == RowCountConfig[11].minRowCnt
  {
    GeneratedDimensionEntries();
    DimDate.LoadIntoEmptyDimDate();
  }

  /** The generated time dimension holds exactly its configured minimum of 86,400 rows. */
  lemma GeneratedDimTimeMeetsMinimum()
    ensures RowCountConfig[12].table == "\"CORE_DB\".DIM_TIME"
    ensures |DimTime.GeneratedTimeRows()| == RowCountConfig[12].minRowCnt
  {
    GeneratedDimensionEntries();
    DimTime.LoadIntoEmptyDimTime();
  }

  /** The natural keys of the generated calendar and time dimensions pass the duplicate query. */
  lemma GeneratedDimensionsHaveNoDuplicates()
    ensures DupQuery(KeysOf(DimDate.GeneratedDateRows(), DimDate.DateDtOf)) == []
    ensures DupQuery(KeysOf(DimTime.GeneratedTimeRows(), DimTime.TimeDescOf)) == []
  {
    DimDate.GeneratedDateRowsUnique();
    UniqueKeysPassDupQuery(DimDate.GeneratedDateRows(), DimDate.DateDtOf);
    DimTime.GeneratedTimeRowsUnique();
    UniqueKeysPassDupQuery(DimTime.GeneratedTimeRows(), DimTime.TimeDescOf);
  }
}
