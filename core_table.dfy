/**
 * The insert-if-absent pattern shared by the dimension, lookup and fact loads of
 * CORE_DB. Each such statement reads COALESCE(MAX(sk), 0) from its target table,
 * anti-joins the staging rows against the table on the natural key
 * (LEFT OUTER JOIN ... WHERE target.sk IS NULL) and appends the survivors with
 * the surrogate keys max + ROW_NUMBER(). The calendar and time-of-day loads use
 * the simpler form WHERE sk NOT IN (SELECT sk FROM target).
 *
 * The anti-join is evaluated against the table as it was when the statement
 * started, so two staging rows with the same key are both inserted; the staging
 * tables' primary keys are what rule that out, and the lemmas below take it as
 * a premise where it matters.
 */
module CoreTable {
  import opened Sql

  /** One stored row: its integer surrogate key and the remaining columns. */
  datatype Row<T> = Row(sk: int, attrs: T)

  // ---------------------------------------------------------------------------
  // Specification functions
  // ---------------------------------------------------------------------------

  /** MAX(sk) over the table: NULL when the table is empty. */
  function MaxSk<T>(rows: seq<Row<T>>): (r: Option<int>)
    ensures r.None? <==> rows == []
    ensures r.Some? ==> forall i :: 0 <= i < |rows| ==> rows[i].sk <= r.value
    ensures r.Some? ==> exists i :: 0 <= i < |rows| && rows[i].sk == r.value
  {
    if rows == [] then None
    else
      var front := rows[..|rows| - 1];
      var last := rows[|rows| - 1].sk;
      var m := MaxSk(front);
      assert forall i :: 0 <= i < |front| ==> front[i] == rows[i];
      if m.None? || m.value < last then Some(last) else m
  }

  /** COALESCE(MAX(sk), 0): the value ROW_NUMBER() is added to. */
  function BaseSk<T>(rows: seq<Row<T>>): int
  {
    Coalesce(MaxSk(rows), 0)
  }

  /** Some stored row has natural key k. */
  predicate HasKey<T, K(==)>(rows: seq<Row<T>>, key: T -> K, k: K)
  {
    exists i :: 0 <= i < |rows| && key(rows[i].attrs) == k
  }

  /** Some stored row has surrogate key sk. */
  predicate HasSk<T>(rows: seq<Row<T>>, sk: int)
  {
    exists i :: 0 <= i < |rows| && rows[i].sk == sk
  }

  /** Some row has natural key k and surrogate key sk. */
  predicate SkOfKey<T, K(==)>(rows: seq<Row<T>>, key: T -> K, k: K, sk: int)
  {
    exists i :: 0 <= i < |rows| && key(rows[i].attrs) == k && rows[i].sk == sk
  }

  /** No two stored rows share a natural key. */
  predicate UniqueKeys<T, K(==)>(rows: seq<Row<T>>, key: T -> K)
  {
    forall i, j :: 0 <= i < j < |rows| ==> key(rows[i].attrs) != key(rows[j].attrs)
  }

  /** No two stored rows share a surrogate key (the PRIMARY KEY of every core table). */
  predicate UniqueSks<T>(rows: seq<Row<T>>)
  {
    forall i, j :: 0 <= i < j < |rows| ==> rows[i].sk != rows[j].sk
  }

  /** Every surrogate key is at least 1, as keys numbered from COALESCE(MAX(sk),0) + 1 are. */
  predicate PositiveSks<T>(rows: seq<Row<T>>)
  {
    forall i :: 0 <= i < |rows| ==> rows[i].sk >= 1
  }

  /** What the primary key and the natural-key check together demand of a CORE_DB table. */
  predicate WellKeyed<T, K(==)>(rows: seq<Row<T>>, key: T -> K)
  {
    UniqueKeys(rows, key) && UniqueSks(rows) && PositiveSks(rows)
  }

  /** No two staging rows share a key (what the staging table's PRIMARY KEY guarantees). */
  predicate UniqueStagingKeys<S, K(==)>(stg: seq<S>, stgKey: S -> K)
  {
    forall i, j :: 0 <= i < j < |stg| ==> stgKey(stg[i]) != stgKey(stg[j])
  }

  /** Every stored row built from a staging row carries that staging row's key. */
  predicate KeyPreserving<S, T, K(==)>(stg: seq<S>, stgKey: S -> K, project: S -> T, key: T -> K)
  {
    forall i :: 0 <= i < |stg| ==> key(project(stg[i])) == stgKey(stg[i])
  }

  /**
   * LEFT OUTER JOIN target ON key WHERE target.sk IS NULL: the staging rows,
   * in their order, whose key matches no stored row (AntiJoinSelects says so).
   */
  function AntiJoin<S, T, K(==)>(rows: seq<Row<T>>, key: T -> K, stg: seq<S>, stgKey: S -> K): (r: seq<S>)
    ensures |r| <= |stg|
  {
    if stg == [] then []
    else
      var last := stg[|stg| - 1];
      AntiJoin(rows, key, stg[..|stg| - 1], stgKey) + (if HasKey(rows, key, stgKey(last)) then [] else [last])
  }

  /**
   * The anti-join selects exactly the staging rows whose key is absent, and
   * nothing at all when every staging key is already stored.
   */
  lemma {:induction false} AntiJoinSelects<S, T, K>(rows: seq<Row<T>>, key: T -> K, stg: seq<S>, stgKey: S -> K)
    ensures var r := AntiJoin(rows, key, stg, stgKey);
            && (forall i :: 0 <= i < |r| ==> r[i] in stg && !HasKey(rows, key, stgKey(r[i])))
            && (forall i :: 0 <= i < |stg| && !HasKey(rows, key, stgKey(stg[i])) ==> stg[i] in r)
            && ((forall i :: 0 <= i < |stg| ==> HasKey(rows, key, stgKey(stg[i]))) ==> r == [])
  {
    if stg != [] {
      var front := stg[..|stg| - 1];
      var last := stg[|stg| - 1];
      assert stg == front + [last];
      AntiJoinSelects(rows, key, front, stgKey);
    }
  }

  /** The projection applied to every selected staging row. */
  function MapSeq<S, T>(f: S -> T, xs: seq<S>): seq<T>
  {
    seq(|xs|, i requires 0 <= i < |xs| => f(xs[i]))
  }

  /** The new rows, numbered base + ROW_NUMBER(). */
  function Numbered<T>(xs: seq<T>, base: int): seq<Row<T>>
  {
    seq(|xs|, i requires 0 <= i < |xs| => Row(base + i + 1, xs[i]))
  }

  /**
   * The table after one run of an insert-if-absent load. Existing rows are
   * untouched; every new surrogate key is above every existing one; the new keys
   * increase, so they are pairwise distinct; one row is added per staging row
   * whose key was absent.
   */
  function Load<S(==), T, K(==)>(rows: seq<Row<T>>, key: T -> K, stg: seq<S>, stgKey: S -> K, project: S -> T)
    : (r: seq<Row<T>>)
    ensures |r| == |rows| + |AntiJoin(rows, key, stg, stgKey)|
    ensures r[..|rows|] == rows
    ensures forall i, j :: 0 <= i < |rows| <= j < |r| ==> r[i].sk < r[j].sk
    ensures forall i, j :: |rows| <= i < j < |r| ==> r[i].sk < r[j].sk
    ensures forall j :: |rows| <= j < |r| ==> r[j].attrs in MapSeq(project, AntiJoin(rows, key, stg, stgKey))
    ensures UniqueSks(rows) ==> UniqueSks(r)
  {
    var added := Numbered(MapSeq(project, AntiJoin(rows, key, stg, stgKey)), BaseSk(rows));
    var r := rows + added;
    assert forall j :: |rows| <= j < |r| ==> r[j] == added[j - |rows|];
    r
  }

  /**
   * The new rows get the keys m + 1 .. m + n, where m is the largest existing
   * key (0 for an empty table); so keys stay positive.
   */
  lemma LoadNumbering<S, T, K>(rows: seq<Row<T>>, key: T -> K, stg: seq<S>, stgKey: S -> K, project: S -> T)
    ensures var r := Load(rows, key, stg, stgKey, project);
      forall j :: |rows| <= j < |r| ==> r[j].sk == BaseSk(rows) + (j - |rows|) + 1
    ensures PositiveSks(rows) ==> PositiveSks(Load(rows, key, stg, stgKey, project))
  {
    var base := BaseSk(rows);
    var added := Numbered(MapSeq(project, AntiJoin(rows, key, stg, stgKey)), base);
    var r := Load(rows, key, stg, stgKey, project);
    assert r == rows + added;
    assert forall j :: |rows| <= j < |r| ==> r[j] == added[j - |rows|];
    if PositiveSks(rows) && rows != [] {
      assert rows[0] in rows;
      assert base >= 1;
    }
  }

  /**
   * A load keeps a table well keyed, given staging data whose primary key
   * covers the natural key, and leaves every staging key present.
   */
  lemma LoadKeepsWellKeyed<S, T, K>(rows: seq<Row<T>>, key: T -> K, stg: seq<S>, stgKey: S -> K, project: S -> T)
    requires WellKeyed(rows, key)
    requires UniqueStagingKeys(stg, stgKey)
    requires KeyPreserving(stg, stgKey, project, key)
    ensures WellKeyed(Load(rows, key, stg, stgKey, project), key)
    ensures forall s :: s in stg ==> HasKey(Load(rows, key, stg, stgKey, project), key, stgKey(s))
  {
    LoadKeepsKeysUnique(rows, key, stg, stgKey, project);
    LoadNumbering(rows, key, stg, stgKey, project);
    LoadCoversStaging(rows, key, stg, stgKey, project);
  }

  /** A foreign key looked up by natural key, COALESCE(dim.sk, -1) when no row matches. */
  function ResolveFk<T, K(==)>(rows: seq<Row<T>>, key: T -> K, k: K): (r: int)
    ensures !HasKey(rows, key, k) ==> r == -1
    ensures HasKey(rows, key, k) ==> SkOfKey(rows, key, k, r) && HasSk(rows, r)
  {
    Coalesce(LookupSk(rows, key, k), -1)
  }

  /**
   * In a well-keyed table the foreign key is -1 exactly when the natural key is
   * absent, and otherwise the surrogate key of the one row that has it.
   */
  lemma ResolveFkWellKeyed<T, K>(rows: seq<Row<T>>, key: T -> K, k: K)
    requires WellKeyed(rows, key)
    ensures ResolveFk(rows, key, k) == -1 <==> !HasKey(rows, key, k)
    ensures forall i :: 0 <= i < |rows| && key(rows[i].attrs) == k ==> ResolveFk(rows, key, k) == rows[i].sk
  {
    forall i | 0 <= i < |rows| && key(rows[i].attrs) == k
      ensures ResolveFk(rows, key, k) == rows[i].sk
    {
      LookupFindsUniqueMatch(rows, key, i);
    }
  }

  /** The generated rows whose surrogate key is not yet stored: WHERE sk NOT IN (SELECT sk FROM target). */
  function Missing<T(==)>(rows: seq<Row<T>>, gen: seq<Row<T>>): (r: seq<Row<T>>)
    ensures |r| <= |gen|
    ensures forall i :: 0 <= i < |r| ==> r[i] in gen && !HasSk(rows, r[i].sk)
    ensures forall i :: 0 <= i < |gen| && !HasSk(rows, gen[i].sk) ==> gen[i] in r
    ensures (forall i :: 0 <= i < |gen| ==> HasSk(rows, gen[i].sk)) ==> r == []
  {
    if gen == [] then []
    else
      var front := gen[..|gen| - 1];
      var last := gen[|gen| - 1];
      assert gen == front + [last];
      Missing(rows, front) + (if HasSk(rows, last.sk) then [] else [last])
  }

  /** The table after INSERT INTO target SELECT * FROM gen WHERE sk NOT IN (SELECT sk FROM target). */
  function InsertMissing<T(==)>(rows: seq<Row<T>>, gen: seq<Row<T>>): seq<Row<T>>
  {
    rows + Missing(rows, gen)
  }

  /** A LEFT OUTER JOIN lookup: the surrogate key of the first row with natural key k, NULL when there is none. */
  function LookupSk<T, K(==)>(rows: seq<Row<T>>, key: T -> K, k: K): (r: Option<int>)
    ensures r.Some? <==> HasKey(rows, key, k)
    ensures r.Some? ==> exists i :: 0 <= i < |rows| && key(rows[i].attrs) == k && rows[i].sk == r.value
  {
    if rows == [] then None
    else if key(rows[0].attrs) == k then Some(rows[0].sk)
    else
      var r := LookupSk(rows[1..], key, k);
      assert forall i :: 1 <= i < |rows| ==> rows[1..][i - 1] == rows[i];
      r
  }

  // ---------------------------------------------------------------------------
  // Properties of the loads
  // ---------------------------------------------------------------------------

  /** When the natural key is unique, the lookup finds the one matching row: it agrees with the join. */
  lemma {:induction false} LookupFindsUniqueMatch<T, K>(rows: seq<Row<T>>, key: T -> K, i: nat)
    requires UniqueKeys(rows, key) && i < |rows|
    ensures LookupSk(rows, key, key(rows[i].attrs)) == Some(rows[i].sk)
  {
    if i > 0 {
      var tail := rows[1..];
      assert forall a, b :: 0 <= a < b < |tail| ==> tail[a] == rows[a + 1] && tail[b] == rows[b + 1];
      assert tail[i - 1] == rows[i];
      LookupFindsUniqueMatch(tail, key, i - 1);
    }
  }

  /** After a load, every staging key is present in the table. */
  lemma {:induction false} LoadCoversStaging<S, T, K>(
    rows: seq<Row<T>>, key: T -> K, stg: seq<S>, stgKey: S -> K, project: S -> T)
    requires KeyPreserving(stg, stgKey, project, key)
    ensures forall s :: s in stg ==> HasKey(Load(rows, key, stg, stgKey, project), key, stgKey(s))
  {
    var r := Load(rows, key, stg, stgKey, project);
    var aj := AntiJoin(rows, key, stg, stgKey);
    AntiJoinSelects(rows, key, stg, stgKey);
    forall s | s in stg
      ensures HasKey(r, key, stgKey(s))
    {
      if HasKey(rows, key, stgKey(s)) {
        var i :| 0 <= i < |rows| && key(rows[i].attrs) == stgKey(s);
        assert r[i] == rows[i];
      } else {
        assert s in aj;
        var j :| 0 <= j < |aj| && aj[j] == s;
        var n :| 0 <= n < |stg| && stg[n] == s;
        assert r[|rows| + j].attrs == project(s);
        assert key(project(stg[n])) == stgKey(stg[n]);
      }
    }
  }

  /**
   * Idempotence: a second run over the same staging rows inserts nothing, whatever
   * the projection of the second run (for a fact load, the dimensions it reads may
   * have changed in between).
   */
  lemma {:induction false} LoadIdempotent<S, T, K>(
    rows: seq<Row<T>>, key: T -> K, stg: seq<S>, stgKey: S -> K, project: S -> T, project2: S -> T)
    requires KeyPreserving(stg, stgKey, project, key)
    ensures var once := Load(rows, key, stg, stgKey, project);
            Load(once, key, stg, stgKey, project2) == once
  {
    var once := Load(rows, key, stg, stgKey, project);
    LoadCoversStaging(rows, key, stg, stgKey, project);
    assert forall i :: 0 <= i < |stg| ==> stg[i] in stg;
    AntiJoinSelects(once, key, stg, stgKey);
    var twice := Load(once, key, stg, stgKey, project2);
    assert twice[..|once|] == once && |twice| == |once|;
  }

  /** The anti-join keeps staging keys unique. */
  lemma {:induction false} AntiJoinKeepsUniqueKeys<S, T, K>(
    rows: seq<Row<T>>, key: T -> K, stg: seq<S>, stgKey: S -> K)
    requires UniqueStagingKeys(stg, stgKey)
    ensures UniqueStagingKeys(AntiJoin(rows, key, stg, stgKey), stgKey)
  {
    if stg != [] {
      var front := stg[..|stg| - 1];
      var last := stg[|stg| - 1];
      assert forall i :: 0 <= i < |front| ==> front[i] == stg[i];
      AntiJoinKeepsUniqueKeys(rows, key, front, stgKey);
      var ajf := AntiJoin(rows, key, front, stgKey);
      AntiJoinSelects(rows, key, front, stgKey);
      forall s | s in ajf
        ensures stgKey(s) != stgKey(last)
      {
        var i :| 0 <= i < |front| && front[i] == s;
        assert stgKey(stg[i]) != stgKey(stg[|stg| - 1]);
      }
    }
  }

  /**
   * A load keeps the natural key unique: the duplicate check on the natural key
   * still passes after it, given a unique table and unique staging keys.
   */
  lemma {:induction false} LoadKeepsKeysUnique<S, T, K>(
    rows: seq<Row<T>>, key: T -> K, stg: seq<S>, stgKey: S -> K, project: S -> T)
    requires UniqueKeys(rows, key)
    requires UniqueStagingKeys(stg, stgKey)
    requires KeyPreserving(stg, stgKey, project, key)
    ensures UniqueKeys(Load(rows, key, stg, stgKey, project), key)
  {
    var r := Load(rows, key, stg, stgKey, project);
    var aj := AntiJoin(rows, key, stg, stgKey);
    AntiJoinKeepsUniqueKeys(rows, key, stg, stgKey);
    AntiJoinSelects(rows, key, stg, stgKey);
    assert forall j :: 0 <= j < |aj| ==> aj[j] in stg;
    forall j | 0 <= j < |aj|
      ensures key(project(aj[j])) == stgKey(aj[j])
    {
      var n :| 0 <= n < |stg| && stg[n] == aj[j];
      assert key(project(stg[n])) == stgKey(stg[n]);
    }
    forall i, j | 0 <= i < j < |r|
      ensures key(r[i].attrs) != key(r[j].attrs)
    {
      if j >= |rows| {
        assert r[j].attrs == project(aj[j - |rows|]);
        if i < |rows| {
          assert r[i] == rows[i];
          assert !HasKey(rows, key, stgKey(aj[j - |rows|]));
        } else {
          assert r[i].attrs == project(aj[i - |rows|]);
        }
      } else {
        assert r[i] == rows[i] && r[j] == rows[j];
      }
    }
  }

  /** Loading generated rows into an empty table stores exactly the generated rows. */
  lemma {:induction false} InsertMissingIntoEmpty<T>(gen: seq<Row<T>>)
    ensures InsertMissing([], gen) == gen
  {
    if gen != [] {
      var front := gen[..|gen| - 1];
      InsertMissingIntoEmpty(front);
      assert gen == front + [gen[|gen| - 1]];
    }
  }

  /** Re-running a NOT IN load with the same generated rows inserts nothing. */
  lemma {:induction false} InsertMissingIdempotent<T>(rows: seq<Row<T>>, gen: seq<Row<T>>)
    ensures InsertMissing(InsertMissing(rows, gen), gen) == InsertMissing(rows, gen)
  {
    var once := InsertMissing(rows, gen);
    forall x | x in gen
      ensures HasSk(once, x.sk)
    {
      if HasSk(rows, x.sk) {
        var i :| 0 <= i < |rows| && rows[i].sk == x.sk;
        assert once[i] == rows[i];
      } else {
        var m := Missing(rows, gen);
        assert x in m;
        var j :| 0 <= j < |m| && m[j] == x;
        assert once[|rows| + j] == x;
      }
    }
    assert forall i :: 0 <= i < |gen| ==> gen[i] in gen;
  }

  /** One more staging row extends the anti-join, and so the numbered new rows, at the end. */
  lemma AntiJoinSnoc<S, T, K>(rows: seq<Row<T>>, key: T -> K, stg: seq<S>, stgKey: S -> K,
                              project: S -> T, base: int, i: nat)
    requires i < |stg|
    ensures var before := Numbered(MapSeq(project, AntiJoin(rows, key, stg[..i], stgKey)), base);
            var after := Numbered(MapSeq(project, AntiJoin(rows, key, stg[..i + 1], stgKey)), base);
            after == if HasKey(rows, key, stgKey(stg[i])) then before
                     else before + [Row(base + |before| + 1, project(stg[i]))]
  {
    var prefix := stg[..i + 1];
    assert prefix[..|prefix| - 1] == stg[..i];
    assert prefix[|prefix| - 1] == stg[i];
    var aj0 := AntiJoin(rows, key, stg[..i], stgKey);
    var aj1 := AntiJoin(rows, key, prefix, stgKey);
    if !HasKey(rows, key, stgKey(stg[i])) {
      assert aj1 == aj0 + [stg[i]];
      NumberedSnoc(MapSeq(project, aj0), project(stg[i]), base);
      assert MapSeq(project, aj1) == MapSeq(project, aj0) + [project(stg[i])];
    } else {
      assert aj1 == aj0;
    }
  }

  lemma NumberedSnoc<T>(xs: seq<T>, x: T, base: int)
    ensures Numbered(xs + [x], base) == Numbered(xs, base) + [Row(base + |xs| + 1, x)]
  {
  }

  // ---------------------------------------------------------------------------
  // The statements, step by step
  // ---------------------------------------------------------------------------

  /** SELECT COALESCE(MAX(sk), 0) FROM target. */
  method MaxKey<T>(rows: seq<Row<T>>) returns (m: int)
    ensures m == BaseSk(rows)
    ensures forall i :: 0 <= i < |rows| ==> rows[i].sk <= m
  {
    var max: Option<int> := None;
    var i := 0;
    while i < |rows|
      invariant 0 <= i <= |rows|
      invariant max == MaxSk(rows[..i])
    {
      assert rows[..i + 1][..i] == rows[..i];
      if max.None? || max.value < rows[i].sk {
        max := Some(rows[i].sk);
      }
      i := i + 1;
    }
    assert rows[..i] == rows;
    m := Coalesce(max, 0);
  }

  /** Whether the join on the natural key finds a stored row. */
  method FindKey<T, K(==)>(rows: seq<Row<T>>, key: T -> K, k: K) returns (found: bool)
    ensures found == HasKey(rows, key, k)
  {
    found := false;
    var i := 0;
    while i < |rows| && !found
      invariant 0 <= i <= |rows|
      invariant found == exists j :: 0 <= j < i && key(rows[j].attrs) == k
    {
      found := key(rows[i].attrs) == k;
      i := i + 1;
    }
  }

  /** Whether sk IN (SELECT sk FROM target). */
  method FindSk<T>(rows: seq<Row<T>>, sk: int) returns (found: bool)
    ensures found == HasSk(rows, sk)
  {
    found := false;
    var i := 0;
    while i < |rows| && !found
      invariant 0 <= i <= |rows|
      invariant found == exists j :: 0 <= j < i && rows[j].sk == sk
    {
      found := rows[i].sk == sk;
      i := i + 1;
    }
  }

  /**
   * The rows the SELECT of an insert-if-absent load produces: each staging row
   * whose key the join does not find, projected and numbered base + ROW_NUMBER().
   */
  method NewRows<S(==), T, K(==)>(rows: seq<Row<T>>, key: T -> K, base: int, stg: seq<S>, stgKey: S -> K, project: S -> T)
    returns (added: seq<Row<T>>)
    ensures added == Numbered(MapSeq(project, AntiJoin(rows, key, stg, stgKey)), base)
  {
    added := [];
    var i := 0;
    assert stg[..0] == [];
    while i < |stg|
      invariant 0 <= i <= |stg|
      invariant added == Numbered(MapSeq(project, AntiJoin(rows, key, stg[..i], stgKey)), base)
    {
      var s := stg[i];
      var present := FindKey(rows, key, stgKey(s));
      AntiJoinSnoc(rows, key, stg, stgKey, project, base, i);
      if !present {
        added := added + [Row(base + |added| + 1, project(s))];
      }
      i := i + 1;
    }
    assert stg[..i] == stg;
  }

  /** A CORE_DB table: its rows, in insertion order, and its natural key. */
  class Table<T(==), K(==)> {
    var rows: seq<Row<T>>
    const key: T -> K

    constructor (key: T -> K, existing: seq<Row<T>>)
      ensures this.key == key && rows == existing
    {
      this.key := key;
      rows := existing;
    }

    /**
     * INSERT INTO target SELECT max + ROW_NUMBER(), project(stg) FROM stg
     * LEFT OUTER JOIN target ON key WHERE target.sk IS NULL.
     */
    method InsertAbsent<S(==)>(stg: seq<S>, stgKey: S -> K, project: S -> T)
      modifies this
      ensures rows == Load(old(rows), key, stg, stgKey, project)
    {
      var base := MaxKey(rows);
      var added := NewRows(rows, key, base, stg, stgKey, project);
      rows := rows + added;
    }

    /** INSERT INTO target SELECT * FROM gen WHERE sk NOT IN (SELECT sk FROM target). */
    method InsertMissingKeys(gen: seq<Row<T>>)
      modifies this
      ensures rows == InsertMissing(old(rows), gen)
    {
      var before := rows;
      var i := 0;
      while i < |gen|
        invariant 0 <= i <= |gen|
        invariant rows == before + Missing(before, gen[..i])
      {
        assert gen[..i + 1][..i] == gen[..i];
        assert gen[..i + 1][i] == gen[i];
        var present := FindSk(before, gen[i].sk);
        if !present {
          rows := rows + [gen[i]];
        }
        i := i + 1;
      }
      assert gen[..i] == gen;
    }
  }
}
