/**
 * The local database: the SIMPLES table keyed by CNPJ_BASE and the
 * append-only METADATA log. A missing database file is `None`.
 */
module Store {
  import opened Wrappers
  import opened Record

  type Table = map<string, Row>

  /** One METADATA row: the release date (DATA_BASE) and the load time (DATA_DOWNLOAD). */
  datatype Meta = Meta(dataBase: int, dataDownload: int)

  /** The SIMPLES table and the METADATA log of one database file. */
  datatype Database = Database(simples: Table, metadata: seq<Meta>)

  /** The database file: absent, or present with both tables. */
  type Disk = Option<Database>

  /** Every row is stored under its own CNPJ_BASE column. */
  predicate WellKeyed(t: Table) {
    forall k :: k in t ==> t[k][0] == k
  }

  /** `db_init`: drop and recreate both tables, whatever was there before. */
  function DbInit(disk: Disk): Disk {
    Some(Database(map[], []))
  }

  /** One `INSERT OR REPLACE` keyed on CNPJ_BASE. */
  function InsertOrReplace(t: Table, row: Row): (t': Table)
    ensures t'.Keys == t.Keys + {row[0]}
    ensures t'[row[0]] == row
    ensures forall k :: k in t && k != row[0] ==> t'[k] == t[k]
  {
    t[row[0] := row]
  }

  /** The rows applied one after another, in order (`executemany`). */
  function ApplyAll(t: Table, rows: seq<Row>): Table
    decreases |rows|
  {
    if |rows| == 0 then t else ApplyAll(InsertOrReplace(t, rows[0]), rows[1..])
  }

  /** Index of the last row carrying key `k`, if there is one. */
  function LastIndexOf(rows: seq<Row>, k: string): (r: Option<nat>)
    ensures r.Some? ==> r.value < |rows| && rows[r.value][0] == k
    ensures r.Some? ==> forall j :: r.value < j < |rows| ==> rows[j][0] != k
    ensures r.None? ==> forall j :: 0 <= j < |rows| ==> rows[j][0] != k
    decreases |rows|
  {
    if |rows| == 0 then None
    else if rows[|rows| - 1][0] == k then Some(|rows| - 1)
    else LastIndexOf(rows[..|rows| - 1], k)
  }

  /** Applying `a` then `b` is applying `a + b`: batches compose. */
  lemma {:induction false} ApplyAllAppend(t: Table, a: seq<Row>, b: seq<Row>)
    ensures ApplyAll(t, a + b) == ApplyAll(ApplyAll(t, a), b)
    decreases |a|
  {
    if |a| == 0 {
      assert a + b == b;
    } else {
      assert (a + b)[0] == a[0];
      assert (a + b)[1..] == a[1..] + b;
      ApplyAllAppend(InsertOrReplace(t, a[0]), a[1..], b);
    }
  }

  /**
   * Last writer wins: after the fold, a key carried by some row holds the last
   * such row, and any other key keeps what the table had before.
   */
  lemma {:induction false} ApplyAllLastWins(t: Table, rows: seq<Row>, k: string)
    ensures LastIndexOf(rows, k).Some? ==>
      k in ApplyAll(t, rows) && ApplyAll(t, rows)[k] == rows[LastIndexOf(rows, k).value]
    ensures LastIndexOf(rows, k).None? ==>
      (k in ApplyAll(t, rows) <==> k in t) && (k in t ==> ApplyAll(t, rows)[k] == t[k])
    decreases |rows|
  {
    if |rows| > 0 {
      var n := |rows| - 1;
      var init := rows[..n];
      assert rows == init + [rows[n]];
      ApplyAllAppend(t, init, [rows[n]]);
      assert ApplyAll(ApplyAll(t, init), [rows[n]])
          == InsertOrReplace(ApplyAll(t, init), rows[n]);
      ApplyAllLastWins(t, init, k);
    }
  }

  /** Two tables that agree on every key are equal. */
  lemma TablesEqual(a: Table, b: Table)
    requires forall k :: k in a <==> k in b
    requires forall k :: k in a ==> a[k] == b[k]
    ensures a == b
  {
  }

  /** Re-applying the same rows changes nothing. */
  lemma ApplyAllIdempotent(t: Table, rows: seq<Row>)
    ensures ApplyAll(ApplyAll(t, rows), rows) == ApplyAll(t, rows)
  {
    var once := ApplyAll(t, rows);
    var twice := ApplyAll(once, rows);
    forall k
      ensures (k in twice <==> k in once) && (k in once ==> twice[k] == once[k])
    {
      ApplyAllLastWins(t, rows, k);
      ApplyAllLastWins(once, rows, k);
    }
    TablesEqual(twice, once);
  }

  /** A table whose rows sit under their own keys stays so after any upserts. */
  lemma ApplyAllWellKeyed(t: Table, rows: seq<Row>)
    requires WellKeyed(t)
    ensures WellKeyed(ApplyAll(t, rows))
  {
    var r := ApplyAll(t, rows);
    forall k | k in r
      ensures r[k][0] == k
    {
      ApplyAllLastWins(t, rows, k);
    }
  }

  /** Appends one row to the METADATA log. */
  function AppendMeta(s: Database, m: Meta): (s': Database)
    ensures s'.simples == s.simples
    ensures |s'.metadata| == |s.metadata| + 1
    ensures s'.metadata[..|s.metadata|] == s.metadata
    ensures s'.metadata[|s.metadata|] == m
  {
    Database(s.simples, s.metadata + [m])
  }

  /**
   * `get_local_version`: DATA_BASE of the most recently appended METADATA row,
   * absent when there is no database or no row.
   */
  function LocalVersion(disk: Disk): Option<int> {
    match disk
    case None => None
    case Some(s) =>
      if |s.metadata| == 0 then None else Some(s.metadata[|s.metadata| - 1].dataBase)
  }

  /** The result of `info`: no database, or the current release (if any) and the row count. */
  datatype InfoReport = NoDatabase | Summary(dataBase: Option<int>, count: nat)

  function Info(disk: Disk): InfoReport {
    match disk
    case None => NoDatabase
    case Some(s) => Summary(LocalVersion(disk), |s.simples|)
  }

  /** After `db_init` both tables are empty and the local version reads as absent. */
  lemma DbInitResets(disk: Disk)
    ensures DbInit(disk).Some?
    ensures DbInit(disk).value.simples == map[] && DbInit(disk).value.metadata == []
    ensures LocalVersion(DbInit(disk)) == None
    ensures Info(DbInit(disk)) == Summary(None, 0)
    ensures WellKeyed(DbInit(disk).value.simples)
  {
  }

  /** The local version is the release of the row appended last; older rows are kept. */
  lemma LocalVersionIsLastAppended(s: Database, m: Meta)
    ensures LocalVersion(Some(AppendMeta(s, m))) == Some(m.dataBase)
    ensures Info(Some(AppendMeta(s, m))) == Summary(Some(m.dataBase), |s.simples|)
  {
  }
}
