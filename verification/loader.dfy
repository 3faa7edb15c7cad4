/**
 * The row loop of `parse_csv`: rows of the wrong arity are dropped, accepted
 * rows are flushed into the SIMPLES table in batches, the bytes read are
 * counted for progress, and one METADATA row commits the load.
 */
module Loader {
  import opened Wrappers
  import opened Record
  import opened Store

  /** Rows per `executemany` in `parse_csv`. */
  const BatchSize: nat := 100000

  /** Progress granularity of `file_reader_generator`. */
  const MiB: nat := 1024 * 1024

  /** The rows with exactly seven fields, in input order. */
  function Accepted(rows: seq<seq<string>>): (r: seq<Row>)
    ensures |r| <= |rows|
    decreases |rows|
  {
    if |rows| == 0 then []
    else if |rows[0]| == 7 then [rows[0]] + Accepted(rows[1..])
    else Accepted(rows[1..])
  }

  lemma {:induction false} AcceptedAppend(a: seq<seq<string>>, b: seq<seq<string>>)
    ensures Accepted(a + b) == Accepted(a) + Accepted(b)
    decreases |a|
  {
    if |a| == 0 {
      assert a + b == b;
    } else {
      assert (a + b)[0] == a[0];
      assert (a + b)[1..] == a[1..] + b;
      AcceptedAppend(a[1..], b);
    }
  }

  /** Exactly the rows of arity 7 are accepted, none other. */
  lemma {:induction false} AcceptedMembers(rows: seq<seq<string>>, x: seq<string>)
    ensures x in Accepted(rows) <==> x in rows && |x| == 7
    decreases |rows|
  {
    if |rows| > 0 {
      assert rows == [rows[0]] + rows[1..];
      AcceptedMembers(rows[1..], x);
    }
  }

  /** A row of 7 fields is appended to the accepted rows; any other row contributes nothing. */
  lemma AcceptedSnoc(rows: seq<seq<string>>, row: seq<string>)
    ensures |row| == 7 ==> Accepted(rows + [row]) == Accepted(rows) + [row]
    ensures |row| != 7 ==> Accepted(rows + [row]) == Accepted(rows)
  {
    AcceptedAppend(rows, [row]);
    assert [row][1..] == [];
  }

  /** Consuming row `i` extends the accepted prefix by that row when it has 7 fields. */
  lemma AcceptedStep(rows: seq<seq<string>>, i: nat)
    requires i < |rows|
    ensures |rows[i]| == 7 ==> Accepted(rows[..i + 1]) == Accepted(rows[..i]) + [rows[i]]
    ensures |rows[i]| != 7 ==> Accepted(rows[..i + 1]) == Accepted(rows[..i])
  {
    assert rows[..i + 1] == rows[..i] + [rows[i]];
    AcceptedSnoc(rows[..i], rows[i]);
  }

  /** The batches flushed, joined back together in flush order. */
  function Concat(batches: seq<seq<Row>>): seq<Row>
    decreases |batches|
  {
    if |batches| == 0 then []
    else Concat(batches[..|batches| - 1]) + batches[|batches| - 1]
  }

  lemma ConcatSnoc(batches: seq<seq<Row>>, b: seq<Row>)
    ensures Concat(batches + [b]) == Concat(batches) + b
  {
    assert (batches + [b])[..|batches|] == batches;
  }

  /**
   * The batching loop of `parse_csv`. Whatever the batch size, the table ends
   * as the in-order insert-or-replace fold of the accepted rows; every flush
   * but the last holds exactly `batchSize` rows and no flush is empty.
   */
  method LoadRows(t: Table, rows: seq<seq<string>>, batchSize: nat)
    returns (table: Table, flushes: seq<seq<Row>>)
    requires batchSize > 0
    ensures table == ApplyAll(t, Accepted(rows))
    ensures Concat(flushes) == Accepted(rows)
    ensures forall j :: 0 <= j < |flushes| ==> 0 < |flushes[j]| <= batchSize
    ensures forall j :: 0 <= j < |flushes| - 1 ==> |flushes[j]| == batchSize
  {
    table := t;
    flushes := [];
    var batch: seq<Row> := [];
    var i := 0;
    while i < |rows|
      invariant 0 <= i <= |rows|
      invariant |batch| < batchSize
      invariant Concat(flushes) + batch == Accepted(rows[..i])
      invariant table == ApplyAll(t, Concat(flushes))
      invariant forall j :: 0 <= j < |flushes| ==> |flushes[j]| == batchSize
    {
      var row := rows[i];
      AcceptedStep(rows, i);
      if |row| == 7 {
        assert Concat(flushes) + (batch + [row]) == (Concat(flushes) + batch) + [row];
        batch := batch + [row];
      }
      if |batch| >= batchSize {
        table, flushes := Flush(t, table, flushes, batch);
        batch := [];
      }
      i := i + 1;
    }
    assert rows[..i] == rows;
    if |batch| > 0 {
      table, flushes := Flush(t, table, flushes, batch);
    } else {
      assert Concat(flushes) + batch == Concat(flushes);
    }
  }

  /** One `executemany` of the pending batch, recorded as a flush. */
  method Flush(t: Table, table: Table, flushes: seq<seq<Row>>, batch: seq<Row>)
    returns (table': Table, flushes': seq<seq<Row>>)
    requires table == ApplyAll(t, Concat(flushes))
    ensures table' == ApplyAll(t, Concat(flushes'))
    ensures flushes' == flushes + [batch]
    ensures Concat(flushes') == Concat(flushes) + batch
  {
    ApplyAllAppend(t, Concat(flushes), batch);
    ConcatSnoc(flushes, batch);
    table' := ApplyAll(table, batch);
    flushes' := flushes + [batch];
  }

  /** Bytes counted for a sequence of lines: each line's length plus one. */
  function Bytes(lines: seq<string>): nat
    decreases |lines|
  {
    if |lines| == 0 then 0 else Bytes(lines[..|lines| - 1]) + |lines[|lines| - 1]| + 1
  }

  /** Reading line `i` adds its length plus one. */
  lemma BytesStep(lines: seq<string>, i: nat)
    requires i < |lines|
    ensures Bytes(lines[..i + 1]) == Bytes(lines[..i]) + |lines[i]| + 1
  {
    assert lines[..i + 1][..i] == lines[..i];
  }

  /** The value reported before update `j` (zero before the first). */
  function Before(updates: seq<nat>, j: nat): nat
    requires j <= |updates|
  {
    if j == 0 then 0 else updates[j - 1]
  }

  /** Each report is more than 1 MiB past the one before it. */
  predicate Spaced(updates: seq<nat>) {
    forall j :: 0 <= j < |updates| ==> updates[j] > Before(updates, j) + MiB
  }

  /** `u` is the byte count after some non-empty prefix of the lines. */
  predicate IsPrefixTotal(lines: seq<string>, u: nat) {
    exists k :: 0 < k <= |lines| && u == Bytes(lines[..k])
  }

  /** The latest report not above `b` (zero when there is none). */
  function LatestAtMost(updates: seq<nat>, b: nat): (r: nat)
    ensures r <= b
    decreases |updates|
  {
    if |updates| == 0 then 0
    else if updates[|updates| - 1] <= b then updates[|updates| - 1]
    else LatestAtMost(updates[..|updates| - 1], b)
  }

  /** A count `b` is at most 1 MiB past the latest report not above it. */
  predicate Covered(updates: seq<nat>, b: nat) {
    b <= LatestAtMost(updates, b) + MiB
  }

  /** In a spaced sequence no report exceeds the last one. */
  lemma {:induction false} LatestAtMostBound(updates: seq<nat>, b: nat)
    requires Spaced(updates)
    ensures LatestAtMost(updates, b) <= Before(updates, |updates|)
    decreases |updates|
  {
    if |updates| > 1 {
      var init := updates[..|updates| - 1];
      assert forall j :: 0 <= j < |init| ==> init[j] == updates[j];
      assert Spaced(init) by {
        forall j | 0 <= j < |init|
          ensures init[j] > Before(init, j) + MiB
        {
          assert updates[j] > Before(updates, j) + MiB;
        }
      }
      LatestAtMostBound(init, b);
      assert updates[|updates| - 1] > Before(updates, |updates| - 1) + MiB;
    }
  }

  lemma CoveredSnoc(updates: seq<nat>, x: nat, b: nat)
    requires Spaced(updates)
    requires x > Before(updates, |updates|) + MiB
    requires Covered(updates, b)
    ensures Covered(updates + [x], b)
  {
    var u := updates + [x];
    assert u[..|u| - 1] == updates;
    LatestAtMostBound(updates, b);
  }

  /** Every line boundary up to `i` is covered by the reports. */
  predicate CoveredUpTo(lines: seq<string>, updates: seq<nat>, i: nat)
    requires i <= |lines|
  {
    forall k :: 0 <= k <= i ==> Covered(updates, Bytes(lines[..k]))
  }

  lemma CoveredUpToStep(lines: seq<string>, updates: seq<nat>, i: nat)
    requires i < |lines|
    requires CoveredUpTo(lines, updates, i) && Covered(updates, Bytes(lines[..i + 1]))
    ensures CoveredUpTo(lines, updates, i + 1)
  {
  }

  lemma CoveredUpToSnoc(lines: seq<string>, updates: seq<nat>, x: nat, i: nat)
    requires i <= |lines|
    requires Spaced(updates)
    requires x > Before(updates, |updates|) + MiB
    requires CoveredUpTo(lines, updates, i)
    ensures CoveredUpTo(lines, updates + [x], i)
  {
    forall k | 0 <= k <= i
      ensures Covered(updates + [x], Bytes(lines[..k]))
    {
      CoveredSnoc(updates, x, Bytes(lines[..k]));
    }
  }

  lemma SpacedSnoc(updates: seq<nat>, x: nat)
    requires Spaced(updates)
    requires x > Before(updates, |updates|) + MiB
    ensures Spaced(updates + [x])
  {
    var u := updates + [x];
    forall j | 0 <= j < |u|
      ensures u[j] > Before(u, j) + MiB
    {
      if j < |updates| {
        assert Before(u, j) == Before(updates, j);
      }
    }
  }

  /** What the loop knows about its reports after `i` lines. */
  predicate ReportsOk(lines: seq<string>, reported: seq<nat>, i: nat)
    requires i <= |lines|
  {
    && Spaced(reported)
    && (forall j :: 0 <= j < |reported| ==> IsPrefixTotal(lines, reported[j]))
    && CoveredUpTo(lines, reported, i)
  }

  /**
   * The progress counter of `file_reader_generator`: `reports` are the values
   * passed to `progress.update` inside the loop, `total` the final one. Each
   * report is a prefix total more than 1 MiB past the previous report; at
   * every line boundary the count is at most 1 MiB past the latest report not
   * above it, so no more than 1 MiB goes unreported; the final update is the
   * grand total.
   */
  method ProgressUpdates(lines: seq<string>) returns (reports: seq<nat>, total: nat)
    ensures total == Bytes(lines)
    ensures Spaced(reports)
    ensures forall j :: 0 <= j < |reports| ==> IsPrefixTotal(lines, reports[j])
    ensures CoveredUpTo(lines, reports, |lines|)
    ensures Before(reports, |reports|) <= total <= Before(reports, |reports|) + MiB
  {
    var processed: nat := 0;
    var last: nat := 0;
    reports := [];
    var i := 0;
    while i < |lines|
      invariant 0 <= i <= |lines|
      invariant processed == Bytes(lines[..i])
      invariant last == Before(reports, |reports|)
      invariant last <= processed <= last + MiB
      invariant ReportsOk(lines, reports, i)
    {
      BytesStep(lines, i);
      processed := processed + |lines[i]| + 1;
      if processed - last > MiB {
        reports := Report(lines, i, reports, processed);
        last := processed;
      } else {
        NoReport(lines, reports, i, processed);
      }
      i := i + 1;
    }
    assert lines[..i] == lines;
    total := processed;
  }

  /** A line that does not trigger a report leaves the count within 1 MiB of the last report. */
  lemma NoReport(lines: seq<string>, reported: seq<nat>, i: nat, processed: nat)
    requires i < |lines| && processed == Bytes(lines[..i + 1])
    requires Before(reported, |reported|) <= processed <= Before(reported, |reported|) + MiB
    requires ReportsOk(lines, reported, i)
    ensures ReportsOk(lines, reported, i + 1)
  {
    assert Covered(reported, processed);
    CoveredUpToStep(lines, reported, i);
  }

  /** Records a report of the count after line `i`, keeping the loop's facts about reports. */
  method Report(lines: seq<string>, i: nat, reported: seq<nat>, processed: nat) returns (reported': seq<nat>)
    requires i < |lines| && processed == Bytes(lines[..i + 1])
    requires processed > Before(reported, |reported|) + MiB
    requires ReportsOk(lines, reported, i)
    ensures reported' == reported + [processed]
    ensures ReportsOk(lines, reported', i + 1)
  {
    reported' := reported + [processed];
    SpacedSnoc(reported, processed);
    assert IsPrefixTotal(lines, processed) by {
      assert 0 < i + 1 <= |lines| && processed == Bytes(lines[..i + 1]);
    }
    assert forall j :: 0 <= j < |reported| ==> reported'[j] == reported[j];
    CoveredUpToSnoc(lines, reported, processed, i);
    assert reported'[|reported|] == processed;
    CoveredUpToStep(lines, reported', i);
  }

  /**
   * `parse_csv` on the store: without a source file nothing happens; otherwise
   * the accepted rows are upserted and one METADATA row is appended.
   */
  function LoadCsv(s: Database, csv: Option<seq<seq<string>>>, version: int, now: int): Database {
    match csv
    case None => s
    case Some(rows) => AppendMeta(Database(ApplyAll(s.simples, Accepted(rows)), s.metadata), Meta(version, now))
  }

  /**
   * `parse_csv` with its fixed batch size: the batched loop produces exactly
   * the store transition `LoadCsv` describes.
   */
  method ParseCsv(s: Database, csv: Option<seq<seq<string>>>, version: int, now: int) returns (s': Database)
    ensures s' == LoadCsv(s, csv, version, now)
  {
    match csv
    case None =>
      s' := s;
    case Some(rows) =>
      var table, flushes := LoadRows(s.simples, rows, BatchSize);
      s' := AppendMeta(Database(table, s.metadata), Meta(version, now));
  }

  /**
   * A completed load commits its release: the local version becomes it, the
   * earlier log is kept as a prefix, and every key of an accepted row holds the
   * last such row.
   */
  lemma LoadCsvCommits(s: Database, rows: seq<seq<string>>, version: int, now: int)
    ensures var s' := LoadCsv(s, Some(rows), version, now);
      && LocalVersion(Some(s')) == Some(version)
      && s'.metadata[..|s.metadata|] == s.metadata
      && forall i :: 0 <= i < |Accepted(rows)| ==>
           var k := Accepted(rows)[i][0];
           k in s'.simples && s'.simples[k] == Accepted(rows)[LastIndexOf(Accepted(rows), k).value]
  {
    var acc := Accepted(rows);
    forall i | 0 <= i < |acc|
      ensures acc[i][0] in ApplyAll(s.simples, acc)
      ensures ApplyAll(s.simples, acc)[acc[i][0]] == acc[LastIndexOf(acc, acc[i][0]).value]
    {
      ApplyAllLastWins(s.simples, acc, acc[i][0]);
    }
  }

  /** A full reload (reset, then load) depends only on the rows, and doing it twice gives the same table. */
  lemma ReloadIsDeterministic(d1: Disk, d2: Disk, rows: seq<seq<string>>, v1: int, v2: int, n1: int, n2: int)
    ensures LoadCsv(DbInit(d1).value, Some(rows), v1, n1).simples
         == LoadCsv(DbInit(d2).value, Some(rows), v2, n2).simples
    ensures |LoadCsv(DbInit(d1).value, Some(rows), v1, n1).simples|
         == |LoadCsv(DbInit(d2).value, Some(rows), v2, n2).simples|
  {
  }

  /** Loading the same file again on top of a loaded table leaves the table as it was. */
  lemma LoadCsvTwiceSameTable(s: Database, rows: seq<seq<string>>, v1: int, v2: int, n1: int, n2: int)
    ensures LoadCsv(LoadCsv(s, Some(rows), v1, n1), Some(rows), v2, n2).simples
         == LoadCsv(s, Some(rows), v1, n1).simples
  {
    ApplyAllIdempotent(s.simples, Accepted(rows));
  }
}
