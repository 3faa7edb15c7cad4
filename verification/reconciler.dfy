/**
 * `atualizar`: pick the newest release listed on the remote index, compare it
 * with the local version and, when the local store is absent or older, rebuild
 * the store from the downloaded file.
 *
 * The HTML scraping is abstracted to the cells the code inspects, date parsing
 * to an optional parsed value, and the download to a function from URL to its
 * result.
 */
module Reconciler {
  import opened Wrappers
  import opened Record
  import opened Store
  import opened Loader

  const IndexBase: string := "https://arquivos.receitafederal.gov.br/dados/cnpj/dados_abertos_cnpj/"

  /** The `<a>` of the link cell; its `href` attribute may be missing. */
  datatype Link = Link(href: Option<string>)

  /**
   * One `<tr>` of the index table: how many `<td>` it has, the stripped text of
   * the date cell, that text parsed as `%Y-%m-%d %H:%M` (None when it does not
   * parse), and the link found in the link cell.
   */
  datatype ListingRow = ListingRow(cells: nat, dateText: string, parsed: Option<int>, link: Option<Link>)

  /** A release: its date and the relative path of its directory. */
  datatype Entry = Entry(date: int, href: string)

  /** What fetching the index gave: a network or parse failure, or the table rows. */
  datatype Discovery = Unreachable | Listing(rows: seq<ListingRow>)

  /** Python's `sub in s`. */
  predicate Contains(s: string, sub: string)
    decreases |s|
  {
    if |s| < |sub| then false else s[..|sub|] == sub || Contains(s[1..], sub)
  }

  /** The row passes every check before its `href` is read. */
  predicate Qualifies(row: ListingRow) {
    && row.cells >= 3
    && row.dateText != ""
    && row.dateText != "-"
    && row.parsed.Some?
    && row.link.Some?
  }

  /** A qualifying link without `href`: the `"temp" not in href` test raises and discovery fails. */
  predicate Broken(row: ListingRow) {
    Qualifies(row) && row.link.value.href.None?
  }

  /** The row becomes a candidate release. */
  predicate Usable(row: ListingRow) {
    Qualifies(row) && row.link.value.href.Some? && !Contains(row.link.value.href.value, "temp")
  }

  function EntryOf(row: ListingRow): Entry
    requires Usable(row)
  {
    Entry(row.parsed.value, row.link.value.href.value)
  }

  /**
   * The candidate list built by the scraping loop: one entry per usable row,
   * in table order; no list at all when some row is broken.
   */
  function Candidates(rows: seq<ListingRow>): Option<seq<Entry>>
    decreases |rows|
  {
    if |rows| == 0 then Some([])
    else if Broken(rows[0]) then None
    else
      match Candidates(rows[1..])
      case None => None
      case Some(rest) => if Usable(rows[0]) then Some([EntryOf(rows[0])] + rest) else Some(rest)
  }

  /** Discovery fails exactly when some row is broken. */
  lemma {:induction false} CandidatesFailure(rows: seq<ListingRow>)
    ensures Candidates(rows).None? <==> exists i :: 0 <= i < |rows| && Broken(rows[i])
    decreases |rows|
  {
    if |rows| > 0 {
      CandidatesFailure(rows[1..]);
      assert forall i :: 1 <= i < |rows| ==> rows[i] == rows[1..][i - 1];
    }
  }

  /** Every usable row contributes its entry. */
  lemma {:induction false} CandidatesComplete(rows: seq<ListingRow>)
    ensures Candidates(rows).Some? ==>
      forall i :: 0 <= i < |rows| && Usable(rows[i]) ==> EntryOf(rows[i]) in Candidates(rows).value
    decreases |rows|
  {
    if |rows| > 0 && Candidates(rows).Some? {
      var tail := rows[1..];
      CandidatesComplete(tail);
      var es := Candidates(rows).value;
      var rest := Candidates(tail).value;
      assert es == (if Usable(rows[0]) then [EntryOf(rows[0])] else []) + rest;
      forall i | 0 <= i < |rows| && Usable(rows[i])
        ensures EntryOf(rows[i]) in es
      {
        if i == 0 {
          assert es[0] == EntryOf(rows[0]);
        } else {
          assert rows[i] == tail[i - 1];
          assert EntryOf(tail[i - 1]) in rest;
        }
      }
    }
  }

  /** `e` is the entry of some usable row. */
  predicate FromUsableRow(rows: seq<ListingRow>, e: Entry) {
    exists i :: 0 <= i < |rows| && Usable(rows[i]) && e == EntryOf(rows[i])
  }

  /** Every entry comes from a usable row. */
  lemma {:induction false} CandidatesSound(rows: seq<ListingRow>)
    ensures Candidates(rows).Some? ==> forall j :: 0 <= j < |Candidates(rows).value| ==>
      FromUsableRow(rows, Candidates(rows).value[j])
    decreases |rows|
  {
    if |rows| > 0 && Candidates(rows).Some? {
      var tail := rows[1..];
      CandidatesSound(tail);
      var es := Candidates(rows).value;
      var rest := Candidates(tail).value;
      var off := if Usable(rows[0]) then 1 else 0;
      assert es == (if Usable(rows[0]) then [EntryOf(rows[0])] else []) + rest;
      forall j | 0 <= j < |es|
        ensures FromUsableRow(rows, es[j])
      {
        if j < off {
          assert Usable(rows[0]) && es[j] == EntryOf(rows[0]);
        } else {
          assert es[j] == rest[j - off];
          assert FromUsableRow(tail, rest[j - off]);
          var k :| 0 <= k < |tail| && Usable(tail[k]) && rest[j - off] == EntryOf(tail[k]);
          assert rows[k + 1] == tail[k];
        }
      }
    }
  }

  /** A usable row in front adds its entry in front. */
  lemma CandidatesUsableCons(row: ListingRow, rest: seq<ListingRow>)
    requires Usable(row) && Candidates(rest).Some?
    ensures Candidates([row] + rest) == Some([EntryOf(row)] + Candidates(rest).value)
  {
    assert ([row] + rest)[1..] == rest;
  }

  /** `max(entries, key=date)`: the first entry of maximal date. */
  function LatestIndex(es: seq<Entry>): (i: nat)
    requires |es| > 0
    ensures i < |es|
    ensures forall j :: 0 <= j < |es| ==> es[j].date <= es[i].date
    ensures forall j :: 0 <= j < i ==> es[j].date < es[i].date
    decreases |es|
  {
    if |es| == 1 then 0
    else
      var k := LatestIndex(es[..|es| - 1]);
      if es[|es| - 1].date > es[k].date then |es| - 1 else k
  }

  datatype Discovered = DiscoveryFailed | NoEntries | Found(entry: Entry)

  /** The discovery step: the newest usable release, if any. */
  function Discover(d: Discovery): Discovered {
    match d
    case Unreachable => DiscoveryFailed
    case Listing(rows) =>
      match Candidates(rows)
      case None => DiscoveryFailed
      case Some(es) => if |es| == 0 then NoEntries else Found(es[LatestIndex(es)])
  }

  /**
   * The release found comes from a usable row, and no usable row carries a
   * later date; nothing is found exactly when no row is usable.
   */
  lemma DiscoverPicksNewest(rows: seq<ListingRow>)
    ensures Discover(Listing(rows)).Found? ==>
      && FromUsableRow(rows, Discover(Listing(rows)).entry)
      && (forall i :: 0 <= i < |rows| && Usable(rows[i]) ==> rows[i].parsed.value <= Discover(Listing(rows)).entry.date)
    ensures Discover(Listing(rows)).NoEntries? <==>
      (forall i :: 0 <= i < |rows| ==> !Broken(rows[i]) && !Usable(rows[i]))
  {
    CandidatesFailure(rows);
    CandidatesComplete(rows);
    CandidatesSound(rows);
    var c := Candidates(rows);
    if c.Some? && |c.value| > 0 {
      var es := c.value;
      var k := LatestIndex(es);
      forall i | 0 <= i < |rows| && Usable(rows[i])
        ensures rows[i].parsed.value <= es[k].date
      {
        assert EntryOf(rows[i]) in es;
      }
    }
  }

  /** The reload rule: no local version, or a strictly newer remote one. */
  predicate NeedsReload(local: Option<int>, remote: int) {
    local.None? || remote > local.value
  }

  /** The archive URL of a release directory. */
  function ZipUrl(href: string): string {
    IndexBase + href + "Simples.zip"
  }

  /**
   * What the download gave: the HTTP status, and the row source `parse_csv`
   * finds after extraction (None when no SIMPLES file is there).
   */
  datatype Fetch = Fetch(status: int, extracted: Option<seq<seq<string>>>)

  datatype Outcome =
    | DiscoveryError
    | NothingFound
    | UpToDate(remote: int, local: int)
    | DownloadFailed(status: int)
    | SourceMissing(remote: int)
    | Updated(remote: int)
  {
    /** The outcomes reached only after deciding to reload. */
    predicate Reloading() {
      DownloadFailed? || SourceMissing? || Updated?
    }
  }

  /** What one run of `atualizar` reports, and the database file it leaves. */
  datatype Run = Run(outcome: Outcome, disk: Disk)

  /**
   * One run of `atualizar`. The store is touched only after the decision to
   * reload and a successful download: then it is reset and loaded, and on a
   * completed load it carries the new release as its version.
   */
  function Reconcile(disk: Disk, discovery: Discovery, fetch: string -> Fetch, now: int): (run: Run)
    ensures Discover(discovery).DiscoveryFailed? ==> run == Run(DiscoveryError, disk)
    ensures Discover(discovery).NoEntries? ==> run == Run(NothingFound, disk)
    ensures Discover(discovery).Found? ==>
      (run.outcome.Reloading() <==> NeedsReload(LocalVersion(disk), Discover(discovery).entry.date))
    ensures Discover(discovery).Found? && NeedsReload(LocalVersion(disk), Discover(discovery).entry.date) ==>
      (run.outcome.DownloadFailed? <==> fetch(ZipUrl(Discover(discovery).entry.href)).status != 200)
    ensures run.outcome.DownloadFailed? ==> run.outcome.status == fetch(ZipUrl(Discover(discovery).entry.href)).status
    ensures (run.outcome.UpToDate? || run.outcome.SourceMissing? || run.outcome.Updated?) ==>
      Discover(discovery).Found? && run.outcome.remote == Discover(discovery).entry.date
    ensures Discover(discovery).Found? && NeedsReload(LocalVersion(disk), Discover(discovery).entry.date)
            && fetch(ZipUrl(Discover(discovery).entry.href)).status == 200 ==>
      var f := fetch(ZipUrl(Discover(discovery).entry.href));
      && run.disk == Some(LoadCsv(DbInit(disk).value, f.extracted, Discover(discovery).entry.date, now))
      && (run.outcome.Updated? <==> f.extracted.Some?)
    ensures !run.outcome.SourceMissing? && !run.outcome.Updated? ==> run.disk == disk
    ensures run.outcome.UpToDate? ==> LocalVersion(disk) == Some(run.outcome.local) && run.outcome.remote <= run.outcome.local
    ensures Discover(discovery).Found? && !NeedsReload(LocalVersion(disk), Discover(discovery).entry.date) ==>
      run.outcome.UpToDate?
    ensures run.outcome.NothingFound? ==> Discover(discovery).NoEntries?
    ensures run.outcome.DiscoveryError? ==> Discover(discovery).DiscoveryFailed?
    ensures run.outcome.Updated? ==> LocalVersion(run.disk) == Some(run.outcome.remote)
    ensures run.outcome.SourceMissing? ==> LocalVersion(run.disk) == None && run.disk.Some? && run.disk.value.simples == map[]
  {
    match Discover(discovery)
    case DiscoveryFailed => Run(DiscoveryError, disk)
    case NoEntries => Run(NothingFound, disk)
    case Found(e) =>
      var local := LocalVersion(disk);
      if !NeedsReload(local, e.date) then Run(UpToDate(e.date, local.value), disk)
      else
        var f := fetch(ZipUrl(e.href));
        if f.status != 200 then Run(DownloadFailed(f.status), disk)
        else
          var empty := DbInit(disk).value;
          match f.extracted
          case None => Run(SourceMissing(e.date), Some(empty))
          case Some(rows) => Run(Updated(e.date), Some(LoadCsv(empty, Some(rows), e.date, now)))
  }

  /**
   * A completed update holds exactly the fold of the downloaded file's accepted
   * rows, with a one-row metadata log for the release found.
   */
  lemma UpdatedStoreContents(disk: Disk, discovery: Discovery, fetch: string -> Fetch, now: int)
    requires Reconcile(disk, discovery, fetch, now).outcome.Updated?
    ensures var e := Discover(discovery).entry;
      var rows := fetch(ZipUrl(e.href)).extracted.value;
      && Reconcile(disk, discovery, fetch, now).disk
           == Some(Database(ApplyAll(map[], Accepted(rows)), [Meta(e.date, now)]))
      && WellKeyed(Reconcile(disk, discovery, fetch, now).disk.value.simples)
  {
    var e := Discover(discovery).entry;
    var rows := fetch(ZipUrl(e.href)).extracted.value;
    ApplyAllWellKeyed(map[], Accepted(rows));
  }

  /** Right after an update, the same index reports the store as current. */
  lemma ReconcileConverges(disk: Disk, discovery: Discovery, fetch: string -> Fetch, now: int,
                           fetch': string -> Fetch, now': int)
    requires Reconcile(disk, discovery, fetch, now).outcome.Updated?
    ensures var r := Reconcile(disk, discovery, fetch, now);
      Reconcile(r.disk, discovery, fetch', now') == Run(UpToDate(r.outcome.remote, r.outcome.remote), r.disk)
  {
  }

  /**
   * A reload whose source file was missing leaves a store without metadata,
   * so the next run with the same index reloads again.
   */
  lemma ReconcileSelfHeals(disk: Disk, discovery: Discovery, fetch: string -> Fetch, now: int,
                           fetch': string -> Fetch, now': int)
    requires Reconcile(disk, discovery, fetch, now).outcome.SourceMissing?
    ensures Reconcile(Reconcile(disk, discovery, fetch, now).disk, discovery, fetch', now').outcome.Reloading()
  {
  }

  /**
   * A load interrupted after some batches were committed leaves rows but no
   * metadata row, so the store has no version and the next run reloads.
   */
  lemma ReconcileResumesInterruptedLoad(committed: seq<Row>, discovery: Discovery, fetch: string -> Fetch, now: int)
    requires Discover(discovery).Found?
    ensures LocalVersion(Some(Database(ApplyAll(map[], committed), []))) == None
    ensures Reconcile(Some(Database(ApplyAll(map[], committed), [])), discovery, fetch, now).outcome.Reloading()
  {
  }

  /** Of two usable rows, the later-dated one is found. */
  lemma DiscoverNewerOfTwo(r0: ListingRow, r1: ListingRow)
    requires Usable(r0) && Usable(r1)
    requires r0.parsed.value < r1.parsed.value
    ensures Discover(Listing([r0, r1])) == Found(EntryOf(r1))
  {
    var es := [EntryOf(r0), EntryOf(r1)];
    assert Candidates([r1]) == Some([EntryOf(r1)]) by {
      CandidatesUsableCons(r1, []);
      assert [r1] + [] == [r1];
      assert [EntryOf(r1)] + [] == [EntryOf(r1)];
    }
    assert Candidates([r0, r1]) == Some(es) by {
      CandidatesUsableCons(r0, [r1]);
      assert [r0] + [r1] == [r0, r1];
      assert [EntryOf(r0)] + [EntryOf(r1)] == es;
    }
    assert LatestIndex(es) == 1;
  }

  /** Without a local store, the newer of two listed releases is downloaded and loaded. */
  lemma NewestOfTwoIsDownloaded(older: string, newer: string, fetch: string -> Fetch, now: int)
    requires !Contains(older, "temp") && !Contains(newer, "temp")
    requires fetch(ZipUrl(newer)).status == 200 && fetch(ZipUrl(newer)).extracted.Some?
    ensures var rows := [ListingRow(5, "2024-05-01 10:00", Some(202405011000), Some(Link(Some(older)))),
                         ListingRow(5, "2024-06-01 10:00", Some(202406011000), Some(Link(Some(newer))))];
      Reconcile(None, Listing(rows), fetch, now).outcome == Updated(202406011000)
  {
    var r0 := ListingRow(5, "2024-05-01 10:00", Some(202405011000), Some(Link(Some(older))));
    var r1 := ListingRow(5, "2024-06-01 10:00", Some(202406011000), Some(Link(Some(newer))));
    DiscoverNewerOfTwo(r0, r1);
  }
}
