# SimplesNacional — a Dafny model of the local registry snapshot

SimplesNacional keeps a local SQLite copy of the Receita Federal "Simples
Nacional" enrollment file, keyed by CNPJ_BASE (the first eight digits of a
CNPJ). This project models its core, `simplesnacional/__init__.py`, as pure
Dafny functions and a few methods, and proves what the code promises:

- **Record decoding** (`Record`): `DadosSimples` and `_format_date`. Eight-digit
  `YYYYMMDD` values are shown as `DD/MM/YYYY`; everything else passes through.
- **Store** (`Store`): the SIMPLES table as `map<string, Row>`, the METADATA
  log as a sequence, `db_init`, `INSERT OR REPLACE`, `get_local_version` and
  `info`. A missing database file is `None`.
- **Loader** (`Loader`): the row loop of `parse_csv`. Rows whose arity is not 7
  are dropped. Accepted rows are flushed in batches of 100000. The
  `file_reader_generator` byte counter drives progress. A METADATA row is
  appended when the load completes.
- **Query** (`Query`): CNPJ normalisation and the exact-key lookup of `consulta`.
- **Reconciler** (`Reconciler`): `atualizar`. It filters the scraped index rows,
  picks the newest release (Python's `max`, so the first of equal maxima), and
  decides whether to reload. It then performs the store transition that
  follows.

Modelling choices:

- The table stores rows raw. `parse_csv` inserts the CSV fields unchanged, and
  dates are reformatted only when `consulta` builds a `DadosSimples`.
- The batched loop (`Loader.LoadRows`) is proved equal to the in-order
  insert-or-replace fold for any batch size. The store-level transition
  (`Loader.LoadCsv`) is therefore stated with the fold. `Loader.ParseCsv`
  connects the two at the fixed batch size.
- Release dates and load timestamps are integers. The download is a function
  from URL to `(status, rows found after extraction)`.
- A qualifying index row whose link has no `href` makes `"temp" not in href`
  raise. The outer handler turns that into a connection error, so the model
  reports a discovery failure for the whole listing, not a skipped row.
- If `parse_csv` finds no SIMPLES file, it returns after `db_init` has already
  wiped the store. The store is left empty with no metadata, so the next
  reconciliation reloads (`Reconciler.ReconcileSelfHeals`).
- Each source function has one Dafny function that computes it:
  - `db_init` is `Store.DbInit`, `get_local_version` is `Store.LocalVersion`, and `info` is `Store.Info`;
  - the insert loop of `parse_csv` is `Store.ApplyAll` over `Loader.Accepted`, and its effect on the store is `Loader.LoadCsv`;
  - `re.sub(r'\D', '', cnpj)` is `Query.Digits`;
  - the entry-building loop of `atualizar` is `Reconciler.Candidates`, the `max` over entries is `Reconciler.Discover`, and the version test is `Reconciler.NeedsReload`.

  These functions are specified by the lemmas in the table below.
- The progress counter adds `len(line) + 1` per line, exactly as written. The
  line already carries its newline, so for LF-terminated files the total counts
  one byte per line more than the file holds. The model states the counter as
  written and does not compare it with the file size.

## Model

| member | source | states |
|---|---|---|
| Record.FormatDate | simplesnacional/__init__.py:27-31 | an 8-digit value is shown as a `DD/MM/YYYY` string that reads back to it; any other value (empty, other length, non-digit) is returned unchanged |
| Record.FormatParseRoundTrip | simplesnacional/__init__.py:27-31 | every `DD/MM/YYYY` string is the formatting of the 8-digit value it reads back to, so the rearrangement is a bijection between the two shapes |
| Record.RendersUnique | simplesnacional/__init__.py:27-31 | the shown form of a stored value is unique, so the decoder's contract fixes every field |
| Record.FormatDateInjective | simplesnacional/__init__.py:28-30 | two different 8-digit values never share a displayed date |
| Record.FormatDateIdempotent | simplesnacional/__init__.py:28-31 | formatting a formatted value changes nothing |
| Record.DisplayShapedValuePassesThrough | simplesnacional/__init__.py:28-31 | every stored value already shaped `DD/MM/YYYY` passes through unchanged and is shown exactly like the 8-digit value it spells |
| Record.Decode | simplesnacional/__init__.py:17-25 | CNPJ_BASE, OPCAO_SIMPLES and OPCAO_MEI are kept verbatim; each of the four date columns is shown by the date rule |
| Store.InsertOrReplace | simplesnacional/__init__.py:145-150 | one upsert puts the row under its CNPJ_BASE, adds that key, and leaves every other key as it was |
| Store.LastIndexOf | simplesnacional/__init__.py:145-150 | locates the last row of a batch sequence with a given key; no later row has that key, and none at all when absent |
| Store.ApplyAllAppend | simplesnacional/__init__.py:178-184 | upserting `a` then `b` equals upserting `a + b`, so how the rows are split into batches does not matter |
| Store.ApplyAllLastWins | simplesnacional/__init__.py:145-150 | after the upserts, a key carried by some row holds the last such row; any other key keeps its previous value or stays absent |
| Store.ApplyAllIdempotent | simplesnacional/__init__.py:145-150 | upserting the same rows a second time leaves the table unchanged |
| Store.ApplyAllWellKeyed | simplesnacional/__init__.py:104-105 | if every row sits under its own CNPJ_BASE, that stays true after any upserts |
| Store.AppendMeta | simplesnacional/__init__.py:191-193 | the metadata insert appends one row; the earlier log is kept as a prefix and the records table is untouched |
| Store.DbInitResets | simplesnacional/__init__.py:101-117 | after `db_init`, whatever the previous state, both tables are empty, the local version reads as absent and `info` reports no release and zero rows |
| Store.LocalVersionIsLastAppended | simplesnacional/__init__.py:210-214 | the local version (and the release `info` reports) is DATA_BASE of the most recently appended METADATA row |
| Loader.Accepted | simplesnacional/__init__.py:175-177 | the accepted rows all have seven fields and are no more than the input rows |
| Loader.AcceptedMembers | simplesnacional/__init__.py:175-177 | a row is accepted iff it occurs in the input with exactly seven fields |
| Loader.AcceptedAppend | simplesnacional/__init__.py:175-177 | filtering commutes with concatenation, so input order is kept |
| Loader.AcceptedSnoc | simplesnacional/__init__.py:176-177 | a 7-field row is appended to the accepted rows; a row of any other arity, 6 or 8 included, adds nothing |
| Loader.AcceptedStep | simplesnacional/__init__.py:175-177 | consuming the next input row extends the accepted prefix by that row iff it has seven fields |
| Loader.Flush | simplesnacional/__init__.py:179-181 | one `executemany` of the pending batch extends the applied rows by exactly that batch |
| Loader.LoadRows | simplesnacional/__init__.py:142-184 | whatever the batch size, the table ends as the in-order upsert fold of the accepted rows; the flushed batches join back to exactly those rows; no flush is empty, none exceeds the batch size, and all but the last hold exactly the batch size |
| Loader.ProgressUpdates | simplesnacional/__init__.py:163-172 | the counter totals `len(line) + 1` per line, and the final update equals that total; every report inside the loop is a prefix total more than 1 MiB past the previous report (it fires only then); at every line boundary the count is at most 1 MiB past the latest report not above it (it never stays silent longer); the total is at most 1 MiB past the last report |
| Loader.Report | simplesnacional/__init__.py:169-171 | recording a report appends the current count, which is a prefix total more than 1 MiB past the previous report |
| Loader.ParseCsv | simplesnacional/__init__.py:135-193 | the batched loader at batch size 100000 yields the store transition of `LoadCsv`: unchanged without a source file, otherwise the upsert fold plus one appended METADATA row |
| Loader.LoadCsvCommits | simplesnacional/__init__.py:175-193 | a completed load makes its release the local version, keeps the old log as a prefix, and leaves every accepted key holding its last accepted row |
| Loader.ReloadIsDeterministic | simplesnacional/__init__.py:101-117 | a reset followed by a load of the same rows gives the same table and row count whatever was stored before |
| Loader.LoadCsvTwiceSameTable | simplesnacional/__init__.py:145-150 | loading the same file again on top of its own load leaves the table unchanged |
| Query.DigitsFilter | simplesnacional/__init__.py:43 | stripping non-digits leaves only digits, never lengthens the input, and keeps an all-digit string whole |
| Query.DigitsAppend | simplesnacional/__init__.py:43 | stripping non-digits distributes over concatenation |
| Query.DigitsOfSeparators | simplesnacional/__init__.py:43 | a digit-free string strips to nothing |
| Query.NormaliseCnpj | simplesnacional/__init__.py:43-44 | the key is digits only, of length min(8, number of digits in the input), and is the first digits of the input in order |
| Query.NormaliseIgnoresSeparators | simplesnacional/__init__.py:43-44 | inserting digit-free separators anywhere in an identifier does not change its key |
| Query.NormaliseDigitString | simplesnacional/__init__.py:43-44 | an all-digit identifier of at least eight digits is keyed by its first eight |
| Query.NormaliseIdempotent | simplesnacional/__init__.py:43-44 | a key normalises to itself |
| Query.FormattedCnpjKey | simplesnacional/__init__.py:41-44 | a CNPJ written `AA.BBB.CCC/DDDD-EE` is keyed by `AABBBCCC` |
| Query.Consulta | simplesnacional/__init__.py:41-61 | a record is returned iff the database exists and holds the normalised key, and it is that row decoded |
| Query.ConsultaReturnsKey | simplesnacional/__init__.py:55-60 | on a store whose rows sit under their own keys, a found record's CNPJ_BASE is the normalised key |
| Query.ConsultaAfterReload | simplesnacional/__init__.py:55-61 | after reset and load, a lookup returns the decoded last accepted row with the normalised key, and nothing when no accepted row has it |
| Query.ConsultaEmptyStore | simplesnacional/__init__.py:43-61 | `11.222.333/0001-81` is keyed by `11222333`, and on a freshly reset store its lookup finds nothing |
| Query.LastWriteWinsScenario | simplesnacional/__init__.py:175-184 | two rows for `11222333` in one batch: the lookup shows the second row, with `01/01/2021` and `02/02/2021` as its dates |
| Reconciler.CandidatesFailure | simplesnacional/__init__.py:243-258 | discovery fails exactly when some qualifying row has a link without `href` |
| Reconciler.CandidatesComplete | simplesnacional/__init__.py:241-252 | every row with at least 3 cells, a date text that is neither empty nor `-` and parses, a link, and an `href` without `temp` contributes its entry |
| Reconciler.CandidatesSound | simplesnacional/__init__.py:241-252 | every candidate entry comes from such a row |
| Reconciler.CandidatesUsableCons | simplesnacional/__init__.py:248-252 | a usable row ahead of the rest puts its entry ahead of the rest's entries |
| Reconciler.LatestIndex | simplesnacional/__init__.py:263 | the chosen entry has the maximal date, and every earlier entry is strictly older: the first maximum, as `max` returns |
| Reconciler.DiscoverPicksNewest | simplesnacional/__init__.py:236-263 | the release found comes from a usable row and no usable row is newer; "nothing found" happens iff no row is broken and none is usable |
| Reconciler.Reconcile | simplesnacional/__init__.py:219-310 | a discovery error and "nothing found" leave the store as it was; once a release is found, a reload is attempted iff the local version is absent or strictly older; a reload ends as a download failure iff the archive request does not return status 200, and that outcome carries the status and leaves the store as it was; after a status-200 download the store is reset and then loaded with the rows `parse_csv` finds, and the run ends `Updated` iff such rows were found; without a completed reset the store is unchanged; every outcome that names a remote date names the release found; a run ends up to date iff a release is found and it is not newer than the local version; "nothing found" and the discovery error are reported only for an empty listing and a failed discovery respectively; a completed update makes the remote release the local version; a missing source file leaves an empty store without a version |
| Reconciler.UpdatedStoreContents | simplesnacional/__init__.py:302-303 | a completed update holds exactly the upsert fold of the accepted rows `parse_csv` finds and a one-row log for the release found |
| Reconciler.ReconcileConverges | simplesnacional/__init__.py:262-272 | right after an update, running again against the same index reports up to date and changes nothing |
| Reconciler.ReconcileSelfHeals | simplesnacional/__init__.py:122-133 | after a reload that found no source file, the next run against the same index reloads again |
| Reconciler.ReconcileResumesInterruptedLoad | simplesnacional/__init__.py:174-192 | a store holding committed batches but no METADATA row has no version, so the next run that finds a release reloads |
| Reconciler.DiscoverNewerOfTwo | simplesnacional/__init__.py:262-263 | of two usable rows, the later-dated one is found |
| Reconciler.NewestOfTwoIsDownloaded | simplesnacional/__init__.py:262-303 | with no local store and releases dated 2024-05-01 and 2024-06-01, the 2024-06-01 release is downloaded and loaded |

## Left out

- HTTP requests and BeautifulSoup scraping (lines 232-254, 275-289) are network and foreign-library work. The index is modelled as the cells the code inspects, and the download as a function from URL to its result. Download progress is not modelled.
- Zip extraction, directory listing, file sizes and file removal (lines 127-133, 141, 197-201, 294-300) are filesystem I/O. What `parse_csv` finds after extraction is a parameter of the download. An exception during extraction, which the code does not catch, is not modelled.
- The file `parse_csv` reads is the first directory entry whose name contains "SIMPLES" (lines 127-128). The model assumes it is the file extracted from this download. A SIMPLES file left over in the directory can be read instead, and its rows would then be stamped with the new release date. A leftover file remains when its removal failed (lines 197-201) or when an earlier load was interrupted before the removal.
- SQLite specifics are not modelled: PRAGMAs, `CREATE INDEX` (no observable effect on lookups), connections, and a database file that exists without its tables. The `info` row count falls back to 0 on an exception; that fallback is not modelled.
- `csv.reader` quoting and latin-1 decoding are not modelled. Rows arrive already split, and the progress counter receives the decoded lines.
- `strptime`/`strftime`/`now()` are abstracted. Release dates are integers, and whether a date text parses is given per row. The load timestamp is a parameter.
- Rich console output and progress rendering, panels, and the argparse `cli` are presentation.
- `isdigit` and `\D` are modelled over ASCII digits only, not Unicode digits.
- An exception from the archive request itself or from a malformed `content-length` header (lines 276-277) is outside the `try` and would end `atualizar` with an uncaught error. The model always receives a status from the download instead.
- An exception in the middle of `parse_csv`'s batch loop (lines 174-184), after the reset at line 302, is not caught. It leaves the batches committed so far and no METADATA row. The model has no interrupted run; `Reconciler.ReconcileResumesInterruptedLoad` states that such a store is reloaded on the next run.
- Printed status messages are represented by the outcome labels of `Reconciler.Reconcile`. `parse_csv` returns nothing when the source file is missing, and the model names that case `SourceMissing`.
