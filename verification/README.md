# Lemmy image optimizer: the scan-dedup-process pipeline

This is a Dafny model of the scan-dedup-process pipeline of
`lemmy_image_optimizer.py`. The script walks a directory tree and lists the
image files it finds. In fast mode it skips the files already recorded in an
SQLite table of processed paths. It then re-encodes each candidate in place,
recording its path first, and counts successes and failures.

The model has three modules, one per component:

- `ProcessedStore` (`store.dfy`) models the `Database` class. The `images`
  table has `path` as its primary key, so it is modelled as a `set` of paths.
  The two SQL statements are modelled as functions that return a `Result`.
  `SelectPath` models the lookup and `InsertRow` models the insert and its
  commit. The `try`/`except` wrappers of the source become `AlreadyExists`
  and `InsertPath`. `AlreadyExists` answers "exists" on any lookup error.
  `InsertPath` swallows every insert error.
- `FileScanner` (`scanner.dfy`) models `ImageSearch.find_files`. The
  directory traversal is given as a sequence of `WalkEntry(dir, files)` in the
  order it reports them. Two nested loops mirror the source: `FindFiles` loops
  over directories and `ScanDirectory` loops over files. Their results are
  proved equal to two independent reference definitions. `WalkPaths` is every
  listed file as `dir + "/" + name`. `NewOnly` is the subsequence of those
  paths whose lookup answers "not there".
- `BatchRunner` (`batch.dfy`) models `ImageSearch.optimize_images`. It loops
  over the candidates, inserts each path and then re-encodes the file. It
  returns the two counts, the store afterwards, and the trace of calls it made
  on the store and the codec.

Three things are oracles passed in as parameters, each a `Path -> bool`:

- whether a lookup meets an engine error (`lookupFails`);
- whether an insert meets an engine error (`insertFails`). A duplicate path
  always fails, because of the primary key;
- whether re-encoding succeeds (`optimizes`).

Within one scan or batch, each oracle is a fixed function of the path. A
later scan may be given a different lookup oracle, as in
`RerunAfterLookupErrors`.

## Model

| member | source | states |
|---|---|---|
| `ProcessedStore.SelectPath` | lemmy_image_optimizer.py:24-25 | The lookup errors exactly when the engine fails. Otherwise it yields a row exactly when the path is in the table, and that row is the path itself. |
| `ProcessedStore.InsertRow` | lemmy_image_optimizer.py:35-36 | A path already present always raises the primary-key violation of the table declared at line 17. The insert succeeds exactly when the path is absent and the engine does not fail. On success it adds exactly that one path. |
| `ProcessedStore.AlreadyExists` | lemmy_image_optimizer.py:21-30 | Fail-safe: any lookup error answers "exists". Without an error, the answer is "exists" exactly when the table holds the path. |
| `ProcessedStore.InsertPath` | lemmy_image_optimizer.py:32-39 | Never yields an error, because its result is always a store. The store only grows, and by at most the given path. The path is present afterwards exactly when it was already present or the insert did not fail. |
| `ProcessedStore.InsertWithoutEffect` | lemmy_image_optimizer.py:32-39 | Inserting a path already present, or an insert that fails, leaves the store unchanged. |
| `ProcessedStore.InsertIdempotent` | lemmy_image_optimizer.py:32-39 | Recording a path twice has the same effect as recording it once. |
| `ProcessedStore.InsertThenExists` | lemmy_image_optimizer.py:21-39 | After a successful insert, the lookup of that path answers "exists", whatever the lookup oracle says. |
| `ProcessedStore.ExistsMonotone` | lemmy_image_optimizer.py:21-30 | A path answered "exists" is still answered "exists" on any larger store. |
| `FileScanner.FullPath` | lemmy_image_optimizer.py:65 | The full path is the directory, then one `/`, then the file name. |
| `FileScanner.DirPaths` | lemmy_image_optimizer.py:64-65 | One full path per listed file of a directory, in listing order. |
| `FileScanner.WalkPaths` | lemmy_image_optimizer.py:60-65 | The walk's paths number exactly as many as the files listed over all directories. |
| `FileScanner.NewOnly` | lemmy_image_optimizer.py:66-70 | The fast filter is never longer than its input. It keeps only input paths whose lookup answers "not there". |
| `FileScanner.ScanDirectory` | lemmy_image_optimizer.py:64-70 | The inner loop returns every path of the directory in bulk mode. In fast mode it returns exactly the fast filter of those paths. |
| `FileScanner.FindFiles` | lemmy_image_optimizer.py:57-71 | In bulk mode it returns every listed file as `dir + "/" + name`, in walk order. In fast mode it returns the fast filter of that sequence. |
| `FileScanner.WalkPathsAt` | lemmy_image_optimizer.py:57-71 | Bulk order: the j-th file of the i-th directory is at position (files in earlier directories) + j. So each listed file has exactly one entry, in walk order. |
| `FileScanner.WalkPathsOnlyWalked` | lemmy_image_optimizer.py:60-70 | Every path the bulk scan returns is the full path of some listed file. |
| `FileScanner.WalkPathsMembership` | lemmy_image_optimizer.py:60-70 | A path is in the bulk result exactly when it is the full path of some listed file. |
| `FileScanner.EmptyDirectoryContributesNothing` | lemmy_image_optimizer.py:62-63 | A directory with no files, at any position in the walk, does not change the result. |
| `FileScanner.NewOnlyMembership` | lemmy_image_optimizer.py:66-70 | A path is kept in fast mode exactly when it is in the input and its lookup answers "not there". |
| `FileScanner.NewOnlyPositions` | lemmy_image_optimizer.py:66-70 | The fast result is the subsequence of the input at exactly the positions whose lookup answers "not there". Relative order is kept, and every such position is taken. |
| `FileScanner.FastIsSubsequenceOfBulk` | lemmy_image_optimizer.py:66-70 | Over the same walk and store, the fast result is a subsequence of the bulk result. |
| `FileScanner.LookupErrorSkipsOnlyInFast` | lemmy_image_optimizer.py:66-70 | A listed file whose lookup errors is included in bulk mode and excluded in fast mode. |
| `FileScanner.NothingNewIff` | lemmy_image_optimizer.py:66-70 | The fast result is empty exactly when every walked path is answered "exists". |
| `FileScanner.FailingLookupFindsNothing` | lemmy_image_optimizer.py:57-71 | If the lookup errors on every listed file, the fast scan finds nothing. |
| `FileScanner.ScanExample` | lemmy_image_optimizer.py:57-71 | Example: a tree holds `a.jpg`, `c.jpg` and an empty sub-directory, and `a.jpg` is already recorded. Bulk mode returns both files. Fast mode returns only `c.jpg`. |
| `BatchRunner.Successes` | lemmy_image_optimizer.py:84-85 | The number of files that re-encode without error is at most the batch size. |
| `BatchRunner.Failures` | lemmy_image_optimizer.py:86-87 | The number of files whose re-encoding raises is at most the batch size. |
| `BatchRunner.OutcomesPartition` | lemmy_image_optimizer.py:82-87 | Every file has exactly one outcome: successes plus failures equals the batch size. |
| `BatchRunner.OptimizeImages` | lemmy_image_optimizer.py:77-89 | `success + failed == len(files)`. `success` counts the files whose re-encoding succeeds and `failed` counts the rest. The store only grows, and afterwards holds exactly the old paths plus the batch files whose insert did not fail. Each file's insert call comes right before its optimize call. The optimize call carries whether the store held the file at that moment: it did exactly when the file was already recorded or its insert did not fail. So a file that fails to re-encode is still recorded. |
| `BatchRunner.RerunFindsNothing` | lemmy_image_optimizer.py:57-89 | Take a scan in either mode, then its batch with no insert meeting an engine error. A primary-key clash on a path already stored is still allowed. Afterwards the store holds exactly the old paths plus the scanned ones. A fast scan of the same walk against that store returns the empty sequence. |
| `BatchRunner.RerunAfterLookupErrors` | lemmy_image_optimizer.py:57-89 | Take a fast scan, then its batch with no insert meeting an engine error. Afterwards the store holds exactly the old paths plus the scanned ones. Then a second fast scan runs against that store, and its lookups may err differently. The second scan finds exactly the walked files that were not in the store before, whose first lookup erred and whose second did not. |

## Left out

- The image codec (`Image.open` / `save`, lines 48-50) is a foreign, destructive, in-place call. It is modelled only as the `optimizes` oracle. The quality and optimize flags (lines 43-46) have no effect on the model.
- The database engine, the connection, and table creation with `CREATE TABLE IF NOT EXISTS` (lines 13-19) are not modelled. The table is an abstract set, and the engine's errors are oracles.
- `cursor()` is called outside the `try` block in both store methods (lines 22 and 33). A failure there would propagate. The model treats cursor creation as infallible, because the connection is opened once and never closed. So `InsertPath` never yields an error.
- A commit that fails after a successful `execute` (line 36) is modelled as an insert that fails and leaves the store unchanged. The row that the same connection could still see before the commit is not modelled.
- `os.walk` traversal order depends on the filesystem. The walk is an input sequence. Its sub-directory names are dropped, because the scanner never reads them.
- Within one scan the oracles depend only on the path, not on how many times they have been called. `RerunFindsNothing` uses one lookup oracle for both scans, so a lookup that errors for a path errors in the later scan too. `RerunAfterLookupErrors` drops that assumption and gives the second scan its own lookup oracle.
- Paths are Dafny strings, which hold only Unicode scalar values. `os.walk` (line 60) returns file-name bytes that cannot be decoded as lone surrogates (U+DC80 to U+DCFF). Binding such a path to the SQL statements (lines 24 and 35) raises an encoding error. So `already_exists` answers "exists" (line 30), and every insert is swallowed (line 38). Such files are never picked up in fast mode and are re-encoded in every bulk run. The model cannot write these paths. It represents them only as paths whose `lookupFails` and `insertFails` oracles are both true.
- `show_progress` (lines 73-75) only prints. Its percentage comes from float division and `int()`. The `complete` counter that feeds it (line 80) is left out with it.
- `dir_path`, argparse, logging, the early `sys.exit()` when no files are found, and the timing and summary output of the entry point (lines 92-138) are command-line and I/O plumbing.
- Insert-before-optimize (lines 83-84) is modelled as written. A file that fails to re-encode is recorded anyway and is skipped by later fast runs. `OptimizeImages` and `RerunFindsNothing` state this consequence. The model does not replace this ordering with an insert after success.
