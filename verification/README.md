# Cargobay: verified models of its stateful cores

Cargobay is an artifact registry. Its hard guarantees are not in any one handler but run across
loops, functions and whole runs. This project models those parts in Dafny and proves what they
promise:

- **Backup and restore** (`GoText`, `SqlText`, `Archive`, `Relational`, `Dump`, `TornDump`, `Backup`,
  `CargobayTables`, `Installation`). Rows become SQL literals, INSERT text and a length-framed archive, and an
  archive becomes statements that run in one transaction. The model has the printer, an inverse
  SQL lexer (string literals as in ISO/IEC 9075-2 section 5.3, array literals as in section 8.15
  of the PostgreSQL manual), the archive format, and a small relational engine with types, unique
  keys, foreign keys and the two statements a dump uses. The main results are
  `Backup.BackupRestoreIdentity`, for a dump read at one moment, and `TornDump.TornRestore`, for
  tables read one after another while others write.
- **Migrations** (`Migrate`, `MigrateProtocol`, `MigrateRuns`). One runner as a class, and any
  number of processes as a protocol of single steps with failures and crashes anywhere.
- **Cursor paging** (`Cursor`, `Paging`). One query as a class method, and walks over pages while
  the table changes between them.
- **Rescans** (`Rescan`, `Schedule`). The capped batch of the most overdue artifacts, bounded
  waiting, spacing, and the 64-bit due test with the scheduler loop around it, beside runs made by
  hand.
- **Limiters** (`Counting`, `RateLimit`, `LoginThrottle`). Fixed and sliding windows on an
  explicit clock that never goes back.
- **Counters, access keys, roles** (`Counters`, `AccessKeys`, `Rbac`). Conservation of download
  and bandwidth counters, acceptance of session keys over whole histories, and a role cache that
  must agree with its tables.

Code that changes state step by step is a class whose methods are proved against a specification
function; the lemmas about runs are about those functions.

## Where the code differs from what it says

- *Restore.* The comment on `DumpStatements` (backend/pkg/database/database.go:2453-2455) says each
  TRUNCATE succeeds without CASCADE. `group_members` and `registry_group_access`
  (backend/pkg/migrate/sql/migrations/022_add_groups.sql:8-22) refer to `users` and `registries`
  and are not in `backupTables`. So a restore runs exactly when both are empty in the target
  (`CargobayTables.CargobayRestore`), and a database with one user in one group refuses its own
  dump (`Installation.OwnDumpRefused`). A restore that fails changes nothing. PostgreSQL's own rule
  is stricter: it refuses to truncate a table that any other table's foreign key names, and under
  that rule no dump with these tables ever restores. Both rules are in the model.
- *Dump.* `DumpStatements` reads table after table outside any transaction
  (backend/pkg/database/database.go:2468-2501). Its dump restores exactly when, besides, every row
  read finds its parents among the rows read (`TornDump.TornRestore`). A user who is created and
  given a role between two reads makes a dump that no database takes
  (`Installation.TornDumpRefused`).
- *Paging.* `ListArtifactsCursor` accepts the order text in any case but compares it with `"desc"`
  exactly when it builds the cursor condition. Among the orders SQL accepts, walks return every
  row present throughout exactly for those whose condition follows the sort direction; `"DESC"`
  loses rows (`Paging.CoversIffCoherent`, `Paging.IncoherentOrderMisses`). The cursor carries a
  timestamp and no tie-breaker, so equal timestamps lose rows too (`Paging.TieLosesRow`): over a
  fixed table all walks return all matching rows exactly when no two of them have one timestamp
  (`Paging.TableCoveredIff`). Within one walk a row is lost exactly when a full page ends on its
  timestamp without it (`Paging.PresentIsReturned`).
- *Roles.* `role_permissions` has no foreign key and `DeleteRole` deletes only from `roles`. The
  rows of a deleted role stay, so the whole table equals the cache after a deletion exactly when
  the deleted role had no permissions (`Rbac.DeleteLeavesOrphans`, `Rbac.OrphanAfterDelete`). For
  roles that exist, cache and tables always agree while calls succeed. After a restart the cache holds the static roles alone, because `New` loads nothing else
  (backend/pkg/rbac/rbac.go:42-51); cache and tables then agree exactly when no custom role is
  stored, and a stored one grants nothing (`Rbac.RestartAgreesIff`, `Rbac.StoredRoleIsLost`).
  A creation whose save fails takes the role of that id out of the cache, even one that was there
  before, and names that differ only in spaces for underscores share an id
  (`Rbac.FailedCallLeaves`, `Rbac.SameRoleIff`).
- *Deactivation.* When the loop over a user's keys fails on the way, the keys it did not reach stay
  active, and those still live are accepted again once the user is active
  (`AccessKeys.PartialDeactivationIsFinalIff`).
- *Logout.* `handleLogout` looks a token up as it was sent, while a personal token is stored by its
  hash. A request with one is authenticated, but the logout answers that there is no such key and
  leaves it as it was (`AccessKeys.Store.Logout`).
- *Schedulers.* A run writes the time it started at only when it ends, and runs made by hand come in
  handlers of their own. A run made by hand that outlives a later scheduled one sets
  `last_checked_at` back, and the next scheduled run comes too early
  (`Schedule.OverlapBreaksSpacing`). When a scheduled run starts, the later ones stay spaced,
  whatever quiet events follow, exactly when no earlier run is in flight
  (`Schedule.SpacedIffNoneEarlier`). Quiet means that later runs start so too and are recorded, and
  that no restore brings back an older check.
- *Rate limit.* The fixed window admits at most `2 * max(limit, 1) - 1` requests in any closed
  interval of one window length; for every limit there is a run that reaches the bound.
- *Login throttle.* Nothing in the repository calls `RecordFailure` or wraps a handler in
  `LoginHandler`; the results are about the throttle as its comments say it is to be used.
- *Due tests.* They equal the unbounded comparison exactly up to 2562047 hours. One hour more
  wraps below zero, and a check just made is due again.

## Model

| member | source | states |
|---|---|---|
| SqlText.PgTextArrayLiteral | backend/pkg/database/database.go:2573-2581 | the printed array literal parses back to the given list, whatever bytes its items hold |
| SqlText.SequentialEscapes | backend/pkg/database/database.go:2576-2577 | the two replacements in sequence equal one simultaneous escape of backslashes and double quotes |
| SqlText.ArrayRoundTrip | backend/pkg/database/database.go:2571-2581 | array parsing inverts array printing for every list, empty lists and empty strings included |
| SqlText.LexStringOfQuoted | backend/pkg/database/database.go:2567-2569 | a string literal reads back to the same bytes and stops at its own closing quote |
| SqlText.LexConstantOfLiteral | backend/pkg/database/database.go:2529-2565 | every printed NULL, boolean, integer, string or string list reads back to its constant in front of a comma or parenthesis |
| GoText.ParseIntOfFormatInt | backend/pkg/database/database.go:2542-2549 | decimal printing of any integer reads back to it |
| SqlText.TruncateRoundTrip | backend/pkg/database/database.go:2464-2466 | a printed TRUNCATE parses to that statement on that table |
| SqlText.InsertRoundTrip | backend/pkg/database/database.go:2480-2493 | a printed INSERT parses to the same table, columns and values, whatever quotes, commas, parentheses or newlines the strings contain |
| SqlText.StatementsSpelled | backend/pkg/database/database.go:2465 | the spelling of a TRUNCATE and of an INSERT, for every table, two columns and two values; wider rows are joined the same way |
| SqlText.ValuesSpelled | backend/pkg/database/database.go:2529-2569 | the spelling of NULL, the booleans and integers, and of a string with and without a quote |
| SqlText.ArraySpelled | backend/pkg/database/database.go:2573-2581 | the spelling of an array of none, one and two items, and where a backslash goes |
| Archive.EncodeArchive | backend/pkg/backup/backup.go:259-278 | the framed bytes decode to exactly the statements given |
| Archive.DecodeArchive | backend/pkg/backup/backup.go:281-315 | the reader loop accepts exactly what the format allows, and what it returns re-encodes to the same bytes |
| Archive.BigEndianRoundTrip | backend/pkg/backup/backup.go:263-266 | an eight-byte length reads back to itself when it fits |
| Archive.FromBigEndianRoundTrip | backend/pkg/backup/backup.go:299-307 | any bytes are the header of the number they read as |
| Archive.DecodeOfEncode | backend/pkg/backup/backup.go:259-315 | decoding an encoding gives the statements back |
| Archive.DecodedIsEncoding | backend/pkg/backup/backup.go:281-315 | whatever decodes is the encoding of what it decodes to |
| Archive.ArchiveBijection | backend/pkg/backup/backup.go:259-315 | bytes decode to a list if and only if they are that list's encoding |
| Archive.DecodeOfTruncated | backend/pkg/backup/backup.go:293-314 | a truncated archive is refused or yields a prefix of its statements |
| Archive.ShortArchive | backend/pkg/backup/backup.go:259-268 | the bytes of an archive of one short statement: tag, length with the most significant byte first, text |
| Relational.CoerceOfPrinted | backend/pkg/database/database.go:2529-2565 | a printed value cast to its column's type is the value, arrays included |
| Relational.TypedIffSurvives | backend/pkg/database/database.go:2529-2565 | a column takes exactly the values that survive being printed and cast to its type |
| Relational.InsertAllowedIff | backend/pkg/database/database.go:2509-2523 | an INSERT is refused exactly when its row does not fit, repeats a unique key or refers to nothing |
| Relational.TruncateAllowedMeans | backend/pkg/database/database.go:2453-2455 | under either rule, exactly when a TRUNCATE is refused |
| Relational.BuildRowOfPrinted | backend/pkg/database/database.go:2480-2493 | the INSERT printed from a row builds exactly that row |
| Relational.ExecKeepsValid | backend/pkg/database/database.go:2509-2523 | types, unique keys and referential integrity hold after every statement that succeeds |
| Dump.TruncatesRun | backend/pkg/database/database.go:2464-2466 | the child-to-parent TRUNCATEs all run, and empty exactly the listed tables, if and only if no row or key outside the list pins one of them |
| Dump.InsertsRun | backend/pkg/database/database.go:2468-2501 | from emptied tables the parent-to-child INSERTs of any valid database always run and load exactly its rows |
| Dump.RestoreOutcome | backend/pkg/database/database.go:2461-2523 | the result of a dump on any target, both when it runs and when it fails |
| Dump.RunKeepsValid | backend/pkg/database/database.go:2509-2523 | every prefix of a run that succeeds leaves a database that meets every constraint |
| Backup.Database.SelectAll | backend/pkg/database/database.go:2468-2479 | the rows read are the rows the table has at that moment, each as often as it is there |
| Backup.Database.PrintRows | backend/pkg/database/database.go:2480-2493 | one INSERT per row, in the order read |
| Backup.Database.DumpTable | backend/pkg/database/database.go:2468-2501 | the INSERTs of exactly the rows of the table as that read saw it |
| Backup.Database.TruncateStatements | backend/pkg/database/database.go:2464-2466 | one TRUNCATE per listed table, last table first |
| Backup.Database.InsertStatements | backend/pkg/database/database.go:2468-2501 | the INSERTs of every listed table in list order, each table as its own read saw it; a read that fails fails the whole |
| Backup.Database.DumpStatements | backend/pkg/database/database.go:2461-2503 | all TRUNCATEs, then all INSERTs, of what the reads saw while others may write; fails exactly when a read does |
| Backup.Database.RestoreStatements | backend/pkg/database/database.go:2509-2523 | all statements take effect, or none does; constraints hold after either |
| Backup.BackupService.Run | backend/pkg/backup/backup.go:84-123 | succeeds exactly when storage, every read and the upload do; then the store holds the encoded dump of what the reads saw under the key, and otherwise it is unchanged |
| Backup.BackupService.Restore | backend/pkg/backup/backup.go:135-163 | succeeds exactly when the storage resolves, the archive is there and decodes, every statement runs and the commit succeeds; otherwise the database is unchanged |
| Backup.BackupRestoreIdentity | backend/pkg/backup/backup.go:84-163 | for every source read at one moment and every target, dump, encode, decode, restore runs exactly when nothing pins a listed table; then listed tables hold exactly the source's rows, other tables are untouched, and every constraint holds after every single statement |
| Backup.OneViewIsAtomic | backend/pkg/database/database.go:2468-2501 | reads that all see the same database are one read of it at one moment |
| TornDump.AtomicReadIsClosed | backend/pkg/database/database.go:2468-2501 | in a dump read at one moment every row finds its parents |
| TornDump.RunIsClosed | backend/pkg/database/database.go:2509-2523 | a dump that restores anywhere has every row's parents among its rows |
| TornDump.TornRestore | backend/pkg/database/database.go:2461-2523 | a dump whose tables were each read from a valid database, if not the same one, restores exactly when nothing pins a listed table and every row read finds its parents among the rows read; then the listed tables hold exactly what was read |
| CargobayTables.BackupTablesAreOrdered | backend/pkg/database/database.go:2439-2451 | the list has no duplicates and puts every parent before its children, for the schema's foreign keys |
| CargobayTables.NothingDangles | backend/pkg/migrate/sql/schema.sql:45-124 | in every database of this schema no access key, role assignment, registry grant or group row refers to what is not there |
| CargobayTables.CargobayRestore | backend/pkg/database/database.go:2453-2503 | the exact condition under which a restore runs for this schema |
| CargobayTables.EmptyInstallationRestores | backend/pkg/database/database.go:2461-2523 | where TRUNCATE fails only on referencing rows, every backup restores into an installation with empty tables, and the listed tables are then the source's; under PostgreSQL's stricter rule none does, by CargobayRestore |
| Installation.BackedUpIffInstalled | backend/pkg/database/database.go:2439-2451 | of all installed tables the list leaves out the totals and the three group tables, and no other |
| Installation.EverythingRestored | backend/pkg/database/database.go:2461-2523 | a backup restored into an empty installation brings back every installed table but those four |
| Installation.InstalledSchemaIsCargobay | backend/pkg/migrate/sql/schema.sql:11-230 | the assumptions on the schema are met by one with the listed tables, the group tables and stats, their primary keys and the declared foreign keys |
| CargobayTables.OwnDumpPinned | backend/pkg/database/database.go:2453-2455 | any database with an outside row that refers into the list refuses its own dump |
| Installation.OwnDumpRefused | backend/pkg/migrate/sql/migrations/022_add_groups.sql:8-13 | one user in one group is enough: that database refuses its own full dump |
| Installation.TornDumpRefused | backend/pkg/database/database.go:2468-2501 | a user created and given a role between the reads of two tables makes the dump one that no database takes |
| CargobayTables.RestoreKeepsStats | backend/pkg/database/database.go:2444-2451 | a restore leaves the instance totals alone and brings back the source's artifact rows |
| Migrate.Runner.AppliedVersions | backend/pkg/migrate/migrate.go:90-113 | the set of recorded versions |
| Migrate.Runner.Pending | backend/pkg/migrate/migrate.go:117-134 | exactly the files not recorded, in file order |
| Migrate.UnappliedIs | backend/pkg/migrate/migrate.go:117-134 | what is pending is every unrecorded file and nothing else, in the order of the files |
| Migrate.Runner.ApplyMigration | backend/pkg/migrate/migrate.go:186-203 | the file's effect and its row come together or not at all; a recorded name fails |
| Migrate.Runner.ApplyPending | backend/pkg/migrate/migrate.go:151-162 | the loop over the pending files, up to the first that fails |
| Migrate.Runner.Apply | backend/pkg/migrate/migrate.go:141-163 | a success has every file recorded; a failure comes from the baseline, or leaves a proper prefix of the pending files applied and recorded, with the next one failing on the schema reached or recorded already |
| Migrate.ApplyFilesStops | backend/pkg/migrate/migrate.go:151-162 | the loop commits a prefix of its list, records exactly that, and succeeds if and only if the list is through |
| Migrate.UnappliedOfPrefix | backend/pkg/migrate/migrate.go:117-134 | against a recorded prefix, exactly the remaining files are pending |
| Migrate.ApplyFilesFromPrefix | backend/pkg/migrate/migrate.go:141-163 | an uninterrupted run from any prefix reaches the schema of all files and returns exactly the rest |
| MigrateProtocol.BaselineKeepsInv | backend/pkg/migrate/migrate.go:141-149 | a baseline beside other runners never fails on a reachable schema and keeps the invariant |
| MigrateProtocol.RecordKeepsInv | backend/pkg/migrate/migrate.go:186-203 | the primary key lets only the next file's transaction, and only one process, insert its row |
| MigrateProtocol.CommitKeepsInv | backend/pkg/migrate/migrate.go:186-203 | a commit extends the prefix by exactly one file for every process at once |
| MigrateProtocol.StepKeepsInv | backend/pkg/migrate/migrate.go:117-203 | every step of every process, failures and crashes included, keeps the invariant |
| MigrateProtocol.CommittedPrefix | backend/pkg/migrate/migrate.go:117-203 | in every interleaving the recorded rows are a growing duplicate-free prefix of the files and the schema is baseline plus those files in order |
| MigrateProtocol.FullApplyReachesTheEnd | backend/pkg/migrate/migrate.go:141-163 | once any Apply returns without error, the database is what one uninterrupted Apply makes of the initial one |
| MigrateProtocol.AppliedFilesAreRecorded | backend/pkg/migrate/migrate.go:136-163 | every file an Apply reports is recorded |
| MigrateRuns.BackupComesFirst | backend/cmd/server/main.go:99-121 | in every interleaving each migration a process executes comes after an inspection in the same start, and if the database it saw had its artifacts table, a successful backup of its own lies between |
| MigrateRuns.BackupOnlyWhenNeeded | backend/cmd/server/main.go:103-117 | a backup is attempted only in a start that found the artifacts table at its inspection and some file unrecorded at its check |
| MigrateRuns.AStartCanFinish | backend/pkg/migrate/migrate.go:136-203 | from every reachable state, whoever has crashed, a process can start and finish with every file applied, when the SQL of the files runs |
| Cursor.CursorRoundTrip | backend/pkg/database/database.go:1957-1990 | a cursor is never empty and decodes to the timestamp and limit it was made from |
| Cursor.DecodeMeans | backend/pkg/database/database.go:1965-1990 | what a cursor text decodes to, and that one without exactly one bar or with an unreadable part is refused |
| Paging.EffectiveLimit | backend/pkg/database/database.go:1993-2003 | the page size is always between 1 and 200 |
| Paging.Database.Query | backend/pkg/database/database.go:2056-2082 | an ordered read of at most n rows leaves out no row that sorts before one it returns |
| Paging.Database.ListArtifactsCursor | backend/pkg/database/database.go:1993-2098 | every row has its registry in the allow list and the namespace and type asked for, and lies beyond the cursor; the page is in order and no longer than the size; a last page from the start leaves no such row out; an empty allow list gives an empty page and a bad order fails |
| Paging.PageIsFiltered | backend/pkg/database/database.go:2023-2059 | what the three filters and the cursor let through, and that a last page leaves none of it out |
| Paging.OrderTextsSpelled | backend/pkg/database/database.go:2052-2059 | SQL takes "asc" and "desc" in any mixture of capitals, and only the latter descends |
| Paging.ReturnedOnceInOrder | backend/pkg/database/database.go:1993-2098 | over a changing table, with page sizes that change and with any ties, no row is returned twice and all pages together are in order |
| Paging.PresentIsReturned | backend/pkg/database/database.go:1993-2098 | walk by walk: a matching row present throughout is returned if and only if no full page ends on its timestamp without it |
| Paging.PresentIsReturnedOnce | backend/pkg/database/database.go:1993-2098 | with distinct timestamps it is returned exactly once |
| Paging.FixedTableIsListed | backend/pkg/database/database.go:1993-2098 | on a fixed table with distinct timestamps the pages concatenate to the whole sorted list |
| Paging.WalkExists | backend/pkg/database/database.go:1993-2098 | on a fixed table every page size has a walk that ends |
| Paging.TieLosesRow | backend/pkg/database/database.go:2091-2095 | two rows of one timestamp read one per page: the walk ends without the second |
| Paging.OnePerTime | backend/pkg/database/database.go:2038-2059 | a walk of one row per page never shows two rows of one timestamp |
| Paging.TableCoveredIff | backend/pkg/database/database.go:1993-2098 | all complete walks over a fixed table, whatever their page sizes, return all its matching rows if and only if no two of them have one timestamp |
| Paging.IncoherentOrderMisses | backend/pkg/database/database.go:2038-2059 | an order in capitals sorts one way and continues the other, so a walk of two rows ends without the older |
| Paging.CoversIffCoherent | backend/pkg/database/database.go:2038-2059 | among the orders SQL accepts, walks cover the table exactly for those whose condition follows the sort direction |
| Rescan.LessIsStrictWeakOrder | backend/pkg/vulnerability/rescanner.go:194-202 | the batch comparator is a strict weak order, as sorting needs |
| Rescan.Rescanner.ListAll | backend/pkg/vulnerability/rescanner.go:148-163 | the listings of all registries and types in turn |
| Rescan.Rescanner.CollectDue | backend/pkg/vulnerability/rescanner.go:182-192 | exactly the due artifacts with their latest scan, in listing order |
| Rescan.Rescanner.SortSlice | backend/pkg/vulnerability/rescanner.go:194-202 | a permutation in comparator order |
| Rescan.Rescanner.ScanAll | backend/pkg/vulnerability/rescanner.go:208-218 | successful scans are recorded one after another; failed ones leave no trace |
| Rescan.Rescanner.RunScheduledBatch | backend/pkg/vulnerability/rescanner.go:138-224 | what is scanned is listed and due, at most three; whatever else is due waits because three come before it: never scanned first, then the oldest scan |
| Rescan.FlattenHasAll | backend/pkg/vulnerability/rescanner.go:148-161 | nothing listed is skipped, whichever registry and type it is under |
| Rescan.TextLessMeans | backend/pkg/vulnerability/rescanner.go:194-202 | ids compare byte by byte: the first difference decides, and an end comes first |
| Rescan.BatchMeans | backend/pkg/vulnerability/rescanner.go:182-206 | the batch against the due artifacts it leaves, in terms of ids and scan times |
| Rescan.LatestIsRecorded | backend/pkg/vulnerability/rescanner.go:208-218 | a latest scan is the one that was there or one the batch recorded |
| Rescan.BatchIsAhead | backend/pkg/vulnerability/rescanner.go:194-206 | a batch without a given due artifact consists of three distinct artifacts not behind it |
| Rescan.AheadShrinks | backend/pkg/vulnerability/rescanner.go:182-218 | artifacts that become due later sort strictly behind, so nothing joins the queue ahead |
| Rescan.BoundedWaiting | backend/pkg/vulnerability/rescanner.go:95-224 | a due artifact with k others not strictly behind it is scanned within k / 3 + 1 eligible ticks |
| Rescan.FailedScanStaysDue | backend/pkg/vulnerability/rescanner.go:208-218 | an artifact whose attempts in a batch are not recorded is due at every later tick |
| Rescan.StaysRecorded | backend/pkg/vulnerability/rescanner.go:138-224 | what a tick recorded is in the table for every later one, whatever is scanned elsewhere |
| Rescan.ScansAreSpaced | backend/pkg/vulnerability/rescanner.go:138-234 | a scheduled scan that is recorded and any later scheduled attempt on the same artifact are never closer than the interval, whatever other scans fail and whatever is listed or scanned elsewhere |
| RateLimit.RateLimiter.Request | backend/pkg/middleware/ratelimit.go:68-110 | the decision and the new entry table |
| RateLimit.RateLimiter.Cleanup | backend/pkg/middleware/ratelimit.go:38-52 | deleting while iterating removes exactly the expired entries |
| RateLimit.CleanupNeverMatters | backend/pkg/middleware/ratelimit.go:38-110 | cleanups at any moments change no admit or deny decision of any run |
| RateLimit.EntryCountsItsWindow | backend/pkg/middleware/ratelimit.go:38-110 | in every run, cleanups included, an entry counts exactly what its window admitted, at most max(limit, 1) |
| RateLimit.DeniedOnlyWhenFull | backend/pkg/middleware/ratelimit.go:38-110 | in every run, cleanups included, a request is denied only when the last window length already holds max(limit, 1) admissions of its key |
| RateLimit.AtMostTwiceTheLimit | backend/pkg/middleware/ratelimit.go:38-110 | in every run no closed interval of one window length holds more than 2 * max(limit, 1) - 1 admissions of a key |
| RateLimit.BoundIsReached | backend/pkg/middleware/ratelimit.go:77-104 | for every limit and window a run that reaches the bound |
| LoginThrottle.Throttle.Allow | backend/pkg/middleware/security.go:128-151 | the answer, and that only a refusal prunes the list |
| LoginThrottle.Throttle.RecordFailure | backend/pkg/middleware/security.go:154-164 | one failure is appended for that address only |
| LoginThrottle.AnswersAsFullHistory | backend/pkg/middleware/security.go:128-164 | the pruned list answers exactly as the full failure history would |
| LoginThrottle.FailuresPerSpan | backend/pkg/middleware/security.go:169-182 | with at most c attempts in flight no half-open window holds more than limit + c - 1 failures, so limit when one at a time |
| LoginThrottle.FailureBoundIsReached | backend/pkg/middleware/security.go:128-182 | for every limit and every number of attempts in flight a run that reaches the bound |
| Counters.Database.SaveArtifact | backend/pkg/database/database.go:508-519 | the upsert leaves both counters of an existing row alone and starts a new one at zero |
| Counters.Database.DeleteArtifact | backend/pkg/database/database.go:554-564 | removes that row only, and says whether it was there; totals stay |
| Counters.Database.IncrementArtifactDownloads | backend/pkg/database/database.go:587-612 | row and total move together or not at all; the total moves even without a row |
| Counters.Database.IncrementArtifactBandwidthSaved | backend/pkg/database/database.go:620-645 | likewise for bytes |
| Counters.TrackingReader.Read | backend/pkg/storage/tracking.go:56-60 | the count stays the sum of all reads |
| Counters.TrackingReader.Close | backend/pkg/storage/tracking.go:62-68 | reports the sum of all reads, if it is positive |
| Counters.StepSums | backend/pkg/database/database.go:508-645 | by how much each operation moves the sums over live rows and the totals |
| Counters.SumsStayWithinTotals | backend/pkg/database/database.go:508-645 | over every run with backups and restores the live sums never exceed the totals, which never fall |
| Counters.CountersConserved | backend/pkg/database/database.go:587-645 | without deletions and restores, and when each hit has its row, the gap between totals and sums is constant |
| Counters.BackupThenRestore | backend/pkg/database/database.go:2444-2451 | a restore brings back exactly the rows, with their counters, that the last backup of that path saw |
| AccessKeys.Store.ValidateAccessKey | backend/pkg/database/database.go:938-959 | accepts exactly the active keys without an expiry or before it; a session's expiry slides to 24 hours from now, and nothing else changes |
| AccessKeys.Store.InvalidateAccessKey | backend/pkg/database/database.go:962-972 | exactly the key with that id becomes inactive |
| AccessKeys.Store.CreateAccessKey | backend/pkg/database/database.go:880-900 | inserts one key, or fails on a duplicate hash or id and changes nothing |
| AccessKeys.Store.Login | backend/pkg/auth/auth.go:51-115 | only an active user with the right password gets a session key, which starts at 24 hours |
| AccessKeys.Store.ListUserAccessKeys | backend/pkg/database/database.go:978-1011 | all keys of the user and no others |
| AccessKeys.Store.InvalidateListed | backend/pkg/api/server.go:1866-1878 | the loop, key by key up to the first failure, makes exactly the keys it reached inactive |
| AccessKeys.Store.DeactivateUser | backend/pkg/api/server.go:1846-1883 | at success the user and all of the user's keys are inactive and nothing else changed; each error exit leaves exactly what was done before it |
| AccessKeys.Store.ActivateUser | backend/pkg/api/server.go:1942-1959 | re-activation touches no key |
| AccessKeys.Store.ResolveToken | backend/pkg/middleware/auth.go:73-93 | the hashed lookup wins, the raw one is the fallback, at most one key slides, and an inactive user is nobody |
| AccessKeys.Store.Logout | backend/pkg/api/server.go:2695-2736 | the five answers and when each is given; an accepted bearer token's key is revoked, a failing revocation leaves only the expiry the validation moved, and every other answer changes nothing |
| AccessKeys.SessionAcceptance | backend/pkg/database/database.go:938-972 | a session key is accepted if and only if nothing revoked it and every use met the deadline the one before set |
| AccessKeys.LoginSessionAcceptance | backend/pkg/auth/auth.go:77-82 | after a login: if and only if not revoked and every gap is under 24 hours |
| AccessKeys.PersonalAcceptance | backend/pkg/database/database.go:902-972 | an active personal token is accepted at a request if and only if nothing revoked it and the request comes before its expiry, if it has one |
| AccessKeys.RejectedForever | backend/pkg/database/database.go:938-959 | a key once rejected is rejected at every later time |
| AccessKeys.PersonalExpiryFixed | backend/pkg/database/database.go:931-959 | nothing ever moves a personal token's expiry |
| AccessKeys.InactiveForever | backend/pkg/database/database.go:938-972 | no event makes a revoked key active again |
| AccessKeys.DeactivationIsFinal | backend/pkg/api/server.go:1846-1970 | after a complete deactivation no key the user held is ever accepted, re-activated or not |
| AccessKeys.KeysThatSurvive | backend/pkg/api/server.go:1866-1878 | after a deactivation that failed on the way exactly the keys it did not reach are as good as before |
| AccessKeys.PartialDeactivationIsFinalIff | backend/pkg/api/server.go:1866-1878 | a deactivation at time t that failed on the way keeps a key rejected from t on, whatever follows, if and only if its loop reached the key or the key was no longer live at t |
| Rbac.RoleIdIsNotSystem | backend/pkg/rbac/rbac.go:456 | a generated id is never a system role's id |
| Rbac.SameRoleIff | backend/pkg/rbac/rbac.go:456 | two names share a role if and only if they differ in nothing but spaces for underscores |
| Rbac.StaticRolesAreInitial | backend/pkg/rbac/rbac.go:178-213 | the static roles are the three system roles and are all marked so |
| Rbac.AdminMayDoEverything | backend/pkg/rbac/rbac.go:178-192 | administrators have every static permission |
| Rbac.SystemRolesNeverChange | backend/pkg/rbac/rbac.go:452-677 | over every run with statements failing anywhere, the system roles stay cached and unchanged |
| Rbac.SavedRole | backend/pkg/database/database.go:1638-1667 | a save that succeeds stores exactly the given role and leaves every other id alone |
| Rbac.SaveSucceedsIff | backend/pkg/database/database.go:1638-1667 | a save succeeds if and only if the connection lasts for all statements and no permission is listed twice |
| Rbac.SaveTouchesOnly | backend/pkg/database/database.go:1638-1667 | however far a save gets, it touches no other role |
| Rbac.StepKeepsAgree | backend/pkg/rbac/rbac.go:452-677 | every call that succeeds keeps the cached custom roles equal to their rows |
| Rbac.CacheAgreesWithTables | backend/pkg/rbac/rbac.go:452-677 | from no custom roles and while calls succeed, cached custom roles and permission sets are those in the tables |
| Rbac.StoredAsRequested | backend/pkg/rbac/rbac.go:452-677 | a call that succeeds leaves the stored permissions it asked for, and other roles' as they were |
| Rbac.StoredRowAsRequested | backend/pkg/rbac/rbac.go:452-677 | a call that succeeds leaves the row it was asked for, or none after a deletion, and every other row |
| Rbac.SucceedsIff | backend/pkg/rbac/rbac.go:452-677 | exactly when each call returns without error; a missing or a system role is left as it was |
| Rbac.FailedCallLeaves | backend/pkg/rbac/rbac.go:452-677 | what each call leaves in the cache when the database fails it |
| Rbac.DeleteLeavesOrphans | backend/pkg/database/database.go:1670-1676 | no permission row is orphaned by a deletion if and only if the role had none |
| Rbac.OrphanAfterDelete | backend/pkg/database/database.go:1670-1676 | a role created with one permission and deleted leaves that permission row |
| Rbac.Manager.constructor | backend/pkg/rbac/rbac.go:42-51 | starts with the static roles over whatever the tables hold |
| Rbac.Manager.LoadStaticRoles | backend/pkg/rbac/rbac.go:223-227 | the loop caches exactly the given roles, each in an object of its own |
| Rbac.RestartAgreesIff | backend/pkg/rbac/rbac.go:42-51 | after a restart cache and tables agree if and only if no custom role is stored |
| Rbac.StoredRoleIsLost | backend/pkg/rbac/rbac.go:42-51 | a role stored before a restart grants nothing after it, and every change to it is refused |
| Rbac.Manager.SaveRole | backend/pkg/database/database.go:1638-1667 | upsert, clear and inserts take effect statement by statement up to the first failure |
| Rbac.Manager.CreateRole | backend/pkg/rbac/rbac.go:452-476 | caches and saves, and forgets the role again when the save fails |
| Rbac.Manager.UpdateRole | backend/pkg/rbac/rbac.go:479-503 | writes the shared object of a custom role only, then saves |
| Rbac.Manager.DeleteRole | backend/pkg/rbac/rbac.go:506-521 | forgets a custom role and deletes its row; refuses system and unknown roles |
| Rbac.Manager.AddPermissionToRole | backend/pkg/rbac/rbac.go:607-637 | adds a permission once to a custom role's shared object, then saves |
| Rbac.Manager.Without | backend/pkg/rbac/rbac.go:653-663 | the list without every occurrence, and whether there was one |
| Rbac.RemoveAllElements | backend/pkg/rbac/rbac.go:653-663 | removal takes away exactly that permission |
| Rbac.Manager.RemovePermissionFromRole | backend/pkg/rbac/rbac.go:640-677 | removes it from a custom role's shared object, then saves; an absent one is no error and no change |
| Rbac.Manager.UserHasPermission | backend/pkg/rbac/rbac.go:266-283 | true exactly when some cached role of the user has the permission |
| Rbac.Manager.GetUserRolePermissions | backend/pkg/rbac/rbac.go:578-604 | no duplicates, and contains a permission if and only if the user has it, for every assignment and cache |
| Schedule.DueIsExactIff | backend/pkg/searchindex/reindexer.go:96-101 | the 64-bit due test equals the unbounded one for all times if and only if the interval is at most 2562047 hours |
| Schedule.ArtifactDueIsExact | backend/pkg/vulnerability/rescanner.go:229-234 | within that range the artifact test of the rescan model is the 64-bit one |
| Schedule.WrappedIntervalIsAlwaysDue | backend/pkg/vulnerability/updater.go:110-115 | one hour past the range a check just made is due again |
| Schedule.Settings.Check | backend/pkg/vulnerability/updater.go:73-104 | a poll starts a run exactly when enabled and due, and writes nothing |
| Schedule.Settings.EndRun | backend/pkg/searchindex/reindexer.go:37-52 | the end of a scheduled run writes the time it started at, if the write succeeds; an empty error text still means that the last check is the last success |
| Schedule.Settings.EndManualRun | backend/pkg/api/server.go:678 | the end of a run made by hand does the same, whatever was written since it started |
| Schedule.PollIsSpaced | backend/pkg/searchindex/reindexer.go:66-89 | a poll that finds the row no older than the last scheduled run starts the next one an interval after it |
| Schedule.StepKeepsOrder | backend/pkg/searchindex/reindexer.go:37-101 | every quiet event keeps the scheduled runs spaced and every write still to come harmless |
| Schedule.RunsAreSpaced | backend/pkg/searchindex/reindexer.go:37-101 | in every interleaving of polls, ends of runs, runs made by hand and restores, scheduled runs are an interval apart, provided that each starts with no earlier run in flight and is recorded and no restore brings back an older check |
| Schedule.SpacedIffNoneEarlier | backend/pkg/database/database.go:2321-2340 | at the start of a scheduled run, the later ones stay spaced whatever quiet events follow if and only if no earlier run is in flight |
| Schedule.OverlapBreaksSpacing | backend/pkg/api/server.go:678 | a run made by hand that outlives a scheduled one puts the next 59 minutes after it at an interval of one hour |
| Schedule.RestoreBreaksSpacing | backend/pkg/database/database.go:2444-2451 | a restore of a row without a check puts the next scheduled run one minute after the last |
| Schedule.SwitchedOffNeverRuns | backend/pkg/searchindex/reindexer.go:75-77 | polls that find the scheduler switched off start nothing, however overdue a run is |
| Schedule.RunsPerSpan | backend/pkg/vulnerability/updater.go:45-115 | under the condition of RunsAreSpaced, at most span / interval + 1 scheduled runs start in any closed span |

## Left out

- gzip around the archive: taken as a lossless identity.
- An archive whose frame header names an impossible length: the model refuses it; allocation is not modelled.
- Which storage a backup goes to and how backups are listed: whether a storage resolves is a parameter.
- Backup.BackupService.Run: does not record the outcome in `backup_settings`, and the key is a parameter.
- Timestamps, floats, JSON and tsvector values, column defaults, CHECK constraints, triggers, NUL bytes and self-referencing foreign keys: `Relational` has NULL, booleans, integers, strings and string lists.
- SqlText.LexConstantOfLiteral: does not cover floats, timestamps and the JSON fallback of `sqlLiteral`; a byte slice prints as the string of its bytes.
- Relational.CoerceOfPrinted: has boolean, integer, text and text array columns only.
- Lists: the model takes it that the driver hands a `text[]` value over as a Go string slice, the type `sqlLiteral` tests for. A driver that hands over a slice of interfaces would take the JSON branch, whose text begins with a square bracket and is no array literal.
- SQL beyond the printed forms: the lexer refuses unquoted array elements and everything else the printer does not emit.
- `replication_status`, which only unused replication code would create and which refers to `artifacts`: it is not in the migrations; `Dump.RestoreOutcome` covers any such table.
- What the SQL files of the migrations do: a parameter of the protocol, with the baseline a no-op once applied and all processes carrying the same files.
- MigrateProtocol.BaselineKeepsInv: takes a baseline transaction as one atomic step; one that collides with another session's is a failure event.
- Paging.Database.ListArtifactsCursor: orders by `created` only, because the cursor carries nothing else, and the database fails on a bad order text alone.
- Paging by columns other than `created`, order texts that hold more than the direction keyword, and `ListUsersCursor`.
- Time formatting, base64, SHA-256 and bcrypt: parameters, with the inverse laws the cursor needs.
- Rescan.Rescanner.SortSlice: any sorted permutation, because the order of equal elements under sort.Slice is unspecified.
- Rescan.BoundedWaiting: for a fixed portfolio, a positive interval (the settings API demands at least one hour), scans that succeed and no scans made elsewhere; a failing scan is not recorded and keeps its place at the front.
- Rescan.ScansAreSpaced: without a restore in between, which brings back old scan rows.
- Schedule.RunsAreSpaced: one scheduler and an interval nobody changes; a scheduler in another process counts as runs made by hand. A poll is one atomic step, where the code reads the settings before the clock.
- The off-hours window, the 1000-row listing limit and manual full rescans.
- Client address normalisation, forwarded-for headers and rate limit headers.
- RBAC permission definitions, `HasEffectivePermission` and per-registry access.
- Rbac.CacheAgreesWithTables: needs every save to succeed, because the mutators do not roll the cache back, and no restart in between.
- Rbac.Manager.LoadStaticRoles: makes a fresh object for each static role, where the code caches the package-level ones that every manager of the process shares; no operation writes to them.
- Rbac.Manager.AddPermissionToRole: the backing array two slices may share is not modelled; permission lists are values.
- Basic authentication, docker tokens and token scopes; the profile fields `handleUpdateUser` checks and writes before it deactivates.
- AccessKeys.RejectedForever: without a restore in between, which brings back old key rows; handlers run one at a time.
- 64-bit overflow of counters.
- HTTP, storage adapters, upstream proxies, replication and the web interface.
