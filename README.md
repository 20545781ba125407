# go-sqlitehench in Dafny

A model of the core of `go-sqlitehench`, a Go wrapper around SQLite database files. Its centre is the `DBAccess` object:
- its connection settings;
- its PRAGMA list;
- its **shrink watch list**, the database file paths that two background loops look after.

The compaction loop (`shrinkAllDB`) runs `VACUUM` on every listed file that still exists. The maintenance loop (`maintWatchList`) prunes the list.

Around the watch list sit:
- the configuration done by `NewDBAccess` and `fixPragmaTextAndOrder`;
- the paging arithmetic of `GetPageOffset` and `GetPagingInfo`;
- the SQL text helpers: table-name extraction, line-break clean-up, the `group` keyword rewrite, the statement length limit;
- thousands-separator formatting and the slice helpers;
- the in-memory data-table operations: appending, range copy, column-name de-duplication, SQL value quoting, JSON rendering.

Modules, one per concern:

| file | module | what it holds |
|---|---|---|
| `strings.dfy` | `GoStrings` | ASCII versions of the Go string functions the code calls (`ToLower`, `ReplaceAll`, `Split`, `Join`, `TrimSpace`, `strconv.Atoi`, decimal printing) |
| `watchlist.dfy` | `WatchList` | the watch list as a value: swap-removal, registration, and one pass of each background loop, as functions |
| `access.dfy` | `Access` | the `DBAccess` class: `NewDBAccess`, membership, removal, registration, and both passes as methods proved against the `WatchList` functions |
| `pragmas.dfy` | `Pragmas` | PRAGMA clean-up and the "wall" reordering, in place on an array |
| `paging.dfy` | `Paging` | page count, page offset, the grid summary |
| `helpers.dfy` | `Helpers` | `formatNumber`, `removeElmFrmArry*`, `arryElmExists` |
| `sqltext.dfy` | `SqlText` | `getTableNameFromSQLQuery`, `fixQuery`, `fixSQLQuery`, the statement length limit |
| `datatables.dfy` | `DataTables` | `AppendDataTable`, `GetDataTableRange`, `getDeDupedColNames`, `needsSingleQuotes`, `GetDataTableJSON`, `valueExistsInArry` |

Each background pass is modelled as one sequential sweep over the list. The filesystem is a `FileOracle` that stays fixed for the sweep. It has three parts:
- whether a path exists;
- whether it can be examined (`os.Stat` succeeds);
- how many nanoseconds ago it was modified.

The 1.25-hour threshold of `maintWatchList` is the integer constant `RecentNanos` (4 500 000 000 000 ns).

Three points where the model follows the code as written:
- `shrinkAllDB` (daemon.go:21-36) makes no age check: it compacts every existing entry, however recently it was modified.
- A compaction pass ends at its first eviction (daemon.go:27), so the entries after an evicted one wait for the next pass. `WatchList.EvictionEndsThePass` states this.
- The comment at daemon.go:42-43 says the maintenance loop removes entries that have not been accessed for some time. daemon.go:72 instead evicts entries modified *less* than 1.25 hours ago. See Findings.

## Model

| member | source | states |
|---|---|---|
| `WatchList.SideCarRejected` | public.go:606-609 | a path ending in `.sqlite-journal`, `.sqlite-shm` or `.sqlite-wal`, in any letter case, is not a database file |
| `WatchList.IsFileSQLiteDB` | public.go:604-612 | the empty path is rejected, and a path whose lower-cased text ends in `.db` is accepted |
| `WatchList.NonSideCarAccepted` | public.go:604-612 | a non-empty path none of whose endings lower-cases to `.sqlite-journal`, `.sqlite-shm` or `.sqlite-wal` is accepted (the converse of `SideCarRejected`) |
| `WatchList.SwapRemove` | private.go:31-42 | an index past the end leaves the list unchanged; otherwise the list is one shorter, the former last entry is at `i`, and every other position is unchanged |
| `WatchList.SwapRemoveMultiset` | private.go:37-41 | removal loses exactly one copy of the entry at `i` (multiset difference) |
| `WatchList.SwapRemoveDistinct` | private.go:37-41 | a duplicate-free list stays duplicate-free, and the removed path is no longer in it |
| `WatchList.SwapRemoveKeeps` | private.go:31-42 | for any index, removal adds no path and introduces no duplicate |
| `WatchList.Registered` | public.go:651-662 | a listed path, or one `isFileSQLiteDB` rejects, leaves the list unchanged; any other path is appended at the end; distinctness is kept; membership afterwards is old membership or the accepted path |
| `WatchList.RegisteredIdempotent` | public.go:651-662 | registering the same path twice is the same as registering it once |
| `WatchList.FirstWhere` | daemon.go:21-28 | the index where a pass stops: no earlier entry stops it, and the entry at the index does, unless it is the length |
| `WatchList.FirstWhereUnique` | daemon.go:21-28 | any index with those properties is the one `FirstWhere` returns |
| `WatchList.Compaction` | daemon.go:21-36 | the compacted paths are a prefix of the list, in order, and all exist; if every entry exists, all are compacted and the list is unchanged; otherwise the first missing entry is swap-removed and nothing after it is compacted; the list loses at most one entry, gains none, and stays duplicate-free |
| `WatchList.Maintenance` | daemon.go:50-77 | at most one entry goes; with no eviction the list is unchanged and no entry is missing, unreadable or recent; with an eviction, the evicted entry is the first missing, unreadable or recent one, and every entry before it exists, is readable and is at least 1.25 h old; the list gains nothing and stays duplicate-free |
| `WatchList.EvictionEndsThePass` | daemon.go:25-28 | with `a.db` deleted and `b.db` present, the first compaction pass evicts `a.db` and compacts nothing; the next pass compacts `b.db` |
| `WatchList.MaintenanceDropsActiveFiles` | daemon.go:71-76 | as written, a file modified 30 minutes ago is evicted and one idle for two hours is kept |
| `WatchList.IntendedMaintenance` | daemon.go:42-77 | the corrected pass (evicts a missing, unreadable or idle entry): at most one entry goes; any path that loses a copy is missing, unreadable or idle; the list stays duplicate-free |
| `WatchList.IntendedMaintenanceKeepsActiveFiles` | daemon.go:42-43 | the corrected pass never drops a present, readable file modified within 1.25 h |
| `WatchList.IntendedMaintenanceDropsIdleFiles` | daemon.go:42-43 | on the example above, the corrected pass evicts the idle file and keeps the busy one |
| `WatchList.SwapRemoveDrops` | private.go:37-41 | the only path a removal can lose is the one at the index |
| `Access.DecideShrinking` | init.go:50-55 | shrinking ends up on exactly when it was on already or some entry does not mention `PRAGMA AUTO_VACUUM` (case-insensitive); it is never switched off |
| `Access.Configured` | init.go:8-55 | a connection limit below 1 becomes exactly 1 and any other is kept; an empty driver becomes `sqlite3`; every PRAGMA entry is well formed; shrinking is never switched off; the watch list is untouched |
| `Access.ConfiguredDefaultPragmas` | init.go:20-47 | an empty PRAGMA list is replaced by auto_vacuum = NONE, journal_mode = WAL and wal_checkpoint(PASSIVE), in that order, before the repair |
| `Access.ConfiguredShrinking` | init.go:50-55 | shrinking is on iff it was asked for or some repaired entry lacks auto_vacuum |
| `Access.DBAccess.constructor` | init.go:8-55 | the new object's fields are `Configured` of the settings given |
| `Access.DBAccess.ItemExists` | private.go:13-28 | true iff the path is on the watch list |
| `Access.DBAccess.RemoveItemFromShrinkWatchList` | private.go:31-42 | the list afterwards is `SwapRemove` of the old list at `i`; a list without duplicates stays without duplicates |
| `Access.DBAccess.AddDBFileToShrinkWatchList` | public.go:651-662 | the list afterwards is `Registered` of the old list and the path; a list without duplicates stays without duplicates |
| `Access.DBAccess.GetShrinkWatchList` | public.go:665-667 | returns the watch list |
| `Access.DBAccess.CompactionPass` | daemon.go:21-36 | the paths handed to `ShrinkDB`, and the list afterwards, are what `Compaction` gives for the old list |
| `Access.DBAccess.MaintenancePass` | daemon.go:50-77 | the list afterwards is what `Maintenance` gives for the old list |
| `Pragmas.NormalizePragmaEntry` | init.go:81-95 | the loop that halves double spaces until none remain, with the trim, lower-casing, `;` and `pragma ` repair, gives `NormalizedPragma` of the entry |
| `Pragmas.NormalizedPragmaWellFormed` | init.go:80-96 | every repaired entry ends in `;`, is lower-case, does not start with a space and has no double space |
| `Pragmas.NormalizeEntries` | init.go:80-96 | the array afterwards holds each old entry repaired, in the same order |
| `Pragmas.WallExists` | init.go:100-106 | true iff some entry contains `journal_mode = wall` |
| `Pragmas.WallFirst` | init.go:110-120 | the wall statement, the passive checkpoint, then the first entry mentioning neither, if any |
| `Pragmas.FirstUnrelatedFinds` | init.go:114-119 | at most one entry is kept; none iff every entry mentions the checkpoint or "wall"; a kept entry is the first that mentions neither |
| `Pragmas.FixPragmaTextAndOrder` | init.go:73-124 | the array is repaired in place; the result is `FixedPragmas` of the old entries (empty for an empty list) |
| `Pragmas.FixedPragmasWellFormed` | init.go:73-124 | every statement of the result is well formed |
| `Pragmas.ReorderedWellFormed` | init.go:107-121 | the reordering keeps every statement well formed |
| `Pragmas.FixedStatementsWellFormed` | init.go:111-112 | the two statements put in front are well formed |
| `Pragmas.FixedPragmasWithoutWall` | init.go:100-106 | without a "wall" entry, the result has the input's length and order, each entry repaired on its own |
| `Pragmas.FixedPragmasWithWall` | init.go:107-121 | with a "wall" entry, the result is the wall statement, the passive checkpoint, and at most one more entry: the first that mentions neither |
| `Paging.GetPageOffset` | paging.go:92-133 | `(0,0,0)` for a page size or record count below 1; otherwise the page count is the ceiling of records over page size, the page is the requested page clamped to `[1, totalPages]`, `0 <= offset <= recordCount`, page 1 starts at 0, a later page n at `n * pageSize`, or at `recordCount - pageSize` when that is past the end |
| `Paging.CeilingDivision` | paging.go:98-103 | the quotient plus one for a remainder is the number of pages |
| `Paging.OffsetBounds` | paging.go:120-122 | moving a later page back by one page size never goes below 0 |
| `Paging.PageTwoSkipsAPage` | paging.go:109-122 | with 20 records, 10 per page, page 2 starts at 20, and record 15 is on no page |
| `Paging.IntendedPageOffset` | paging.go:109-122 | the corrected offset `(page - 1) * pageSize`, which lies in `[0, recordCount)` |
| `Paging.IntendedPagesCoverEveryRecord` | paging.go:109-122 | with the corrected offset, record r lies on page `r / pageSize + 1` |
| `Paging.GetPagingInfo` | paging.go:10-62 | page size 10 when below 1; a failed count gives offset -1 and an empty summary; otherwise the summary takes the count (0 for a null count), page count, page and offset from `GetPageOffset`, `PositionFrom >= 1` and `PositionTo = min(offset + pageSize, recordCount)` |
| `Helpers.FormatNumber` | private.go:114-125 | for a 64-bit number, the comma-inserting loop gives `Formatted` of the number |
| `Helpers.InsertCommas` | private.go:120-123 | the loop stops within two characters of the start offset, and every character from where it stops is in a group of three led by a comma |
| `Helpers.FormattedDigits` | private.go:114-125 | removing the commas gives the number's decimal text back |
| `Helpers.FormattedGroups` | private.go:114-125 | the first piece between commas is an optional `-` and 1 to 3 digits; every later piece is exactly 3 digits |
| `Helpers.CommaGroupsFilter` | private.go:120-123 | removing the commas from the grouped tail gives the tail back |
| `Helpers.CommaGroupsSplit` | private.go:120-123 | the pieces between the commas are the head, then consecutive 3-character slices |
| `Helpers.RemoveElement` | private.go:126-135 | the result is the input without `e`, in the original order (`removeElmFrmArry` at private.go:146-155 is the same code); it holds no `e`, and every other element as often as before |
| `Helpers.ArrayElementExists` | private.go:137-144 | true iff the item occurs in the slice |
| `SqlText.GetTableNameFromSQLQuery` | public.go:256-283 | returns `TableName` of the statement |
| `SqlText.TableNameIn` | public.go:268-282 | with no keyword followed by a word the name is `""`; among lower-case words the name is lower-case, holds no line break and starts and ends with no white space |
| `SqlText.TableName` | public.go:256-283 | the name of any statement is lower-case, holds no line break and starts and ends with no white space |
| `SqlText.TableNameFound` | public.go:268-279 | the first `from` or `into` followed by a word decides the name, which is that word with one trailing `;` dropped, cut at the first line break and trimmed |
| `SqlText.TokensShape` | public.go:257-265 | the words are non-empty, contain no space and are lower-case |
| `SqlText.FixQuery` | public.go:127-132 | same length; every line break and tab becomes a space; every other character is unchanged; no line break or tab is left |
| `SqlText.FixSQLQuery` | private-common.go:68-74 | the result is never shorter than the query |
| `SqlText.FixSQLQueryStages` | private-common.go:68-74 | the result is the lower-cased query with ` group ` turned into ` [group] `, then ` group;` turned into ` [Group];` |
| `SqlText.FixSQLQueryWithoutGroup` | private-common.go:68-74 | a query without either keyword form comes back lower-cased and otherwise unchanged |
| `SqlText.CheckStatementLength` | private-common.go:37-39 | a statement over 1 000 000 000 bytes is rejected with -1 and the error text; any other goes on unchanged |
| `SqlText.PrepareStatement` | public.go:154-161 | after `fixQuery`, exactly the statements over the limit are rejected, with -1 and the length message; any other goes on as its `fixQuery` text |
| `DataTables.CompareColumnsPrefix` | public-datatable.go:227-231 | the column check passes iff the source columns are the leading columns of the destination; an index fault means the destination has fewer columns |
| `DataTables.AppendOutcomeDone` | public-datatable.go:210-231 | appending goes ahead iff the source has a name and the destination is empty or starts with the source's columns |
| `DataTables.ProjectedValues` | public-datatable.go:233-238 | one new row per source row; each holds the source's values for the source columns and nothing else |
| `DataTables.NewRow` | public-datatable.go:234-237 | the row built column by column holds the source row's values for the source columns |
| `DataTables.AppendDataTable` | public-datatable.go:206-241 | the outcome is `AppendOutcome`; on success an empty destination first receives the source columns and the source rows are appended in order; on failure the destination is unchanged |
| `DataTables.RangeRowsShape` | public-datatable.go:193-201 | the copied rows are source rows `from` to `to`, with `to` clamped to the last row, in order |
| `DataTables.GetDataTableRange` | public-datatable.go:176-204 | a source without a name is refused and nothing changes; otherwise the source columns are appended to the destination's and `RangeRows` to its rows |
| `DataTables.CandidateInjective` | public-datatable.go:256 | different attempts give different names |
| `DataTables.AttemptsCount` | public-datatable.go:253-261 | a list holding the first m attempts has at least m names, so the retry loop ends |
| `DataTables.FreeName` | public-datatable.go:249-261 | the name chosen is not yet produced, and every earlier attempt was |
| `DataTables.GetDeDupedColNames` | public-datatable.go:243-267 | same length as the input, pairwise distinct, and each name is the first of `name`, `name_2`, `name_3`, ... not produced for an earlier column |
| `DataTables.NeedsSingleQuotes` | public-datatable.go:498-528 | after `\"` becomes `"`, an integer is returned unchanged without quotes; the value goes unquoted iff it is an integer or `true`/`false` in any case; a quoted value is returned unchanged; an unquoted non-integer is `"0"` |
| `DataTables.BooleanWordsAreNoDates` | public-datatable.go:508-522 | `true` and `false` never reach the date parser |
| `DataTables.BooleanWordsAreNoIntegers` | public-datatable.go:503-522 | `true` and `false` in any case are not integers |
| `DataTables.TrueAndFalseCollide` | public-datatable.go:517-522 | as written, `true` and `false` both become `("0", false)` |
| `DataTables.IntendedNeedsSingleQuotes` | public-datatable.go:516-522 | the corrected quoting: `true` becomes `1`, `false` becomes `0`, everything else as written |
| `DataTables.GetDataTableJSON` | public-datatable.go:23-48 | the loops build `TableJSON`: `[`, one object per row joined by `,`, `]`, with text values that do not start with `{` in double quotes |
| `DataTables.TableJSONAppend` | public-datatable.go:29-45 | one more row inserts a comma (unless it is the first) and its object before the closing bracket |
| `DataTables.JoinSnoc` | public-datatable.go:41-45 | joining one more part adds the separator and the part |
| `DataTables.TableJSONEmpty` | public-datatable.go:45 | a table without rows renders as `[]` |
| `DataTables.ValueExistsInArry` | public.go:335-348 | true iff some column name equals the text, compared lower-cased when `ignoreCase` is set |
| `GoStrings.ReplaceAllChar` | public.go:128-129 | replacing a one-character text by another changes exactly those characters |
| `GoStrings.LowerOfReplaceAll` | private-common.go:70-71 | lower-casing after a replacement in lower-case text equals the replacement with the lower-cased replacement text |

## Left out

- Goroutines, the endless outer loops and the `time.Sleep` cadence of `shrinkAllDB` and `maintWatchList` (daemon.go), including the one-second pause every tenth entry. One sequential pass of each is modelled. The unsynchronised sharing of the watch list between the loops and callers is not modelled.
- The length guards at daemon.go:22-24, daemon.go:52-54, daemon.go:61-63 and private.go:19-21. They matter only when another goroutine shrinks the list mid-pass, so in a sequential pass they never fire.
- `ShrinkDB`, `GetDB`, `DatabaseExists`, `fileOrDirExists` and `os.Stat`. These are database and filesystem calls. A compaction is recorded as the path handed to `ShrinkDB`; existence, `os.Stat` success and file age come from `FileOracle`.
- `t.Hours() < 1.25` is a floating-point comparison. It is modelled as an integer comparison in nanoseconds against `RecentNanos`.
- `Access.DBAccess.RemoveItemFromShrinkWatchList`: takes a natural-number index. In Go a negative index panics on a list of two or more entries and empties a one-element list (the guard at private.go:33 lets it through, the swap at private.go:37-39 is skipped and private.go:41 truncates); no caller passes one.
- `NewDBAccess` starting `shrinkAllDB` in the background, and the `Remote` handler it installs, are not modelled.
- `Access.DBAccess.GetShrinkWatchList`: in the source the returned slice shares its backing array with the registry, so a later `removeItemFromShrinkWatchList` rewrites a list the caller already holds (private.go:38 swaps entries i and n-1 inside the shared array, so a length-n slice the caller holds ends up with those two entries exchanged, and a later `AddDBFileToShrinkWatchList` append overwrites the caller's slot n-1). The model returns a copy, so that aliasing is not modelled.
- `Pragmas.FixPragmaTextAndOrder`: the Go function rewrites its argument's backing array, which is the caller's PRAGMA slice. The model rewrites an array of its own that the constructor builds from the settings, so that aliasing is not modelled.
- Letter case and white space are ASCII only. Go's Unicode case mapping and `unicode.IsSpace` are not modelled.
- `Paging.GetPageOffset`: integers are unbounded, so the 64-bit wrap-around of `pageSize * pageNo` for huge inputs is not modelled.
- `Paging.GetPagingInfo`: the count query (`ExecuteScalare`) is a parameter, `CountResult`: it failed, returned NULL, or returned a number. Building the query text and the printed error message are not modelled.
- `DataTables.NeedsSingleQuotes`: `convertStringToTime` is an opaque predicate parameter, `isDate`. `strconv.Atoi` is modelled as an optional sign and decimal digits within 64 bits.
- `DataTables.GetDataTableRange`: requires `from >= 0`. What the table library does with a negative row index is not part of this model.
- `DataTables.AppendDataTable` and `DataTables.GetDataTableRange` assume two things about the table library, which is not part of this model:
  - adding a column appends its name;
  - `Rows.New` and `Rows.Add` append a row.
  Rows are values, so the sharing of one row map between source and destination (`Rows.Add(rowSrc)`) is not modelled. `AppendDataTable` fills each new row before appending it; the Go code appends an empty row and fills it in place, which ends in the same state.
- `DataTables.GetDataTableJSON`: cell values arrive already printed with `%v`, and a missing cell prints as `<nil>`. Column types are represented by the name `%v` prints for them.
- The data-table `interface{}` values are opaque; a panic when comparing values of uncomparable types in `removeElmFrmArry` is not modelled.
- `GetDataTable*`, `CloneDataTable`, `CreateNewDatabase`, `BulkInsert`, `CloneDatabase`, the insert routines, `ExecuteScalare`, `ExecuteNonQuery*` beyond its length check, `GetDataMap*` and `GetPageInfoFromQuery`. These are calls into `database/sql`, the SQLite driver or `net/http`.
- public-common.go (encryption), `createHash`, `durationToString` and `convertStringToTime`. These are crypto, floating-point and time-library code.

## Findings

| source | as written | input that shows it | evidently intended | confidence | as-written member | corrected member |
|---|---|---|---|---|---|---|
| paging.go:109-116 | page n >= 2 starts at `pageSize * n` | 20 records, 10 per page: page 2 starts at record 20, and records 10 to 19 are on no page | page n starts at `pageSize * (n - 1)` | high (not executed) | `Paging.PageTwoSkipsAPage` | `Paging.IntendedPagesCoverEveryRecord` |
| public-datatable.go:520-522 | `true` becomes `0` | `"true"` and `"false"` give the same `("0", false)` | `true` becomes `1` (the comment at line 516 says true is 1) | high (not executed) | `DataTables.TrueAndFalseCollide` | `DataTables.IntendedNeedsSingleQuotes` |
| daemon.go:72-76 | files modified less than 1.25 h ago are evicted | a file modified 30 minutes ago is dropped; one idle for two hours stays | evict files idle for 1.25 h or more (the comment at daemon.go:42-43) | medium (not executed) | `WatchList.MaintenanceDropsActiveFiles` | `WatchList.IntendedMaintenanceKeepsActiveFiles` |

The corrected definitions sit beside the as-written ones and are not used by the rest of the model. Every method models the code as written.

The "wall" reordering in `fixPragmaTextAndOrder` keeps only the first other entry (init.go:117 breaks out of the loop), so any further configured statements are dropped. `Pragmas.FixedPragmasWithWall` states this behaviour. It is not listed as a finding because the intent there is not evident from the source.
