# A verified model of the SQL replaceable database driver

The driver lets a program navigate an SQL table as if it were an ISAM file: GoTop, GoBottom, GoTo, Skip and Seek, BOF
and EOF, one current record that is read and written field by field. This project models the parts of the driver that
make that work and proves what they are for. Each module is one part.

| module | part |
|---|---|
| `IndexOrder` | SELECT with WHERE, ORDER BY and a row limit over a stored table; the split of an index order into levels |
| `Dialects` | the database systems, and what differs between them |
| `Cursor` | the workarea's navigation as functions on its state: record list, position, direction, hints, flags, statements |
| `PlainCursor` | a cursor over the sorted rows, without any window: what navigation means |
| `Refinement`, `Stepping`, `Runs` | the window shows what the plain cursor shows, move by move and over whole runs |
| `Listing` | what the rows are that a program is shown on its way through a table |
| `Exactness`, `Skips` | for exactly which tables, and for which skips by several rows, it does |
| `Updates` | after which UPDATEs of an index column it still does |
| `WorkArea` | the workarea as a class whose methods change its fields, proved against `Cursor` |
| `RecordBuffer` | the current record, the pool of records, the list of columns that are fetched, writing back |
| `Browse` | the workarea and the record buffer together, for a program that moves, reads and writes |
| `Ring` | the record cache of the older driver: a ring of slots with holes, searched in both directions |
| `Quoting`, `Lexer`, `Tokens`, `Decimal`, `Chars` | SQL literals of each dialect and how the lexer reads them back; the lexer; numbers with an exponent |
| `Seek` | a string key split over index columns, its statement, the row it finds |
| `Bindings`, `Insert` | the texts of WHERE clauses and INSERT statements against the loops that bind their parameters |

The database is a finite table of rows with unique record numbers and unique keys, and a statement is a pure function
of it: the rows that match, sorted, cut at the limit. Index columns are NOT NULL in the order and navigation modules and
are compared as ranks; `Bindings` treats the text and the parameters of the statements for every pattern of NULLs.
Methods that change state are proved against functions on values, and the laws are lemmas about those functions.

## What holds, and where the code falls short of it

* **Navigation.** Over all runs of GoTop, GoBottom, GoTo (any number but 0) and single skips the window shows what a
  plain cursor shows for exactly these tables: they have rows, not exactly 25 of them, and, under a dialect that limits
  rows, at most 249 rows that share the first index column precede one that has a successor
  (`Exactness.WindowAgreesExactly`). On an empty table a skip back turns EOF off (source/sqlex1.cpp:2688-2690). With 25
  rows the list direction is turned around while the list stays (source/sqlex1.cpp:2817). The limit matters because the
  statement of level 1 is always the one that is executed: the offset of the level is commented out
  (source/sqlex1.cpp:1449-1451), although the comment beside the fetch loop (source/sqlex1.cpp:1463-1470) speaks of
  deeper levels.
  What the plain cursor shows is the order of the index: keys upwards from GoTop, or downwards when the index is reversed,
  every row once (`Listing.KeysInOrder`, `Listing.AllRowsAreShown`).
* **Skips by several rows.** The current record number is taken once in a skip (source/sqlex1.cpp:2663) and a refill
  searches for it. So a skip that outlives the window either ends outside the table, or, on an index of several
  columns, where the refill can find the old number among the rows that share its first column, goes back to the row
  after the one it started from (`Skips.SkipManyLands`). When a column must be read from the database the number is taken
  again (source/sqlex1.cpp:446), and then skips of any length are right. A skip back from EOF always lands on the last
  row; GoTo(0) leaves the window where it was (`Skips.GoToZeroExactly`).
* **Statements.** Whenever the direction changes, the statements of both directions are dropped and both hints are set to
  zero (source/sqlex1.cpp:2107-2176). Statements are prepared again when a column is newly NULL, not when one ceases
  to be NULL (source/sqlex1.cpp:949-1000); `Bindings.CurrentRowMatchesExactly` says when that loses the current row.
  A skip reads the rows of its level (`Bindings.SkipReadsLevel`), but a skip back from a value never reads rows with NULL
  in that column (`Bindings.SkipReadsExactly`), and a seek for NULL goes by its own direction where the index is reversed
  (source/sqlex3.cpp:151, `Bindings.SeekReadsAsSkip`).
  After a change of a filter, the WHERE clause that GoTop or GoBottom builds clears the mark for the change
  (source/sqlex1.cpp:1282), so that the skip statements keep the old filter (`Bindings.IndexStatements.FilterAndSkip`).
* **Updates of the index.** An UPDATE of an index column shortens the list to the current record but leaves the hints
  (source/sqlex2.cpp:920-924). Runs after it are right exactly when the row was and is the first one, or neither, if
  `lBofAt` is set, and the same for the last one and `lEofAt` (`Updates.UpdateAgreesExactly`). So after GoBottom and an
  UPDATE that moves the last row to the front, Skip(1) shows EOF (`Updates.BottomToTop`).
* **Record buffer.** A fetch stores by field number (source/sqlex1.cpp:1964-1978) and a read uses `uiBufferIndex`
  (source/sqlex1.cpp:3047); a hidden column before a visible one moves the fields apart.
* **Moves, reads and writes together.** From opening on, whatever a program does by single steps and on fields outside
  the index, it is shown what a plain cursor over a table with fields would show (`Browse.SqlExTable.PerformFromStart`),
  except after one sequence: a skip turns EOF off (source/sqlex1.cpp:2667) before it writes edits
  (source/sqlex1.cpp:2787), so that edits of the phantom record, which other moves drop, overwrite the last row
  (`Browse.SqlExTable.SkipFromEdited`).
* **Seek.** Lengths are kept in a byte in the final comparison (source/sqlex1.cpp:4430-4538). A key shorter than 256 is
  judged rightly exactly when it is longer than the index or at most as long as the index is modulo 256; a longer key
  exactly when it is longer than the index, modulo 256 too (`Seek.CompareWorks`, `Seek.SeekWorksExactly`): a key of 10
  characters on an index 260 wide is misjudged, a key of 300 on an index 257 wide is not. A soft seek that finds nothing
  under the key's leading columns goes to EOF, although rows follow (`Seek.SoftSeekMisses`).
* **Ring.** In a full window of empty slots the search does not end, and in a full window with live slots it goes round.
* **Quoting.** Systems without an escape function get a literal whose text is never written
  (source/sqlact.cpp:589-621). A PostgreSQL literal with a backslash does not read back under
  standard_conforming_strings. The lexer's own rule for strings differs from every dialect's in some cases
  (source/sqllex.cpp:162-190); `Lexer.ReadsBackExactly` names them.
* **Lexer.** Where a token begins with a lone exclamation mark the lexer returns NOT for ever (source/sqllex.cpp:311-320).
  The keyword RIGHT is found only before a parenthesis (source/sqllex.cpp:631-637).
* **Numbers.** A mantissa without a point is not shifted, and a point that would stop more than 32 characters past the
  mantissa stops the shift (source/sqlact.cpp:816-831). The character after E is taken for a sign
  (source/sqlact.cpp:791-796), so that 1.5E12 has the exponent 2 (`Decimal.ExponentExactly`).
  `Decimal.EscapeNumber` says for which texts the number is the one written.

## Model

| member | source | states |
|---|---|---|
| `IndexOrder.LevelsPreserveOrder` | source/sqlex1.cpp:1286-1379 | For any number of NOT NULL columns, every level and both directions: the rows a level reads after the current one begin the rows the level above reads after it, and begin the rest of the lexicographic order; level 1 reads the whole rest. |
| `IndexOrder.LevelIsBlock` | source/sqlex1.cpp:1372-1374 | Equality on the columns before the level and >= or <= on the level's own column select one gapless block of the ordered table, and the current row is in it. |
| `IndexOrder.LevelOneReads` | source/sqlex1.cpp:1372-1374 | Level 1 selects every row from the current one on and, of the earlier ones, exactly those with the same first index column. |
| `IndexOrder.FilterOfOrderBy` | source/sqlex1.cpp:359-392 | Sorting the rows that a WHERE clause selects gives the selected rows of the sorted table, in both directions. |
| `IndexOrder.OrderByIsOrdered` | source/sqlex1.cpp:374-389 | ORDER BY gives the stored rows, all of them and no others, in strict order in the direction asked for. |
| `IndexOrder.LevelOnePage` | source/sqlex1.cpp:1449-1458 | The statement that is executed for a skip, always that of level 1, answers with the rows that share the first column and come before the current row, the current row, and the rest of the order, cut at the limit. |
| `WorkArea.SqlExArea.constructor` | source/sqlex1.cpp:3578-3633 | A new workarea is one that the navigation theorems start from. |
| `WorkArea.SqlExArea.GetCurrentRecordNum` | source/sqlex1.cpp:146-153 | The phantom number at EOF, else the record at the list position. |
| `WorkArea.SqlExArea.GetCleanBuffer` | source/sqlex1.cpp:183-200 | EOF with the phantom number one past the record count; nothing else of the navigation state changes. |
| `WorkArea.SqlExArea.GetRecordList` | source/sqlex1.cpp:1570-1623 | The fetch loop leaves the rows at the front of the list, its size and position, and the hint for the end that was reached; an empty answer leaves everything as it was. |
| `WorkArea.SqlExArea.FetchCurrent` | source/sqlex1.cpp:1470-1489 | The rows up to and including the first one with the current record number are fetched, or all of them when there is none. |
| `WorkArea.SqlExArea.GetPreparedRecordList` | source/sqlex1.cpp:1439-1549 | Result code, list and hints after the statement was executed, the rows up to the current record dropped and the others stored; hints change at level 1 only. |
| `WorkArea.SqlExArea.SearchWindow` | source/sqlex1.cpp:2338-2347 | The first list position with the record, if the table still has it. |
| `WorkArea.SqlExArea.GoTo` | source/sqlex1.cpp:2316-2368 | The whole state after a move to a record: its place in the window, a list of its own, or the phantom record. |
| `WorkArea.SqlExArea.GoTop` | source/sqlex1.cpp:2394-2468 | The whole state after a move to the first row, with and without a hint, on empty tables and after the index was reversed. |
| `WorkArea.SqlExArea.GoBottom` | source/sqlex1.cpp:2240-2312 | The same for the last row. |
| `WorkArea.SqlExArea.TrySkippingOnCache` | source/sqlex1.cpp:2009-2066 | Hit or miss, and the state, for the four combinations of list direction and skip direction. |
| `WorkArea.SqlExArea.PrepareRecordListQuery` | source/sqlex1.cpp:2070-2103 | The statement of one level and one direction is replaced and no other; the comparison in its WHERE clause and its ORDER BY clause, which are computed apart, both go upwards for the forward statement of an index that is not reversed and the backward one of a reversed index, and downwards for the other two. |
| `WorkArea.SqlExArea.CreateSkipStmt` | source/sqlex1.cpp:2107-2180 | When statements must be prepared, both hints and the statements of both directions are dropped, and level 1 of the current direction is ready. |
| `WorkArea.SqlExArea.FeedCurrentRecordToBindings` | source/sqlex1.cpp:934-1000 | The loop over the index columns binds the record number in natural order, else each column's value from the buffer or asked from the table; the current record number is taken again exactly when a column is asked from the table. |
| `WorkArea.SqlExArea.SkipRaw` | source/sqlex1.cpp:2783-2876 | The whole state after one raw skip: from the window, from the database with the retry over the levels, or out of the table. |
| `WorkArea.SqlExArea.Skip` | source/sqlex1.cpp:2644-2695 | The whole state after a skip by any number of rows, with the current record number taken once. |
| `WorkArea.SqlExArea.PerformAll` | source/sqlex1.cpp:2240-2876 | Any sequence of moves shows what the functional model of the window shows. |
| `WorkArea.SqlExArea.PerformFromStart` | source/sqlex1.cpp:2240-2876 | On tables for which the window works, any sequence of GoTop, GoBottom, GoTo (any number but 0) and single skips from a new workarea shows what a plain cursor over the sorted rows shows, and leaves a contiguous window and sound hints. |
| `WorkArea.SqlExArea.CollapseList` | source/sqlex2.cpp:920-924 | After an UPDATE that wrote an index column the list is the current record alone, in the direction it had. |
| `Refinement.GoToRow` | source/sqlex1.cpp:2338-2359 | GoTo keeps the window a contiguous run of the order with the position inside it, and keeps both hints sound. |
| `Refinement.GoEdgeLands` | source/sqlex1.cpp:2416-2453 | GoTop and GoBottom land on the first and the last row of the order, with a contiguous window and sound hints, from every state of the window. |
| `Stepping.BoundKeyIs` | source/sqlex1.cpp:934-1000 | On a row, in the buffer or asked for, the key that is bound is the key of that row in the order. |
| `Stepping.CacheSteps` | source/sqlex1.cpp:2009-2066 | What the window answers is one step of the plain cursor, including at an end that only a hint knows. |
| `Stepping.RefillSteps` | source/sqlex1.cpp:2803-2876 | What a refill answers is one step of the plain cursor, in both directions and when no row is left. |
| `Stepping.RawSkipSteps` | source/sqlex1.cpp:2783-2876 | One raw skip is one step: next row, BOF on the first row, or the phantom record; the window stays a contiguous run and the hints stay sound. |
| `Runs.MoveSimulates` | source/sqlex1.cpp:2240-2876 | Each move keeps the relation between workarea and plain cursor: contiguous window, position inside, lBofAt zero or the first row, lEofAt zero or the last. |
| `Runs.RunSimulates` | source/sqlex1.cpp:2240-2876 | From related states, all runs show the same record numbers, BOF, EOF and return codes. |
| `Runs.RunsAgree` | source/sqlex1.cpp:2240-2876 | Every run from a new workarea shows what the plain cursor shows, Skip(-1) from EOF and repeated skips at either end included. |
| `Runs.WindowStaysGapless` | source/sqlex1.cpp:1570-1623 | After every run the list is a contiguous run of the order in the list's direction with the position inside it (or, at EOF, the one record that a GoTo did not find), lBofAt is zero or the first row, and lEofAt zero or the last. |
| `Updates.OthersStay` | source/sqlex2.cpp:920-924 | After an UPDATE of the index columns of one row, all the other rows are in the order they were in. |
| `Updates.UpdateAgreesExactly` | source/sqlex2.cpp:920-924 | After an UPDATE that moved the current row from place i to place j of the order, all runs of GoTop, GoBottom, GoTo (any number but 0) and single skips agree with the plain cursor over the new order if and only if lBofAt is zero or the row was first exactly if it is first now, and lEofAt is zero or it was last exactly if it is last now. |
| `Updates.StaleHintShows` | source/sqlex2.cpp:920-924 | GoTo the row that a hint wrongly takes for an end, and a skip over that end, differ from the plain cursor: BOF or EOF is shown, although rows follow. |
| `Updates.BottomToTop` | source/sqlex2.cpp:920-924 | On every table of two or more rows: after GoBottom and an UPDATE that moves the last row to the front, Skip(1) shows EOF, where the second row should be shown. |
| `Updates.PairFails` | source/sqlex2.cpp:920-924 | The same for a table with the keys 1 and 2, whose row 2 gets the key 0. |
| `Runs.ListFeedsBuffer` | source/sqlex1.cpp:1886-1891 | In every state of such a run the record list from its position on holds rows of the table, or is a single record: what the record buffer asks for when it reads a page. |
| `Listing.KeysInOrder` | source/sqlex1.cpp:374-389 | From GoTop on by single skips the keys that a program is shown go upwards, and downwards on a reversed index; from GoBottom on by single skips back they go the other way. |
| `Listing.EndsAfterRows` | source/sqlex1.cpp:2240-2876 | On such a way each step shows a row while there are rows; then EOF and the phantom record, or BOF on the first row. |
| `Listing.AllRowsAreShown` | source/sqlex1.cpp:2240-2876 | And each row of the table is shown, if the way is as long as the table. |
| `Listing.GoToShows` | source/sqlex1.cpp:2316-2368 | After any run GoTo (any number but 0) shows the record named if the table has it, else BOF, EOF and the phantom record. |
| `Listing.PlainSkipIsSteps` | source/sqlex1.cpp:2644-2695 | The plain cursor, against which skips by several rows are judged, skips n rows as n single skips, in both directions and over both ends. |
| `Exactness.EmptyTableFails` | source/sqlex1.cpp:2688-2690 | On an empty table the run GoTop, Skip(-1) differs from the plain cursor: EOF is turned off. |
| `Exactness.LimitFails` | source/sqlex1.cpp:1474-1482 | When RECORD_LIST_SIZE rows that share the first index column come before a row that has a successor and the dialect limits rows, GoTo that row and a single skip differ from the plain cursor. |
| `Exactness.EdgeSizeFails` | source/sqlex1.cpp:2817 | With exactly RECORD_LIST_SIZE / 10 rows the run GoTop, GoTo last, Skip(1), GoTo first, Skip(-1), Skip(-1) differs: the list direction turns while the list stays. |
| `Exactness.WindowAgreesExactly` | source/sqlex1.cpp:2240-2876 | All runs of GoTop, GoBottom, GoTo (any number but 0) and single skips agree with the plain cursor if and only if the table has rows, not exactly RECORD_LIST_SIZE / 10 of them, and the dialect has no limit or at most RECORD_LIST_SIZE - 1 rows that share a first column precede one that has a successor. |
| `Skips.SkipBackExactly` | source/sqlex1.cpp:2789-2791 | A skip back by n rows from the phantom record shows the right row if and only if n is 1: it always lands on the last row. |
| `Skips.SkipManyLands` | source/sqlex1.cpp:2663 | Where a skip by n rows goes, for every index and window, when the record number is taken once: at the edge of the window, or of the next one, it runs out if a hint knows the edge or the row it started from has another first index column; otherwise it goes back to the row after the one it started from, and round. |
| `Skips.SkipManyExactly` | source/sqlex1.cpp:2663 | For every index, a skip by n rows from a row shows the right row if and only if it stays within the window, or at its edge within the next one; and a skip that leaves the table shows its end if and only if it runs out. |
| `Skips.SkipFromTopExactly` | source/sqlex1.cpp:2663 | After GoTop, a skip by n rows inside the table is right if and only if n is less than RECORD_LIST_SIZE / 10; one beyond the end is right if and only if GoTop read the whole table, or the last row it read, or the last row of the next window once that is passed, has another first index column than the first row. |
| `Skips.SkipManyWithOwnRecord` | source/sqlex1.cpp:446 | When an index column has to be read from the database, which takes the current record number again, skips by any number of rows are right. |
| `Skips.GoToZeroExactly` | source/sqlex1.cpp:2330-2335 | In every state on a row: GoTo(0) shows the phantom record; then a single skip back is right; a skip forward is right if and only if the row is the last one, or the window has no row after it and no index column is asked from the table. |
| `RecordBuffer.FieldIsListed` | source/sqlex1.cpp:1693-1773 | A listed field's result column comes after RECNO, the deletion mark if there is one, and the listed fields before it. |
| `RecordBuffer.FetchesOwnColumnsExactly` | source/sqlex1.cpp:1964-1978 | Every field reads its own column after a fetch, for all rows and column lists, if and only if its buffer position is its own number or lies beyond all fields: the fetch stores by field number, GetValue reads by uiBufferIndex. |
| `RecordBuffer.SqlExBuffer.GetColumnList` | source/sqlex1.cpp:1661-1775 | Which list is written and when; the status never returns to LEARNING, and STABLE means exactly the marked fields. |
| `RecordBuffer.SqlExBuffer.FetchRecord` | source/sqlex1.cpp:1956-1980 | Each field is read from exactly the result column that the list has for it, and fields that are not listed stay NIL. |
| `RecordBuffer.SqlExBuffer.SetBindVars` | source/sqlex1.cpp:1886-1891 | The rows asked for are the first pageReadSize of the list that the table has, and no more than a page. |
| `RecordBuffer.SqlExBuffer.UpdateRecordBuffer` | source/sqlex1.cpp:1779-2006 | Success, the coherent record in the buffer, the pool coherent and within its bound, in whatever order the rows come. |
| `RecordBuffer.SqlExBuffer.GetValue` | source/sqlex1.cpp:3035-3094 | The value shown is the field's value, whether it was buffered or had to be read; the field is marked, and the column list is to change when it was not marked before. |
| `RecordBuffer.SqlExBuffer.PutValue` | source/sqlex1.cpp:3238-3330 | One field of the shown record changes and nothing else that is shown; the field is marked as in GetValue. |
| `RecordBuffer.EditedShows` | source/sqlex2.cpp:764-773 | After an UPDATE of exactly the edited columns the row is what the buffer showed, and the buffer agrees with the row. |
| `RecordBuffer.SqlExBuffer.ExecuteUpdateStmt` | source/sqlex2.cpp:891-938 | The row becomes what was shown, columns that were not edited and other rows keep their values, and the pool agrees with the table. |
| `RecordBuffer.SqlExBuffer.GoCold` | source/sqlex1.cpp:3163-3220 | Edits are written to the current row, or dropped on the phantom record, and forgotten. |
| `RecordBuffer.SqlExBuffer.MoveTo` | source/sqlex1.cpp:2338-2365 | A move shows the row as it is in the table after the edits of the record left were written, or the phantom record. |
| `RecordBuffer.SqlExBuffer.PerformAll` | source/sqlex1.cpp:1779-2006 | Over every mix of reads, writes, moves and flushes a program reads what a buffer without pool and column list would show; the pool never exceeds bufferPoolSize + pageReadSize. |
| `RecordBuffer.WrittenReadsBack` | source/sqlex1.cpp:3163-3220 | What the buffer is judged by: a field that was written reads back after a move away, a flush or the phantom record, and a move back, and the other fields are as they were. |
| `RecordBuffer.OnlyShownRowChanges` | source/sqlex1.cpp:3163-3220 | And no call changes a row other than the one shown, or the set of rows. |
| `RecordBuffer.SqlExBuffer.GoColdInSkip` | source/sqlex1.cpp:2666-2787 | GOCOLD as a skip calls it, after EOF was turned off: edits of a row are written to it; edits of the phantom record are written to the record where the list stands, and the pool's copy of that record becomes the phantom record with its edits. |
| `RecordBuffer.EditedKeepsExactly` | source/sqlex2.cpp:764-773 | An UPDATE of the edited columns keeps the row as it is if and only if the edits repeat its values. |
| `RecordBuffer.PhantomCopyExactly` | source/sqlex2.cpp:926-935 | When edits of the phantom record are written to a row, the pool's copy agrees with the row if and only if its fields without edits are blank. |
| `Browse.SqlExTable.Follow` | source/sqlex1.cpp:2009-2066 | After a move of the workarea the buffer shows the row that the cursor is on, the phantom record at EOF, or the record that was shown, when a skip ran into BOF. |
| `Browse.SqlExTable.MoveBy` | source/sqlex1.cpp:2240-2876 | One move of workarea and record buffer together: edits are written, the cursor moves as the plain one, the record shown is that of its row as it is in the table now, and both parts stay sound. |
| `Browse.SqlExTable.PerformAll` | source/sqlex1.cpp:2240-3330 | Any sequence of moves, reads and writes of fields outside the index, over navigation, record buffer, pool and column list together, returns what it would over a plain cursor and a table with fields, unless it skips from an edited phantom record. |
| `Browse.SqlExTable.PerformFromStart` | source/sqlex1.cpp:2240-3330 | The same from opening on, with the move to the first row before the first skip, read or write. |
| `Browse.SqlExTable.SkipFromEdited` | source/sqlex1.cpp:2666-2787 | Edits of the phantom record that a skip finds are written to the last row of the order, and to no other; the table keeps its rows if and only if a GoTo to a record that is not there left the list, or the edits repeat the values of the last row. |
| `Ring.FixedIsCongruent` | source/sqlrdd1.cpp:137-144 | Fixing a pointer brings it into the ring without changing its place modulo the ring's size. |
| `Ring.RangeIsModular` | source/sqlrdd1.cpp:157-166 | The three-branch range test is a test for a modular interval. |
| `Ring.EndsExactly` | source/sqlrdd1.cpp:186-192 | A search ends if and only if the window leaves a slot of the ring free or the ring has a live slot. |
| `Ring.Cache.SearchCacheFWD` | source/sqlrdd1.cpp:170-195 | The loop ends. From a position in a window that leaves a slot free it returns the nearest live slot ahead in the window, or 0 when there is none: after the current slot when the cache status is set, from it on when not. In a full ring it returns the first live slot on the way round, the current one last when the status is set. Without a position it returns 0. |
| `Ring.Cache.SearchCacheBWD` | source/sqlrdd1.cpp:199-224 | The same backward. |
| `Ring.NextIsNearest` | source/sqlrdd1.cpp:170-195 | The nearest live slot of the window after the position, or 0 and then all slots after it are NIL. |
| `Ring.PreviousIsNearest` | source/sqlrdd1.cpp:199-224 | The nearest live slot of the window before the position, or 0 and then all slots before it are NIL. |
| `Ring.SearchFinds` | source/sqlrdd1.cpp:170-224 | A search in either way, with or without the current slot, finds the nearest live slot on its way: inside the window when that leaves a slot free, round the ring when it does not. |
| `Ring.WalkIsReversible` | source/sqlrdd1.cpp:849-933 | For live slots p and q: the search forward from p gives q if and only if the search backward from q gives p. |
| `Ring.WalkEnumerates` | source/sqlrdd1.cpp:849-855 | Repeated forward search visits exactly the later live slots of the window, once each and in ring order. |
| `Ring.WalkEndsExactly` | source/sqlrdd1.cpp:186-194 | From the last live slot of the window the search finds nothing if and only if the window leaves a slot free; in a full ring it comes round to an earlier live slot, or to its own. |
| `Quoting.EscapeInto` | source/sqlact.cpp:348-515 | The escape loops write the escaped text and its NUL from the given position on and nothing else. |
| `Quoting.QuoteTrimEscapeString` | source/sqlact.cpp:581-638 | The quoted text, at most 2|s| + 2 characters long, and its NUL, inside a buffer of 2|s| + 3. |
| `Quoting.TrimOfEscape` | source/sqlact.cpp:627-629 | The right trim of the escaped text is the escaped text of the right trim. |
| `Quoting.QuotedReadsBack` | source/sqlact.cpp:581-638 | Reading the literal by the system's rule ends at its last character, whatever follows, and gives the string: all of it for MySQL and the systems that double quotes only, without its NUL characters for PostgreSQL, Oracle and Cache, with a blank for each NUL for Firebird and DB2; trailing blanks gone when asked for. |
| `Quoting.CleanIsMeant` | source/sqlact.cpp:348-515 | What the escape functions let through is the string itself, the string without its NUL characters, or with blanks for them, by system. |
| `Quoting.SpecialsExactly` | source/sqlact.cpp:348-515 | Exactly the named characters are not written as they are: for MySQL NUL, line feed, carriage return, backslash, both quotes and character 26; for PostgreSQL NUL, backslash and quote; for Oracle, Firebird and DB2 NUL and quote; for the others the quote. |
| `Quoting.ReadsBackExactly` | source/sqlact.cpp:589-621 | Literals read back for all strings if and only if the system has an escape function; for the others the text between the quotes is never written. |
| `Quoting.PgsStandardExactly` | source/sqlact.cpp:466-492 | Under standard_conforming_strings a PostgreSQL literal, trimmed or not, reads back if and only if the string has no backslash. |
| `Lexer.ScanString` | source/sqllex.cpp:162-190 | The token, its text and the new queryPtr of the string branch; after a backslash a character is skipped, after an escaped quote one more. |
| `Lexer.ReadsBackExactly` | source/sqllex.cpp:162-190 | Whatever text follows the literal, the lexer reads it as one string token with exactly the escaped body and queryPtr just past the closing quote, if and only if: for MySQL each quote is followed, backslashes apart, by a character that is not a quote; for PostgreSQL there is no quote; for the others each quote follows an open backslash and none is open at the end. |
| `Lexer.WithoutQuotes` | source/sqllex.cpp:162-190 | So the MySQL or PostgreSQL literal of a string without a single quote, followed by any text, is one string token: the escaped body. |
| `Tokens.SwitchIsLookup` | source/sqllex.cpp:331-730 | The nested switch gives the keyword that the longest identifier gives when it is looked up without regard to case, function forms needing their parenthesis. |
| `Tokens.KeywordIsLookedUp` | source/sqllex.cpp:331-730 | The same for the source's table. |
| `Tokens.RightIsIdentifier` | source/sqllex.cpp:631-637 | RIGHT without a parenthesis after it, as in RIGHT OUTER JOIN, is an identifier. |
| `Tokens.TokenAdvancesExactly` | source/sqllex.cpp:84-743 | A token that is neither the end nor an error lies inside the query, and queryPtr moves past it if and only if it is not a lone exclamation mark. |
| `Tokens.LoneBangStays` | source/sqllex.cpp:311-320 | At a lone exclamation mark the lexer returns NOT and stays, so it returns NOT there for ever. |
| `Tokens.TwoCharacterMarks` | source/sqllex.cpp:262-330 | <=, <>, !=, >=, == and ?? are one token each, with its relation, and queryPtr moves by two. |
| `Tokens.OneCharacterMarks` | source/sqllex.cpp:226-330 | The marks of one character, when the next does not belong to them, are their token, and queryPtr moves by one. |
| `Tokens.QuotedName` | source/sqllex.cpp:192-211 | A name in double quotes is one token with the text between them; without a closing quote it is an error. |
| `Tokens.DateToken` | source/sqllex.cpp:213-226 | Eight characters in brackets are a date. |
| `Tokens.IntegerToken` | source/sqllex.cpp:102-130 | An integer goes to its last digit, a minus sign before it included. |
| `Tokens.KeywordToken` | source/sqllex.cpp:331-730 | A word of the table under its first letter, in either case, is that keyword, with the parenthesis of a function. |
| `Tokens.IdentToken` | source/sqllex.cpp:732-741 | Any other word is an identifier with its text, up to its last letter, digit or underscore. |
| `Tokens.SpacesBefore` | source/sqllex.cpp:89-93 | Blanks before a token are passed over, and no more. |
| `Tokens.NextToken` | source/sqllex.cpp:78-743 | The branches and loops of the lexer find the token and the new queryPtr. |
| `Tokens.Tokenize` | source/sqllex.cpp:78-743 | A query in which no token begins at a lone exclamation mark gives all its tokens, at most queryLen of them; an exclamation mark inside a string or a quoted name does not matter. |
| `Decimal.CopyMantissa` | source/sqlact.cpp:775-810 | The mantissa with comma as point, its length, the position of its last point, and NUL behind it. |
| `Decimal.MovePoint` | source/sqlact.cpp:816-831 | The text that the shift leaves; every write stays inside the buffer. |
| `Decimal.EscapeNumber` | source/sqlact.cpp:756-831 | From the text to the number. A text without E keeps its characters, a comma becoming a point. For a mantissa with one point or comma, E and an exponent, what is left is the number written if and only if the mantissa or the exponent is zero, or the exponent is positive, begins with a sign or a zero in its place, has at most three more digits and takes the point no further than 32 characters past the mantissa; for a mantissa without one, if and only if the mantissa or the exponent is zero. |
| `Decimal.NumberExactly` | source/sqlact.cpp:789-831 | The text left for a number in scientific notation is that number if and only if it is zero, or its exponent is, or the exponent is read as written and the point stays inside the buffer. |
| `Decimal.ShiftExactly` | source/sqlact.cpp:816-831 | The shift multiplies the number by ten to the exponent if and only if the point stops no further than 32 characters past the mantissa, or the number is zero. |
| `Decimal.WithoutPointExactly` | source/sqlact.cpp:816-831 | A mantissa without a point is left as it is, which is right if and only if the exponent or the number is zero. |
| `Decimal.ExponentExactly` | source/sqlact.cpp:789-809 | The exponent that is read is the one that is written if and only if it begins with a sign or with a zero in its place, and has at most three more digits or is zero. |
| `Decimal.UnsignedExponentFails` | source/sqlact.cpp:789-809 | The exponent of 1.5E12 is read as 2. |
| `Seek.SlicesPartition` | source/sqlex3.cpp:408-535 | The slices of the key are consecutive and disjoint, and joined they are the part of the key that the columns cover. |
| `Seek.LevelIsLeast` | source/sqlex3.cpp:527-535 | queryLevel is the least number of columns whose widths cover the key, or all of them. |
| `Seek.SeekBind.BindColumn` | source/sqlex3.cpp:419-458 | The slice up to its last character that is not a blank is bound to the column and to no other; for a slice of blanks only, nothing with the NULL mark, or one blank if the column cannot be NULL. The statement is to be rebuilt exactly when the NULL mark changes. |
| `Seek.SeekBind.FeedSeekKeyToBindings` | source/sqlex3.cpp:401-540 | Each column of the level is bound to its slice, the other columns keep what they had. |
| `Seek.ComparesExactly` | source/sqlex1.cpp:4460-4538 | The final comparison, whose lengths are kept in bytes, tests for a prefix for all texts if and only if a condition on the two lengths holds; below 256 it always does. |
| `Seek.SeekFindsExactly` | source/sqlex1.cpp:2534-2606 | A forward seek on an ascending index of NOT NULL character columns sets fFound if and only if some row's key begins with the key sought, and then it is on the first such row in order; for the lengths that SeekWorksExactly names. |
| `Seek.FindKey` | source/sqlex1.cpp:2515-2580 | From the key to fFound: the key is split over the columns, the statement is executed, its row compared; fFound is set if and only if some key begins with the one sought, and the row is the first such. |
| `Seek.SeekWorksExactly` | source/sqlex1.cpp:4522-4538 | For all tables and all keys of a length, fFound is set if and only if some row's key begins with the key: this holds exactly for the lengths that the comparison can bear, whatever the index columns. |
| `Seek.SoftSeekExactly` | source/sqlex1.cpp:2600-2606 | A soft seek goes to the first row not before the key if and only if that row has the key's columns before the last one used; otherwise it goes to EOF. |
| `Seek.SoftSeekMisses` | source/sqlex1.cpp:2600-2627 | On an index of two columns of one character and a table with the row BA, a soft seek for AB finds no row, although BA is not before AB. |
| `Bindings.ClauseMeans` | source/sqlex1.cpp:1006-1112 | For every pattern of NULLs, level, direction and filters the clause is empty or one WHERE with conditions joined by AND, and requires exactly what its columns and its filters that are not empty require. |
| `Bindings.ClauseReads` | source/sqlex1.cpp:1340-1377 | For every record and row with any NULLs, level, direction and filters: the row meets the clause, with the record's values bound, if and only if it passes the filters and, column by column, a value is equal, or in the last column not less (not greater on the way down), and a NULL is NULL, or in the last column not less than zero (not greater) if it is numeric and anything if it is left free. |
| `Bindings.SkipReadsLevel` | source/sqlex1.cpp:1286-1377 | Without NULLs the clause of a level selects the rows that the level selects in IndexOrder: equal columns before it, and >= in it forward, <= backward, the other way round on a reversed index. |
| `Bindings.SkipReadsExactly` | source/sqlex1.cpp:1340-1377 | With NULLs, which come first or stand for zero in a numeric column, the clause selects the rows of its level if and only if they have no NULL where the record has a value, and in numeric columns before the last no value where the record has NULL. |
| `Bindings.NullIsNotRead` | source/sqlex1.cpp:1369-1374 | A skip back from a value does not read a row with NULL, which comes before it. |
| `Bindings.SeekReadsLevel` | source/sqlex3.cpp:130-168 | The clause of a seek without NULLs selects the rows of its level, in the direction of the seek and of the index. |
| `Bindings.SeekReadsAsSkip` | source/sqlex3.cpp:138-168 | With NULLs a seek reads what a skip from the key would, unless it seeks NULL in a last column that is not numeric, on a reversed index: there it reads the rows with a value exactly where a skip does not. |
| `Bindings.PlaceholdersMatch` | source/sqlex1.cpp:853-929 | The placeholders of the text are the parameters of the separate binding loop: as many, in the same order, for the same columns; for skips of every level and for seeks. |
| `Bindings.IndexStatements.GetWhereExpression` | source/sqlex1.cpp:1267-1390 | The clause of a level, and the refreshed NULL mark of that level's own column. |
| `Bindings.IndexStatements.CreateSkipStmt` | source/sqlex1.cpp:2107-2180 | When it prepares, every level's clause is for the current record's NULLs and every mark is refreshed. |
| `Bindings.IndexStatements.BindAllIndexStmts` | source/sqlex1.cpp:825-929 | Every statement has its parameters bound. |
| `Bindings.IndexStatements.FeedCurrentRecordToBindings` | source/sqlex1.cpp:934-1000 | It ends; it prepares the statements exactly once when a column is newly NULL, and then all are right for the record; otherwise it prepares none and changes none. |
| `Bindings.IndexStatements.GetSeekWhereExpression` | source/sqlex3.cpp:110-179 | The clause of a seek over the marks that the key left. |
| `Bindings.IndexStatements.PrepareSeek` | source/sqlex3.cpp:592-681 | A seek statement's placeholders are its bound parameters. |
| `Bindings.IndexStatements.PrepareSkip` | source/sqlex1.cpp:2819-2829 | Before a skip reads, its statements are right for the record and the filters if and only if they were just prepared, or a column is newly NULL, or none has ceased to be NULL and the filters are those they were prepared with. |
| `Bindings.IndexStatements.GetEdgeWhereExpression` | source/sqlex1.cpp:1280-1390 | The clause of GoTop and GoBottom has the filters alone, and clears the mark for a changed condition. |
| `Bindings.IndexStatements.FilterAndSkip` | source/sqlex1.cpp:4020-4031 | After a change of filters a skip reads with the right statements if and only if no GoTop or GoBottom asked the database in between, or the filters are the same, empty ones apart, with no column that ceased to be NULL, or a column is newly NULL. |
| `Bindings.FilterIsMissed` | source/sqlex1.cpp:1282 | A filter set between two skips, with a GoTop after it: the second skip's statements are not those for the filter. |
| `Bindings.SameFilters` | source/sqlex1.cpp:1006-1112 | Two clauses over the same columns are the same if and only if their filters are, empty ones apart. |
| `Bindings.CurrentRowMatches` | source/sqlex1.cpp:1460-1468 | A statement that is right for the record has the record in its result, at every level. |
| `Bindings.CurrentRowMatchesExactly` | source/sqlex1.cpp:1340-1377 | A statement prepared for other NULLs has the current row in its result if and only if the first column's mark is off, or the column is NULL, or compares with zero on the right side, or is unrestricted. |
| `Insert.CreateInsertStmt` | source/sqlex2.cpp:247-271 | The column list, and inside the buffer of 600 characters the parameter list: a blank, then a question mark for each column with a comma between each two, and NUL. |
| `Insert.FitsExactly` | source/sqlex2.cpp:230-271 | Every write of the parameter list stays inside its buffer if and only if there are at most 299 columns without RECNO; otherwise the NUL of column 300 is the first outside, or of column 301 when RECNO is among the first 300. |
| `Insert.BindInsertColumns` | source/sqlex2.cpp:439-526 | The parameter number of each column, none for RECNO. |
| `Insert.ListsMatch` | source/sqlex2.cpp:449-512 | The column list, the question marks and the parameter numbers enumerate the same columns. |

## Left out

- Cursor: the row set, the filter, the order and the reverse flag are fixed during a run, SET DELETED is off and there is no filter block, so that a skip does not look for a visible row; record numbers given to GoTo are not negative.
- Changes of filters and scopes between moves are part of Bindings (the text of the statements), not of the runs of Cursor.
- SQL execution is filter, sort and limit; the key of an index is unique, and its values are ranks, so that collations, NULLs in the order and type conversions are not modelled.
- Skips.SkipManyExactly: a table for which single skips work, and an index none of whose columns is asked from the table; for the others see `Skips.SkipManyWithOwnRecord`.
- WorkArea.SqlExArea.TrySkippingOnCache: by one row, the only way in which sqlExSkip calls it; other steps are left out.
- WorkArea.SqlExArea.SkipRaw: by one row, like TrySkippingOnCache.
- WorkArea.SqlExArea.GoTo: record numbers are not negative.
- WorkArea.SqlExArea.FeedCurrentRecordToBindings: either all columns of the index are in the record buffer or all are asked from the table; indexes with columns of both kinds are left out.
- Integer widths: record numbers, counts and positions are unbounded, except where a byte-wide length matters (`Seek.KeyCompare`).
- RecordBuffer.SqlExBuffer.constructor: starts on the phantom record; the move to the first row before the first use (`firstinteract`) is part of the navigation model and of Browse.
- Browse.SqlExTable.PerformAll: single skips, GoTo to any number but 0, fields outside the index (for the others see Updates), and no skip from an edited phantom record, for which see `Browse.SqlExTable.SkipFromEdited`; the database row set is the same throughout.
- Updates.UpdateAgreesExactly: the UPDATE keeps the current row in the row set, and keys unique.
- WorkArea.SqlExArea.PerformFromStart: has no GoTo(0), which keeps the window where it was; `Skips.GoToZeroExactly` says what the next skip shows.
- RecordBuffer.SqlExBuffer.ExecuteUpdateStmt: writes exactly the edited columns; the reuse of a prepared statement by comparing column masks is not modelled, nor are concurrent writers.
- RecordBuffer.SqlExBuffer.UpdateRecordBuffer: for buffers whose `uiBufferIndex` is aligned; for the others `RecordBuffer.FetchesOwnColumnsExactly` says that a fetch reads wrong columns.
- RecordBuffer.SqlExBuffer.PerformAll: like UpdateRecordBuffer.
- RecordBuffer.SqlExBuffer.GoCold: writes edits by UPDATE; the branch that inserts an appended record is left out.
- RecordBuffer.SqlExBuffer.PutValue: takes a value of the column; the conversion from the program's types is left out, and so are appended records.
- RecordBuffer.SqlExBuffer.GetColumnList: seeks are kept out, because they can take a change of the column list without the statement that reads pages being rebuilt.
- Seek.SeekFindsExactly: forward seeks for string keys on ascending indexes of NOT NULL character columns; backward seeks, numbers, dates and nullable columns are left out beyond what is bound for them.
- Seek.FindKey: the database is a parameter that answers as the statement asks; the text of the statement and its parameters are in Bindings, and the binding loop is `Seek.SeekBind.FeedSeekKeyToBindings`.
- Bindings.CurrentRowMatches: the filters have no placeholders of their own and hold for the current row.
- Decimal.EscapeNumber: says nothing about mantissas with two or more points, which are no numbers.
- Decimal.ShiftExactly: what the buffer's text means as a number; the conversion of that text to a number by the runtime is left out.
- Quoting.ReadsBackExactly: octal and hexadecimal escapes of PostgreSQL are not modelled; the quoting never writes one.
- Tokens.NextToken: the reading of real numbers by the C library is a parameter that says how many characters it takes; the grammar over the tokens and its pCode are left out.
- Insert.BindInsertColumns: parameter numbers and columns; the execution of INSERT and the record number it returns are left out.
- Ring: the page size is any positive constant, and the reading of pages into the ring by the program part of the driver is left out.
- ODBC calls, statement handles and errors, relations, locks, historic tables, multi-language fields, code pages, hexadecimal encoding, and the virtual machine's item interface.
