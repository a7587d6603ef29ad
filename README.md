# A verified model of the generic CRUD/transaction engine of `database`

The Go package `database` wraps GORM behind one interface, `DBOperation`.
Its engine is the set of `dbOperation` methods in `db.go`:
- `Create` and `CreateInBatches` insert records;
- `QueryRow`, `QueryList` and `QueryAll` read;
- `DeleteRow` and `UpdateRow` change rows;
- `Close` releases the connection pool.

Every method except `Close` first validates its record argument. A nil
argument and a non-pointer argument are refused. The mutating methods then
begin a transaction, run one delegated GORM statement, and roll back on
failure or commit on success. The result of `Begin` is not checked: when it
fails, GORM keeps its error in the transaction handle, so the statement is
skipped and returns that error, and the `Rollback` sends nothing. The reads run outside any transaction. `QueryList` also
defaults and applies pagination.

This project models that engine in Dafny. The store and GORM are abstracted:

- `Database.DbOperation` is the handle. `tables` holds the committed rows of
  every table in natural (primary-key) order. `trace` holds the statements
  sent on the connection, in order: `Begin`, each delegated statement with
  its success, `Commit` with its success, and `Rollback`. The trace makes
  two things statable: a refused argument reaches the server with nothing,
  and a read opens no transaction. A failed `Begin` is recorded as such and
  is the only statement of its operation.
- A record argument (`interface{}` checked by reflection) is
  `Validation.Ref<T> = Nil | NonPointer | Pointer(cell)`. A `Cell` is the
  storage the pointer refers to, and the reads write their results into it.
- A filter (`query, args...`) is a predicate `R -> bool`. An `ORDER BY`
  string is interpreted by a function parameter `sortBy`. What `Updates`
  does with a patch is a function parameter `merge`.
- Each GORM step (`Begin`, the statement, `Count`, `Find`, `First`, `Commit`,
  `DB()`, `sqlDB.Close()`) ends in an `Outcome` (`Ok` or `Fail(error)`).
  The caller of the model supplies it, as the database would. GORM's
  "record not found" follows from the store itself: `First` reports it
  when the filter matches no row, and the `Outcome` given for `First`
  stands for its other failures only.

The transaction state machine is `Transactions.Phase`. A valid argument
runs a mutating operation from a quiescent phase to exactly one of
`BeginFailed`, `RolledBack`, `Committed` or `CommitFailed`; all but the
first pass through `InTx`. The class invariant
`Valid()` says no transaction is ever left open between calls. The
committed table changes only in the `Committed` case.

Arithmetic on Go `int` is 64-bit (`Paging.GoInt`), and the wrap-around of
the offset product is written out (`Paging.Wrap`).

Three details follow the code:
- The validation messages are the code's own: "value not be null" (for the
  mutating methods), "out not be null" (for the reads) and "value must be a
  pointer".
- `QueryAll`'s count equals the number of rows returned only when the fetch
  succeeds and the ordering only rearranges rows (`Database.AllRowsCounted`).
- When `Count` fails, `QueryList` and `QueryAll` return count 0 with that
  error. GORM keeps the error in the builder, so `Find` sends nothing.

## Model

| member | source | states |
|---|---|---|
| Validation.Validate | db.go:117-122 | the argument passes exactly when it is a pointer; nil gives the operation's null message, a non-pointer "value must be a pointer" |
| Paging.Normalise | db.go:193-198 | page becomes at least 1 and page size at least 0; page <= 0 becomes 1, page size < 0 becomes 10, other values (page size 0 included) are kept |
| Paging.NormaliseDefaults | db.go:193-198 | every page <= 0 selects what page 1 selects; every negative page size selects what page size 10 selects |
| Paging.NormaliseIdempotent | db.go:193-198 | normalised values are left as they are by a second normalisation |
| Paging.Wrap | db.go:199 | Go's `int` arithmetic: the result is the 64-bit value congruent to the exact one modulo 2^64, and equals it when it fits |
| Paging.OffsetAsWritten | db.go:199 | the offset as Go computes it: congruent to (page-1)*pagesize modulo 2^64 |
| Paging.OffsetAsWrittenCanBeNegative | db.go:199 | page 2^62+1 and page size 2 give offset -2^63 although both are normalised |
| Paging.Offset | db.go:199 | the intended offset is a natural number; it is 0 exactly on page 1 or with page size 0, and otherwise at least page-1 and at least the page size |
| Paging.OffsetAgrees | db.go:199 | where the product fits in an int, the offset as written equals the intended one |
| Paging.OffsetOfNextPage | db.go:199-200 | every page starts where the previous one ends |
| Paging.Window | db.go:200 | Offset/Limit selects rows offset .. offset+limit-1 of the input, in order, clipped to its length |
| Paging.PagesArePrefix | db.go:199-200 | pages 1..k together are the first rows up to the end of page k (k*pagesize of them, clipped) |
| Paging.PagesCoverAll | db.go:191-200 | pages 1..ceil(count/pagesize) together are all selected rows, each once, in order |
| Paging.OffsetIsSpan | db.go:199-200 | the offset QueryList computes for page k is where page k of the page-by-page walk starts, so that walk is QueryList's pages in turn |
| Paging.PageBeyondLastIsEmpty | db.go:199-200 | a page past ceil(count/pagesize) holds no rows |
| Tables.RowsOfStore | db.go:185 | a statement on `Table(table)` touches that table only: the table stored is the one read back, and every other table reads as before |
| Tables.Matching | db.go:185 | the rows Where selects are exactly the table rows satisfying the filter, never more than the table holds |
| Tables.MatchingWithinTable | db.go:185 | Where selects each row at most as often as the table holds it |
| Tables.MatchingHeadIsFirst | db.go:166 | the first selected row is a table row that no earlier table row satisfying the filter precedes |
| Tables.MatchingAfterInsert | db.go:124 | after an insert, the rows selected are the earlier selection followed by the inserted rows that match |
| Tables.Without | db.go:244 | what a filtered Delete leaves is exactly the rows the filter does not select |
| Tables.SplitCount | db.go:244-253 | deleted plus remaining rows are the whole table, so the affected count is the number of rows removed |
| Tables.WithoutNothing | db.go:244-254 | a Delete whose filter matches nothing leaves the table as it was |
| Tables.Patched | db.go:268 | Updates keeps the table length and positions, merges the patch into every selected row and leaves every other row as it was |
| Tables.PatchNothing | db.go:268-279 | an update whose filter matches nothing leaves the table as it was |
| Transactions.TxResult | db.go:123-134 | a mutating call ends committed exactly when Begin, statement and commit all succeed, and never with a transaction open |
| Transactions.TxEventsClose | db.go:123-134 | a failed Begin alone, or Begin, the statement, and Rollback on failure or Commit on success, take any quiescent phase to BeginFailed, RolledBack, Committed or CommitFailed |
| Transactions.DirectKeepsPhase | db.go:185-206 | statements sent outside a transaction neither open nor close one |
| Database.SequenceError | db.go:123-134 | the statement's error is returned unchanged when it fails, else the commit's (for reads: Count's, else Find's), and nil only when both succeed |
| Database.TxError | db.go:123-134 | a failed Begin's error is returned unchanged; otherwise the statement's, else the commit's; nil exactly when all three succeed |
| Database.TxErrorIffCommitted | db.go:123-134 | an operation returns a nil error exactly when its transaction reached Committed |
| Database.FirstError | db.go:166 | First fails with its own error, gives not-found exactly when the step succeeds and no row matches, and succeeds otherwise |
| Database.FirstRow | db.go:166 | the row First delivers is the earliest row of the table, in its natural order, that satisfies the filter |
| Database.RowOutcome | db.go:167-172 | not-found gives (false, nil), any other error gives (false, that error), success gives (true, nil); (false, nil) arises from not-found only |
| Database.FirstAfterInsert | db.go:159-172 | a row just inserted is found by a filter it satisfies, and is the row read when no earlier row matches |
| Database.OrderedKeepsRows | db.go:187-189 | when the ORDER BY only rearranges rows, the ordered rows are every selected row, each as often as it is selected, and no other row |
| Database.ReadEvents | db.go:191-203 | a read sends Count and then, unless Count failed, Find; never Begin, Commit or Rollback |
| Database.ReadCount | db.go:191 | the reported count is the number of rows the filter selects (0 if Count failed), whatever the page, page size or order |
| Database.AllRowsCounted | db.go:219-230 | when the ordering only rearranges rows, QueryAll returns as many rows as it counts |
| Database.PageWithinCount | db.go:191-200 | a page holds at most page-size rows and at most the counted total |
| Database.DbOperation.Transact | db.go:123-134 | begins; if that succeeded, runs, then rolls back or commits; trace, final phase, error and table are those of the transaction, and the table changes only when it commits |
| Database.DbOperation.Create | db.go:116-135 | a refused argument changes nothing and sends nothing; otherwise the record is appended to the table only when Begin, insert and commit all succeed, and the error is the failing step's |
| Database.DbOperation.CreateInBatches | db.go:138-156 | as Create for a slice: all records are appended or none is |
| Database.DbOperation.DeleteRow | db.go:234-255 | a refused argument gives (0, error) and changes nothing; otherwise the selected rows are removed and their number is returned only after a successful commit, else 0 with the failing step's error and the table unchanged |
| Database.DbOperation.UpdateRow | db.go:258-280 | as DeleteRow, with the selected rows merged with the patch instead of removed |
| Database.DbOperation.QueryRow | db.go:159-173 | a refused argument gives (false, error); otherwise (for a `First` failure other than not-found, which only the table decides) one First is sent outside any transaction, the result follows RowOutcome and the first selected row is written only when found |
| Database.DbOperation.QueryList | db.go:176-207 | a refused argument gives (0, error); otherwise no transaction is opened and the total count is returned even when Find fails; on success the page of ordered selected rows at the normalised offset is written |
| Database.DbOperation.QueryAll | db.go:210-231 | as QueryList without offset or limit: all ordered selected rows are written |
| Database.DbOperation.Close | db.go:102-113 | a nil handle gives "database connection is nil"; a failing DB() gives the prefixed message; otherwise the pool's close error |

## Findings

| source | as written | input that shows it | evidently intended | confidence | as-written member | corrected member |
|---|---|---|---|---|---|---|
| db.go:199 | `offset := (page - 1) * pagesize` is computed in Go `int`, which wraps around | page = 4611686018427387905 (2^62+1), pagesize = 2: the offset is -9223372036854775808 | the offset of the requested page, (page-1)*pagesize, which is never negative | not executed; the wrap-around is certain for 64-bit `int`, how GORM renders a negative offset is not modelled | Paging.OffsetAsWrittenCanBeNegative | Paging.Offset |

The model's `QueryList` uses `Paging.Offset`. `Paging.OffsetAgrees` shows
that the two offsets agree wherever the product fits in an `int`.

## Left out

- Database.DbOperation.Create: the record is appended after every stored row. Keys are therefore assumed to grow with insertion (auto-increment, as in db_test.go, where `Id` is left unset); a record with an explicit key below a stored key is not placed in key order.
- Database.DbOperation.CreateInBatches: the records are appended, under the same assumption that keys grow with insertion.
- Without an ORDER BY, SQL promises no row order. The model assumes the store's natural (primary-key) order in that case (`Database.Ordered`). GORM's `First` orders by primary key itself, which the model's table order matches under the assumption on keys above.
- `NewDBOperation` (db.go:40-100) is not modelled. It is all I/O and foreign calls: DSN formatting, `sql.Open`, the `information_schema` probe, `CREATE DATABASE`, `gorm.Open` and pool limits. A handle is built by the class constructor over given tables.
- log.go (the logrus adapter) writes files and reads the clock, so it is not modelled.
- GORM's SQL generation from `query`/`args` and its reflection-based field mapping are given as the filter predicate, `sortBy` and `merge` parameters. The model claims nothing about them.
- The chunking inside `CreateInBatches` is not modelled: `batchSize` only appears in the trace. The atomicity of the whole batch is the wrapper's own transaction, and that is modelled.
- GORM writes an auto-increment key back into the record passed to `Create`. This is not modelled.
- GORM adds a primary-key condition when the record passed to `Delete` or `Updates` has one set. This is not modelled.
- GORM refuses a global update or delete (`ErrMissingWhereClause`). That error can only arrive through the step's `Outcome`.
- The `First(&value)` pointer-to-interface detail at db.go:166 is not modelled: the destination is simply written on success.
- A typed nil pointer (`(*T)(nil)`) passes both of the source's checks. `Ref` has no such case.
- A `Find` that fails leaves its destination as it was. Partial writes by the driver are not modelled.
- The error of `tx.Rollback()` is ignored by the source. The model only records that Rollback was sent.
- Why `Begin` fails (no free connection, a closed pool) is the driver's business; the model takes its outcome as a parameter.
- A failed commit is taken as not durable: the table is left as it was.
- With a nil handle, every operation except `Close` dereferences nil (a panic) once its argument is valid. The model therefore requires a connected handle whenever the argument is a pointer.
- `Close` leaves the model's state unchanged, as the source leaves `d.db` set. That later operations fail on a closed pool is expressed only through their `Outcome` parameters.
- Connection-pool concurrency, blocking on pool exhaustion and transaction isolation belong to the driver and the database server, so they are not modelled.
- A table the store holds nothing for reads as empty. An error for a missing table comes through the step's `Outcome`.
- Counts are `int64` in the source and natural numbers in the model. Tables are assumed to hold fewer than 2^63 rows.
- Database.DbOperation.UpdateRow: the affected count is the number of rows the filter matches. MySQL's default of reporting only rows actually changed is not modelled.
- Database.DbOperation.QueryList: uses the intended offset (see Findings), not the wrapped one, for page numbers whose offset overflows Go's `int`.
