# Hades load measurement: execution-time history and result repository

Hades is a failover governor for a pair of database data sources. It
periodically measures how long a probe SQL statement takes on each data
source, and it decides which one to use from those measurements. This
project models two parts of that load measurement in Dafny and proves
properties of them.

- **`ExecutionTimeHistory`** (`history.dfy`) models `SqlExecutionTimeHistory`.
  - It is a FIFO window holding the last `capacity` execution times.
  - `Long.MAX_VALUE` ("infinity") stands for a time that could not be measured.
  - The window keeps four running counters: `total`, `infinitiesCount`,
    `totalFromLastRecovery` and `itemsCountFromLastRecovery`.
  - On each update it computes an `Average(value, count, newest)` by a
    three-way rule that depends on two policy flags.
  - The class keeps the window as a `seq` field and mutates it in place. A
    ghost log holds every appended value.
  - `Valid()` states the following. The window is the last
    `min(n, capacity)` appended values. The counters equal the finite sum,
    the infinity count, and the sum and length of the finite run after the
    newest infinity.
  - `WindowAverage` states the average rule over the window's contents, and
    lemmas state what that rule promises.
- **`ResultColumns`** (`columns.dfy`) models the `ResultColumn` enum of the
  `HADES_RESULTS` table:
  - its names, JDBC types and ordinals;
  - the `StringBuilder` loop that builds the column list and the question-mark list;
  - the rows of the table;
  - a prepared statement's positional parameters, and `bind` by index or by ordinal.
- **`ResultsRepo`** (`repo.dfy`) models the protocol of `RepoJdbcImpl` over an
  in-memory table. Hades instances share this table: each one borrows a
  recent compatible result recorded by any of them instead of measuring, and
  stores its own results there.
  - The borrow `SELECT`'s WHERE clause is evaluated placeholder by
    placeholder. A lemma proves that it matches exactly the `Borrowable` rows
    when bound by `bindParameters`. "Newest row wins" is modelled by `SelectFirst`.
  - The `UPDATE` and `INSERT` are functions on the row sequence. Lemmas
    relate them to the key-based refresh, `Refreshed`, and to the node's own
    row.
  - `ResultsTable` is a class holding the rows. The methods
    `StoreSqlTime`, `UpdateSqlTime` and `InsertSqlTime` change it in place.
  - Each JDBC step is an input saying whether it succeeds, fails or is
    interrupted, so the failure paths (null, -1, swallowed insert,
    propagated `InterruptedException`) are stated.
  - The wall clock ("now") and the local host name are parameters.
  - The `ExceptionEnum` constants are abstract: a record of integers that
    `Valid()` requires to be pairwise distinct and at least
    `minErroneousValue`. `ExceptionEnum.java` is not part of this model.

Where the class doc comment of `SqlExecutionTimeHistory` and the code
disagree, the model follows the code. The comment (lines 30-33) calls the
moment an infinity follows a finite value a recovery. In the code, an
infinity resets the since-recovery counters, and the "after recovery"
branch needs a finite newest value (lines 92 and 126-128).

The `RepoJdbcImpl` constructor hard-codes the statement identity as `"TODO"`
(line 148). The model takes it as a constructor argument.

## Model

| member | source | states |
|---|---|---|
| ExecutionTimeHistory.NewHistory | src/main/java/pl/touk/top/hades/load/SqlExecutionTimeHistory.java:61-70 | construction fails with IllegalArgument exactly when capacity < 1; otherwise the history is empty, valid and configured with the given capacity and flags |
| ExecutionTimeHistory.SqlExecutionTimeHistory.constructor | src/main/java/pl/touk/top/hades/load/SqlExecutionTimeHistory.java:61-70 | for capacity >= 1: an empty, valid history with the given configuration |
| ExecutionTimeHistory.SqlExecutionTimeHistory.UpdateAverage | src/main/java/pl/touk/top/hades/load/SqlExecutionTimeHistory.java:82-86 | keeps Valid (window = last min(n, capacity) appended values, counters match contents); the oldest item is evicted only when full; 1 <= size <= capacity; the returned average is WindowAverage of the new window |
| ExecutionTimeHistory.SqlExecutionTimeHistory.GetAverage | src/main/java/pl/touk/top/hades/load/SqlExecutionTimeHistory.java:88-102 | computed from the counters alone, the average equals WindowAverage of the window's contents |
| ExecutionTimeHistory.SqlExecutionTimeHistory.RemoveFirstItem | src/main/java/pl/touk/top/hades/load/SqlExecutionTimeHistory.java:104-117 | drops the first item exactly when the history is full and keeps all four counters equal to their definitions over the contents |
| ExecutionTimeHistory.SqlExecutionTimeHistory.AddLastItem | src/main/java/pl/touk/top/hades/load/SqlExecutionTimeHistory.java:119-131 | appends the item and keeps all four counters equal to their definitions over the contents (an infinity resets the since-recovery run) |
| ExecutionTimeHistory.SinceRecoveryIsFiniteSuffix | src/main/java/pl/touk/top/hades/load/SqlExecutionTimeHistory.java:119-131 | the since-recovery values are a suffix of the window, all finite, and preceded by an infinity whenever shorter than the window |
| ExecutionTimeHistory.SinceRecoveryDropFirst | src/main/java/pl/touk/top/hades/load/SqlExecutionTimeHistory.java:104-117 | evicting the oldest item shortens the since-recovery run only when the window has no infinity |
| ExecutionTimeHistory.FiniteCountBound | src/main/java/pl/touk/top/hades/load/SqlExecutionTimeHistory.java:92-96 | the since-recovery run is no longer than the number of finite items, so size - infinitiesCount is positive when the run is |
| ExecutionTimeHistory.WindowStep | src/main/java/pl/touk/top/hades/load/SqlExecutionTimeHistory.java:82-84 | appending to the log moves the window as one evict-if-full-then-append step |
| ExecutionTimeHistory.AverageWithoutInfinities | src/main/java/pl/touk/top/hades/load/SqlExecutionTimeHistory.java:89-90 | with no infinity the average is the truncated mean of all items, the count is the size, newest is the last item |
| ExecutionTimeHistory.AverageAfterInfinity | src/main/java/pl/touk/top/hades/load/SqlExecutionTimeHistory.java:72-99 | appending an infinity yields Average(Long.MAX_VALUE, size, Long.MAX_VALUE) whatever the flags |
| ExecutionTimeHistory.AverageAfterRecovery | src/main/java/pl/touk/top/hades/load/SqlExecutionTimeHistory.java:92-97 | with infinities, a non-empty since-recovery run and the excluding flag: the newest value is finite; erasing gives the mean of the run over its length, otherwise the mean of all finite items over their number |
| ExecutionTimeHistory.AverageWithInfinityNoRecovery | src/main/java/pl/touk/top/hades/load/SqlExecutionTimeHistory.java:98-99 | with infinities and either no excluding flag or an empty run, the average is Long.MAX_VALUE over the whole size |
| ExecutionTimeHistory.AverageShape | src/main/java/pl/touk/top/hades/load/SqlExecutionTimeHistory.java:88-102 | every average has newest == last item and 1 <= count <= size; with infinities present a finite average implies a finite newest value |
| ExecutionTimeHistory.ScenarioAverages | src/main/java/pl/touk/top/hades/load/SqlExecutionTimeHistory.java:88-102 | worked example: appending 100, 200, infinity, 50 with capacity 3 gives 100, 150, infinity and then 50 (erasing) or 125 (not erasing) |
| ExecutionTimeHistory.ScenarioWindows | src/main/java/pl/touk/top/hades/load/SqlExecutionTimeHistory.java:104-120 | worked example: the capacity-3 windows of that run, the oldest value evicted at the fourth append |
| ResultColumns.Ordinal | src/main/java/pl/touk/hades/sql/timemonitoring/RepoJdbcImpl.java:29-37 | every column's ordinal is a position in values() holding that column |
| ResultColumns.OrdinalOfColumn | src/main/java/pl/touk/hades/sql/timemonitoring/RepoJdbcImpl.java:29-37 | ordinal() and values() are inverse |
| ResultColumns.ColumnNames | src/main/java/pl/touk/hades/sql/timemonitoring/RepoJdbcImpl.java:29-37 | the column names in declaration order are DS, SQL_STMT, CONN_TIMEOUT, EXEC_TIMEOUT, TIME_NANOS, HOST, LOG_PREFIX, TS |
| ResultColumns.List | src/main/java/pl/touk/hades/sql/timemonitoring/RepoJdbcImpl.java:63-69 | the StringBuilder loop yields the comma-and-space join of each column's entry (its name, or `?`) in declaration order |
| ResultColumns.ColumnListText | src/main/java/pl/touk/hades/sql/timemonitoring/RepoJdbcImpl.java:76-76 | columnList is exactly "DS, SQL_STMT, CONN_TIMEOUT, EXEC_TIMEOUT, TIME_NANOS, HOST, LOG_PREFIX, TS" |
| ResultColumns.QuestionMarksPerPart | src/main/java/pl/touk/hades/sql/timemonitoring/RepoJdbcImpl.java:63-69 | joining n question marks gives a string with exactly n `?` |
| ResultColumns.QuestionMarkListCount | src/main/java/pl/touk/hades/sql/timemonitoring/RepoJdbcImpl.java:77-78 | questionMarkList holds exactly one `?` per column (8) |
| ResultColumns.ValueOf | src/main/java/pl/touk/hades/sql/timemonitoring/RepoJdbcImpl.java:29-37 | a column's value always has the column's JDBC type (string for VARCHAR, number otherwise) |
| ResultColumns.WithValue | src/main/java/pl/touk/hades/sql/timemonitoring/RepoJdbcImpl.java:82-86 | setting one column changes that column to the value and leaves every other column as it was |
| ResultColumns.QuestionMarkListText | src/main/java/pl/touk/hades/sql/timemonitoring/RepoJdbcImpl.java:77-77 | questionMarkList is exactly "?, ?, ?, ?, ?, ?, ?, ?" |
| ResultColumns.InsertText | src/main/java/pl/touk/hades/sql/timemonitoring/RepoJdbcImpl.java:78-78 | the INSERT text is "INSERT INTO HADES_RESULTS (" + the eight column names in declaration order + ") VALUES (" + eight `?` + ")" |
| ResultColumns.BindSetsOnlyIndex | src/main/java/pl/touk/hades/sql/timemonitoring/RepoJdbcImpl.java:59-61 | bind(ps, o, index) sets parameter `index` to the value with the column whose type is used, adds no other position, and leaves every other parameter as it was |
| ResultColumns.BindAtOrdinalPosition | src/main/java/pl/touk/hades/sql/timemonitoring/RepoJdbcImpl.java:55-57 | bind(ps, o) binds at the position, counted from 1, at which the column stands in the column list (ordinal() + 1) |
| ResultsRepo.ValueForException | src/main/java/pl/touk/hades/sql/timemonitoring/RepoJdbcImpl.java:218-220 | with valid constants, every mapped exception value is erroneous (>= minErroneousValue) |
| ResultsRepo.BorrowIsConservative | src/main/java/pl/touk/hades/sql/timemonitoring/RepoJdbcImpl.java:105-117 | a borrowable erroneous value is a connection timeout from this host with at least our connection timeout, or an execution timeout with at least our execution timeout |
| ResultsRepo.ConnExceptionNeverBorrowed | src/main/java/pl/touk/hades/sql/timemonitoring/RepoJdbcImpl.java:105-118 | a stored ConnException value is never borrowable |
| ResultsRepo.SelectWhere | src/main/java/pl/touk/hades/sql/timemonitoring/RepoJdbcImpl.java:99-118 | the WHERE clause, read placeholder by placeholder, holds iff TS > parameter 1, DS = parameter 2, SQL_STMT = parameter 3, and TIME_NANOS is real, or connTimeout with HOST = parameter 4 and CONN_TIMEOUT >= parameter 5, or sqlExecTimeout with EXEC_TIMEOUT >= parameter 6 |
| ResultsRepo.SelectParametersBound | src/main/java/pl/touk/hades/sql/timemonitoring/RepoJdbcImpl.java:204-210 | the six values bindParameters binds at positions 1..6 are the cut-off TS, ds, sql, host, connTimeout and sqlExecTimeout beside the SELECT's `?`s in text order |
| ResultsRepo.SelectMatchesBorrowable | src/main/java/pl/touk/hades/sql/timemonitoring/RepoJdbcImpl.java:99-118 | under the parameters bindParameters binds, a row satisfies the SELECT WHERE clause iff TS > now - borrowMillis, DS and SQL match, and one of the three erroneous-value cases holds |
| ResultsRepo.SelectFirst | src/main/java/pl/touk/hades/sql/timemonitoring/RepoJdbcImpl.java:119-120 | no row is returned iff no row matches; a returned row matches, is in the table and has the greatest TS among matching rows |
| ResultsRepo.UpdateWhere | src/main/java/pl/touk/hades/sql/timemonitoring/RepoJdbcImpl.java:87-91 | the UPDATE's WHERE clause holds iff the row's key (DS, SQL_STMT, CONN_TIMEOUT, EXEC_TIMEOUT) equals parameters 5 to 8 |
| ResultsRepo.UpdateSet | src/main/java/pl/touk/hades/sql/timemonitoring/RepoJdbcImpl.java:82-86 | the SET clause writes TIME_NANOS, TS, HOST and LOG_PREFIX from parameters 1 to 4 and no other column |
| ResultsRepo.ExecuteUpdate | src/main/java/pl/touk/hades/sql/timemonitoring/RepoJdbcImpl.java:79-91 | the UPDATE adds, removes and moves no row, changes no key column, leaves unmatched rows as they were and gives every matched row the four SET values |
| ResultsRepo.UpdateCount | src/main/java/pl/touk/hades/sql/timemonitoring/RepoJdbcImpl.java:79-91 | the reported update count is at most the number of rows, and 0 exactly when no row matches the WHERE clause |
| ResultsRepo.UpdateParametersBound | src/main/java/pl/touk/hades/sql/timemonitoring/RepoJdbcImpl.java:270-278 | the eight values updateSqlTime binds at positions 1..8 are the new time, now, host and prefix, then ds, sql, connTimeout and sqlExecTimeout, beside the UPDATE's `?`s in text order |
| ResultsRepo.UpdateStatementRefreshes | src/main/java/pl/touk/hades/sql/timemonitoring/RepoJdbcImpl.java:79-91 | under updateSqlTime's parameters the UPDATE rewrites TIME_NANOS, TS, HOST and LOG_PREFIX of exactly the rows with the key (ds, sql, connTimeout, execTimeout) and reports their number |
| ResultsRepo.KeyCountRefreshed | src/main/java/pl/touk/hades/sql/timemonitoring/RepoJdbcImpl.java:82-86 | the UPDATE sets no key column, so no key's row count changes |
| ResultsRepo.RefreshedWithoutKey | src/main/java/pl/touk/hades/sql/timemonitoring/RepoJdbcImpl.java:246-250 | an update count of 0 leaves the table unchanged before the insert |
| ResultsRepo.InsertedRow | src/main/java/pl/touk/hades/sql/timemonitoring/RepoJdbcImpl.java:78-78 | the INSERT fills the k-th listed column with parameter k |
| ResultsRepo.InsertByOrdinalRoundTrip | src/main/java/pl/touk/hades/sql/timemonitoring/RepoJdbcImpl.java:307-314 | binding each column's value at ordinal()+1 binds every placeholder, and the INSERT adds exactly the row the values came from |
| ResultsRepo.UpsertChangesOnlyKeyRows | src/main/java/pl/touk/hades/sql/timemonitoring/RepoJdbcImpl.java:245-255 | a store refreshes only rows with the key, changes no key column, and adds at most one row, only when no row had the key |
| ResultsRepo.UpsertKeepsKeysUnique | src/main/java/pl/touk/hades/sql/timemonitoring/RepoJdbcImpl.java:245-255 | a single writer starting with at most one row per key keeps at most one row per key |
| ResultsRepo.UpsertHoldsOwnRow | src/main/java/pl/touk/hades/sql/timemonitoring/RepoJdbcImpl.java:245-255 | a store that updated or inserted leaves this node's row with the stored time, host, prefix and TS in the table |
| ResultsRepo.UpsertStampsOnlyWrittenRows | src/main/java/pl/touk/hades/sql/timemonitoring/RepoJdbcImpl.java:272-274 | after a store at a time later than every old TS, only the written rows carry that TS, and they hold the stored time |
| ResultsRepo.ReadYourWrite | src/main/java/pl/touk/hades/sql/timemonitoring/RepoJdbcImpl.java:183-188 | after a store that wrote a borrowable-kind value, a newest borrowable row exists and every newest borrowable row holds that value |
| ResultsRepo.RepoJdbcImpl.constructor | src/main/java/pl/touk/hades/sql/timemonitoring/RepoJdbcImpl.java:134-149 | the repository's settings are the given borrow window, timeouts, statement and host |
| ResultsRepo.RepoJdbcImpl.BindParameters | src/main/java/pl/touk/hades/sql/timemonitoring/RepoJdbcImpl.java:203-212 | parameters 1..6 are bound, in the order of the SELECT's `?`s, to ts cut-off, ds, sql, host, connTimeout, sqlExecTimeout, each with its column's type |
| ResultsRepo.RepoJdbcImpl.FindSqlTimeYoungerThan | src/main/java/pl/touk/hades/sql/timemonitoring/RepoJdbcImpl.java:171-201 | only an interruption propagates; a failure gives null; otherwise null iff no row is borrowable, and a returned value is the TIME_NANOS of a newest borrowable row |
| ResultsRepo.RepoJdbcImpl.UpdateSqlTime | src/main/java/pl/touk/hades/sql/timemonitoring/RepoJdbcImpl.java:261-298 | success refreshes exactly the key's rows and returns their number; failure returns -1 and changes nothing; interruption propagates and changes nothing |
| ResultsRepo.RepoJdbcImpl.InsertSqlTime | src/main/java/pl/touk/hades/sql/timemonitoring/RepoJdbcImpl.java:300-323 | success appends this node's row; any failure is swallowed and changes nothing |
| ResultsRepo.RepoJdbcImpl.StoreSqlTime | src/main/java/pl/touk/hades/sql/timemonitoring/RepoJdbcImpl.java:227-259 | returns `time` on every non-interrupted path; interrupted iff connecting or the update is interrupted; the table is upserted (insert only on an update count of 0) when connection and update succeed, otherwise unchanged |
| ResultsRepo.RepoJdbcImpl.StoreException | src/main/java/pl/touk/hades/sql/timemonitoring/RepoJdbcImpl.java:214-225 | ConnException (including ConnTimeout) and SqlExecTimeout are stored as by StoreSqlTime with their mapped value; other LoadMeasuringExceptions return the mapped value, and any other exception unexpectedException, without touching the table |

## Left out

- JDBC plumbing is not modelled: `DsSafeConnectionGetter`, `SafeSqlExecutor`,
  `Utils.safelyPrepareStatement`, `close`, `setAutoCommit` and `ResultSet`
  access. These are foreign calls. Their outcome is an `Access` input, and the
  table is an in-memory sequence of rows.
- Timeout enforcement and the `ExecutorService` thread pool are not
  modelled, because they concern concurrency. The caller sees their effect as
  the failure or interruption that the `Access` inputs represent. A statement
  that times out may still go on running in the background, and autocommit is
  on (line 234), so it may still change the table.
- ResultsRepo.RepoJdbcImpl.UpdateSqlTime, ResultsRepo.RepoJdbcImpl.InsertSqlTime
  and ResultsRepo.RepoJdbcImpl.StoreSqlTime: a failed or interrupted step is
  modelled as leaving the table unchanged. The real UPDATE (reported as -1 or
  interrupted, lines 289-294) or INSERT (swallowed, lines 318-319) may still
  take effect after the caller has moved on.
- Races between Hades instances sharing `HADES_RESULTS` are not modelled:
  the model is a single sequential writer.
- `InetAddress.getLocalHost()` and `new Date()` are not called: the host name
  and "now" (milliseconds) are parameters.
- Logging and the `indent` of log prefixes are not modelled, because they
  have no behavioural content. The prefix stored is taken as given.
- The trivial getters (lines 349-371) are not modelled.
- `ExceptionEnum` is not modelled concretely, and neither are the
  `LoadMeasuringException` hierarchy and `Average`: their files are not part
  of this model. `ConnTimeout` is taken to be a subclass of `ConnException`,
  and each exception class to map to its own constant.
- ResultsRepo.RepoJdbcImpl.UpdateSqlTime: does not model a negative update
  count reported by the driver (lines 283-288, mapped to -1). The table
  model always reports the true count.
- ResultsRepo.RepoJdbcImpl.StoreSqlTime: reads the clock once. The update
  and the insert use the same `now`, where the source calls `new Date()`
  separately in each.
- ResultsRepo.RepoJdbcImpl.FindSqlTimeYoungerThan: does not model runtime
  exceptions other than SQLException and LoadMeasuringException.
- ResultsRepo.SelectFirst: SQL leaves the order of rows with equal TS
  unspecified. The model picks the earliest such row in table order, and
  every property is stated for any newest row.
- ExecutionTimeHistory.SqlExecutionTimeHistory.UpdateAverage: the counters
  are unbounded integers, so a `long` overflow of `total` is not modelled.
  Items are Java longs.
- The `Column` type of a parameter stands for the JDBC `Types` constant
  passed to `setObject`. The numeric codes are not modelled.
- TIME_NANOS is bound with `Types.INTEGER` (lines 271 and 311) although the
  time is a `long`. A driver may narrow or reject a time of 2^31 ns or more
  and the large erroneous values. The model stores every value exactly.
- The value a `SqlExecException` maps to is an assumption: the sentinel
  outcomes are connException, connTimeout, sqlExecTimeout and
  unexpectedException. The model gives SqlExecException a constant of its own
  that is only required to be at least `minErroneousValue`, and that is never
  stored.
