/**
 * The result repository (RepoJdbcImpl) over an in-memory HADES_RESULTS
 * table. A node borrows a recent, compatible result recorded by any node
 * instead of measuring, stores its own results by update-then-insert, and
 * stores only some of its failures. Every JDBC step (getting a connection,
 * executing a statement) is an input that says whether the step succeeds,
 * fails, or is interrupted; "now" and the local host name are inputs too.
 */
module ResultsRepo {
  import opened ResultColumns

  // ---------------------------------------------------------------------
  // Erroneous values and exceptions
  // ---------------------------------------------------------------------

  /**
   * The ExceptionEnum constants: the values stored in TIME_NANOS in place of
   * a time when a measurement failed, and the threshold from which a value
   * counts as erroneous.
   */
  datatype ExceptionEnum = ExceptionEnum(
    minErroneousValue: int,
    connException: int,
    connTimeout: int,
    sqlExecException: int,
    sqlExecTimeout: int,
    unexpectedException: int)
  {
    /**
     * Every constant is erroneous, and the four sentinel outcomes
     * (connException, connTimeout, sqlExecTimeout, unexpectedException) are
     * pairwise distinct. The value of a SqlExecException is only required to
     * be erroneous.
     */
    predicate Valid()
    {
      && connException >= minErroneousValue
      && connTimeout >= minErroneousValue
      && sqlExecException >= minErroneousValue
      && sqlExecTimeout >= minErroneousValue
      && unexpectedException >= minErroneousValue
      && connException != connTimeout && connException != sqlExecTimeout
      && connException != unexpectedException
      && connTimeout != sqlExecTimeout && connTimeout != unexpectedException
      && sqlExecTimeout != unexpectedException
    }
  }

  /** The LoadMeasuringException classes. */
  datatype LoadMeasuringException =
    | ConnFailure      // ConnException
    | ConnTimeoutFailure  // ConnTimeout, a ConnException
    | SqlExecFailure   // SqlExecException
    | SqlExecTimeoutFailure  // SqlExecTimeout
    | Unexpected       // UnexpectedException

  /** An exception handed to storeException: a LoadMeasuringException, or any other. */
  datatype Thrown = Measuring(lme: LoadMeasuringException) | OtherException

  /** `ExceptionEnum.valueForException`. */
  function ValueForException(ev: ExceptionEnum, e: LoadMeasuringException): (v: int)
    ensures ev.Valid() ==> v >= ev.minErroneousValue
  {
    match e
    case ConnFailure => ev.connException
    case ConnTimeoutFailure => ev.connTimeout
    case SqlExecFailure => ev.sqlExecException
    case SqlExecTimeoutFailure => ev.sqlExecTimeout
    case Unexpected => ev.unexpectedException
  }

  /** `lme instanceof ConnException || lme instanceof SqlExecTimeout`. */
  predicate IsStored(e: LoadMeasuringException)
  {
    e.ConnFailure? || e.ConnTimeoutFailure? || e.SqlExecTimeoutFailure?
  }

  /** How one JDBC step ends. */
  datatype Access = Succeeds | Fails | Interrupts

  /** A returned value, or an InterruptedException thrown to the caller. */
  datatype Outcome<T> = Returned(value: T) | InterruptedException

  /** A result, or Java's null. */
  datatype Option<T> = None | Some(value: T)

  // ---------------------------------------------------------------------
  // The node's own configuration and rows
  // ---------------------------------------------------------------------

  /**
   * The repository's final fields that the protocol reads:
   * `borrowExistingMatchingResultIfYoungerThanMillis`, the two timeouts,
   * the statement identity and the local host name.
   */
  datatype Settings = Settings(
    borrowMillis: int, connTimeoutMillis: int, sqlExecTimeout: int, sql: string, host: string)

  /** The four columns an update matches on. */
  datatype Key = Key(ds: string, sql: string, connTimeout: int, execTimeout: int)

  function KeyOf(r: Row): Key
  {
    Key(r.ds, r.sql, r.connTimeout, r.execTimeout)
  }

  function OwnKey(st: Settings, dsName: string): Key
  {
    Key(dsName, st.sql, st.connTimeoutMillis, st.sqlExecTimeout)
  }

  /** The row this node writes for a data source. */
  function OwnRow(st: Settings, dsName: string, time: int, logPrefix: string, ts: int): (r: Row)
    ensures KeyOf(r) == OwnKey(st, dsName)
  {
    Row(dsName, st.sql, st.connTimeoutMillis, st.sqlExecTimeout, time, st.host, logPrefix, ts)
  }

  /**
   * A row this node may borrow at `now`: recent enough, for the same data
   * source and statement, and either a real time, a connection timeout
   * from this host measured with a timeout at least as long as ours, or an
   * execution timeout from any host measured with a timeout at least as
   * long as ours.
   */
  predicate Borrowable(st: Settings, ev: ExceptionEnum, r: Row, dsName: string, now: int)
  {
    && r.ts > now - st.borrowMillis
    && r.ds == dsName
    && r.sql == st.sql
    && (|| r.timeNanos < ev.minErroneousValue
        || (r.timeNanos == ev.connTimeout && r.host == st.host && r.connTimeout >= st.connTimeoutMillis)
        || (r.timeNanos == ev.sqlExecTimeout && r.execTimeout >= st.sqlExecTimeout))
  }

  /** A borrowable row with no younger borrowable row beside it. */
  predicate NewestBorrowable(st: Settings, ev: ExceptionEnum, rows: seq<Row>, r: Row, dsName: string, now: int)
  {
    && r in rows
    && Borrowable(st, ev, r, dsName, now)
    && forall i :: 0 <= i < |rows| && Borrowable(st, ev, rows[i], dsName, now) ==> rows[i].ts <= r.ts
  }

  /** What a borrowed value can be: never a result measured under weaker conditions than this node's. */
  lemma BorrowIsConservative(st: Settings, ev: ExceptionEnum, r: Row, dsName: string, now: int)
    requires ev.Valid() && Borrowable(st, ev, r, dsName, now)
    ensures r.timeNanos >= ev.minErroneousValue ==> r.timeNanos == ev.connTimeout || r.timeNanos == ev.sqlExecTimeout
    ensures r.timeNanos == ev.connTimeout ==> r.host == st.host && r.connTimeout >= st.connTimeoutMillis
    ensures r.timeNanos == ev.sqlExecTimeout ==> r.execTimeout >= st.sqlExecTimeout
  {
  }

  /** A stored connection failure (as opposed to a connection timeout) is never borrowed. */
  lemma ConnExceptionNeverBorrowed(st: Settings, ev: ExceptionEnum, r: Row, dsName: string, now: int)
    requires ev.Valid() && r.timeNanos == ValueForException(ev, ConnFailure)
    ensures !Borrowable(st, ev, r, dsName, now)
  {
  }

  // ---------------------------------------------------------------------
  // The borrow SELECT
  // ---------------------------------------------------------------------

  /**
   * The WHERE clause of `select`, the k-th `?` taking parameter k:
   * `TS > ? AND DS = ? AND SQL_STMT = ? AND (TIME_NANOS < minErroneousValue
   * OR (TIME_NANOS = connTimeout AND HOST = ? AND CONN_TIMEOUT >= ?)
   * OR (TIME_NANOS = sqlExecTimeout AND EXEC_TIMEOUT >= ?))`.
   */
  predicate SelectWhere(ev: ExceptionEnum, r: Row, ps: Params)
    requires BindsAll(ps, SelectPlaceholders)
    ensures SelectWhere(ev, r, ps) <==>
      && r.ts > ps[1].obj.n && r.ds == ps[2].obj.s && r.sql == ps[3].obj.s
      && (|| r.timeNanos < ev.minErroneousValue
          || (r.timeNanos == ev.connTimeout && r.host == ps[4].obj.s && r.connTimeout >= ps[5].obj.n)
          || (r.timeNanos == ev.sqlExecTimeout && r.execTimeout >= ps[6].obj.n))
  {
    && ValueOf(r, SelectPlaceholders[0]).n > ps[1].obj.n
    && ValueOf(r, SelectPlaceholders[1]) == ps[2].obj
    && ValueOf(r, SelectPlaceholders[2]) == ps[3].obj
    && (|| r.timeNanos < ev.minErroneousValue
        || (&& r.timeNanos == ev.connTimeout
            && ValueOf(r, SelectPlaceholders[3]) == ps[4].obj
            && ValueOf(r, SelectPlaceholders[4]).n >= ps[5].obj.n)
        || (&& r.timeNanos == ev.sqlExecTimeout
            && ValueOf(r, SelectPlaceholders[5]).n >= ps[6].obj.n))
  }

  /**
   * The first row of the result set ordered by TS descending: a matching row
   * with the greatest TS (of equal ones, the earliest in the table), or none.
   */
  function SelectFirst(ev: ExceptionEnum, rows: seq<Row>, ps: Params): (r: Option<Row>)
    requires BindsAll(ps, SelectPlaceholders)
    ensures r.None? <==> forall i :: 0 <= i < |rows| ==> !SelectWhere(ev, rows[i], ps)
    ensures r.Some? ==> r.value in rows && SelectWhere(ev, r.value, ps)
    ensures r.Some? ==> forall i :: 0 <= i < |rows| && SelectWhere(ev, rows[i], ps) ==> rows[i].ts <= r.value.ts
  {
    if rows == [] then None
    else
      var rest := SelectFirst(ev, rows[..|rows| - 1], ps);
      var last := rows[|rows| - 1];
      assert forall i :: 0 <= i < |rows| - 1 ==> rows[i] == rows[..|rows| - 1][i];
      if !SelectWhere(ev, last, ps) then rest
      else if rest.Some? && rest.value.ts >= last.ts then rest
      else Some(last)
  }

  /** The row whose columns give the values the SELECT compares against. */
  function SelectProbe(st: Settings, dsName: string, now: int): Row
  {
    OwnRow(st, dsName, 0, "", now - st.borrowMillis)
  }

  /**
   * Parameters as bindParameters leaves them: the k-th holds, bound by the
   * column beside the k-th `?`, this node's value of that column (for TS,
   * the freshness cut-off).
   */
  predicate SelectBound(st: Settings, dsName: string, now: int, ps: Params)
  {
    && BindsAll(ps, SelectPlaceholders)
    && forall k :: 1 <= k <= |SelectPlaceholders| ==>
         ps[k].obj == ValueOf(SelectProbe(st, dsName, now), SelectPlaceholders[k - 1])
  }

  /** The six parameters bindParameters binds, in the order of the SELECT's `?`s. */
  lemma SelectParametersBound(st: Settings, dsName: string, now: int, ps: Params)
    requires ps == map[1 := Param(Ts, Num(now - st.borrowMillis)), 2 := Param(Ds, Str(dsName)),
                       3 := Param(Sql, Str(st.sql)), 4 := Param(Host, Str(st.host)),
                       5 := Param(Column.ConnTimeout, Num(st.connTimeoutMillis)),
                       6 := Param(Column.SqlExecTimeout, Num(st.sqlExecTimeout))]
    ensures SelectBound(st, dsName, now, ps)
  {
  }

  /** With the parameters bindParameters binds, the SELECT matches exactly the borrowable rows. */
  lemma SelectMatchesBorrowable(st: Settings, ev: ExceptionEnum, r: Row, dsName: string, now: int, ps: Params)
    requires SelectBound(st, dsName, now, ps)
    ensures SelectWhere(ev, r, ps) <==> Borrowable(st, ev, r, dsName, now)
  {
    var p := SelectProbe(st, dsName, now);
    assert ps[1].obj == Num(now - st.borrowMillis);
    assert ps[2].obj == Str(dsName) && ps[3].obj == Str(st.sql) && ps[4].obj == Str(st.host);
    assert ps[5].obj == Num(st.connTimeoutMillis) && ps[6].obj == Num(st.sqlExecTimeout);
  }

  // ---------------------------------------------------------------------
  // The UPDATE
  // ---------------------------------------------------------------------

  /** `WHERE DS = ? AND SQL_STMT = ? AND CONN_TIMEOUT = ? AND EXEC_TIMEOUT = ?`, parameters 5 to 8. */
  predicate UpdateWhere(r: Row, ps: Params)
    requires BindsAll(ps, UpdatePlaceholders)
    ensures UpdateWhere(r, ps) <==> KeyOf(r) == Key(ps[5].obj.s, ps[6].obj.s, ps[7].obj.n, ps[8].obj.n)
  {
    forall k :: 5 <= k <= 8 ==> ValueOf(r, UpdatePlaceholders[k - 1]) == ps[k].obj
  }

  /** `SET TIME_NANOS = ?, TS = ?, HOST = ?, LOG_PREFIX = ?`, parameters 1 to 4. */
  function UpdateSet(r: Row, ps: Params): (r': Row)
    requires BindsAll(ps, UpdatePlaceholders)
    ensures r' == r.(timeNanos := ps[1].obj.n, ts := ps[2].obj.n, host := ps[3].obj.s, logPrefix := ps[4].obj.s)
  {
    var r1 := WithValue(r, UpdatePlaceholders[0], ps[1].obj);
    var r2 := WithValue(r1, UpdatePlaceholders[1], ps[2].obj);
    var r3 := WithValue(r2, UpdatePlaceholders[2], ps[3].obj);
    WithValue(r3, UpdatePlaceholders[3], ps[4].obj)
  }

  /**
   * The table after the UPDATE: no row is added, removed or moved, no key
   * column changes, and exactly the rows the WHERE clause matches get the
   * four SET values.
   */
  function ExecuteUpdate(rows: seq<Row>, ps: Params): (after: seq<Row>)
    requires BindsAll(ps, UpdatePlaceholders)
    ensures |after| == |rows|
    ensures forall i :: 0 <= i < |rows| ==> KeyOf(after[i]) == KeyOf(rows[i])
    ensures forall i :: 0 <= i < |rows| && !UpdateWhere(rows[i], ps) ==> after[i] == rows[i]
    ensures forall i :: 0 <= i < |rows| && UpdateWhere(rows[i], ps) ==>
      && after[i].timeNanos == ps[1].obj.n && after[i].ts == ps[2].obj.n
      && after[i].host == ps[3].obj.s && after[i].logPrefix == ps[4].obj.s
  {
    seq(|rows|, i requires 0 <= i < |rows| => if UpdateWhere(rows[i], ps) then UpdateSet(rows[i], ps) else rows[i])
  }

  /** The update count the UPDATE reports: at most the table's size, and 0 exactly when no row matches. */
  function UpdateCount(rows: seq<Row>, ps: Params): (n: nat)
    requires BindsAll(ps, UpdatePlaceholders)
    ensures n <= |rows|
    ensures n == 0 <==> forall i :: 0 <= i < |rows| ==> !UpdateWhere(rows[i], ps)
  {
    if rows == [] then 0
    else
      assert forall i :: 0 <= i < |rows| - 1 ==> rows[i] == rows[..|rows| - 1][i];
      UpdateCount(rows[..|rows| - 1], ps) + (if UpdateWhere(rows[|rows| - 1], ps) then 1 else 0)
  }

  /** Parameters as updateSqlTime binds them: the k-th is this node's new row's value of the k-th placeholder's column. */
  predicate UpdateBound(st: Settings, dsName: string, time: int, logPrefix: string, now: int, ps: Params)
  {
    && BindsAll(ps, UpdatePlaceholders)
    && forall k :: 1 <= k <= |UpdatePlaceholders| ==>
         ps[k].obj == ValueOf(OwnRow(st, dsName, time, logPrefix, now), UpdatePlaceholders[k - 1])
  }

  /** The eight parameters updateSqlTime binds, in the order of the UPDATE's `?`s. */
  lemma UpdateParametersBound(st: Settings, dsName: string, time: int, logPrefix: string, now: int, ps: Params)
    requires ps == map[1 := Param(TimeNanos, Num(time)), 2 := Param(Ts, Num(now)),
                       3 := Param(Host, Str(st.host)), 4 := Param(LogPrefix, Str(logPrefix)),
                       5 := Param(Ds, Str(dsName)), 6 := Param(Sql, Str(st.sql)),
                       7 := Param(Column.ConnTimeout, Num(st.connTimeoutMillis)),
                       8 := Param(Column.SqlExecTimeout, Num(st.sqlExecTimeout))]
    ensures UpdateBound(st, dsName, time, logPrefix, now, ps)
  {
  }

  /** A row refreshed by this node if it has the key: new time, timestamp, host and prefix. */
  function RefreshRow(r: Row, key: Key, time: int, ts: int, host: string, logPrefix: string): Row
  {
    if KeyOf(r) == key then r.(timeNanos := time, ts := ts, host := host, logPrefix := logPrefix) else r
  }

  function Refreshed(rows: seq<Row>, key: Key, time: int, ts: int, host: string, logPrefix: string): seq<Row>
  {
    seq(|rows|, i requires 0 <= i < |rows| => RefreshRow(rows[i], key, time, ts, host, logPrefix))
  }

  /** The number of rows with the key. */
  function KeyCount(rows: seq<Row>, key: Key): nat
  {
    if rows == [] then 0
    else KeyCount(rows[..|rows| - 1], key) + (if KeyOf(rows[|rows| - 1]) == key then 1 else 0)
  }

  /**
   * With updateSqlTime's parameters, the UPDATE refreshes exactly the rows
   * with this node's key and reports how many there are.
   */
  lemma {:induction false} UpdateStatementRefreshes(
    st: Settings, rows: seq<Row>, dsName: string, time: int, logPrefix: string, now: int, ps: Params)
    requires UpdateBound(st, dsName, time, logPrefix, now, ps)
    ensures ExecuteUpdate(rows, ps) == Refreshed(rows, OwnKey(st, dsName), time, now, st.host, logPrefix)
    ensures UpdateCount(rows, ps) == KeyCount(rows, OwnKey(st, dsName))
  {
    var key := OwnKey(st, dsName);
    assert ps[1].obj == Num(time) && ps[2].obj == Num(now);
    assert ps[3].obj == Str(st.host) && ps[4].obj == Str(logPrefix);
    assert ps[5].obj == Str(dsName) && ps[6].obj == Str(st.sql);
    assert ps[7].obj == Num(st.connTimeoutMillis) && ps[8].obj == Num(st.sqlExecTimeout);
    forall i | 0 <= i < |rows|
      ensures UpdateWhere(rows[i], ps) <==> KeyOf(rows[i]) == key
      ensures UpdateSet(rows[i], ps) == rows[i].(timeNanos := time, ts := now, host := st.host, logPrefix := logPrefix)
    {
    }
    if rows != [] {
      UpdateStatementRefreshes(st, rows[..|rows| - 1], dsName, time, logPrefix, now, ps);
    }
  }

  lemma {:induction false} KeyCountAppend(rows: seq<Row>, r: Row, key: Key)
    ensures KeyCount(rows + [r], key) == KeyCount(rows, key) + (if KeyOf(r) == key then 1 else 0)
  {
    assert (rows + [r])[..|rows|] == rows;
  }

  /** Refreshing rewrites no key column, so no key's count changes. */
  lemma {:induction false} KeyCountRefreshed(rows: seq<Row>, key: Key, time: int, ts: int, host: string, logPrefix: string, k: Key)
    ensures KeyCount(Refreshed(rows, key, time, ts, host, logPrefix), k) == KeyCount(rows, k)
  {
    if rows != [] {
      var init := rows[..|rows| - 1];
      var r := Refreshed(rows, key, time, ts, host, logPrefix);
      assert r[..|rows| - 1] == Refreshed(init, key, time, ts, host, logPrefix);
      KeyCountRefreshed(init, key, time, ts, host, logPrefix, k);
    }
  }

  /** A key with no row: refreshing changes nothing. */
  lemma {:induction false} RefreshedWithoutKey(rows: seq<Row>, key: Key, time: int, ts: int, host: string, logPrefix: string)
    requires KeyCount(rows, key) == 0
    ensures Refreshed(rows, key, time, ts, host, logPrefix) == rows
  {
    if rows != [] {
      var init := rows[..|rows| - 1];
      RefreshedWithoutKey(init, key, time, ts, host, logPrefix);
      assert Refreshed(init, key, time, ts, host, logPrefix)[..] == init;
      assert forall i :: 0 <= i < |rows| - 1 ==> rows[i] == init[i];
    }
  }

  lemma {:induction false} KeyCountPositive(rows: seq<Row>, key: Key) returns (i: nat)
    requires KeyCount(rows, key) > 0
    ensures i < |rows| && KeyOf(rows[i]) == key
  {
    if KeyOf(rows[|rows| - 1]) == key {
      i := |rows| - 1;
    } else {
      i := KeyCountPositive(rows[..|rows| - 1], key);
    }
  }

  // ---------------------------------------------------------------------
  // The INSERT
  // ---------------------------------------------------------------------

  /** The row `insert` adds: the k-th `?` fills the k-th column of the column list. */
  function InsertedRow(ps: Params): (r: Row)
    requires BindsAll(ps, InsertPlaceholders)
    ensures forall k :: 0 <= k < |Columns| ==> ValueOf(r, Columns[k]) == ps[k + 1].obj
  {
    assert forall k :: 1 <= k <= |Columns| ==> Fits(Columns[k - 1], ps[k].obj);
    Row(ps[1].obj.s, ps[2].obj.s, ps[3].obj.n, ps[4].obj.n, ps[5].obj.n, ps[6].obj.s, ps[7].obj.s, ps[8].obj.n)
  }

  /**
   * Parameters bound as insertSqlTime binds them, each column's value at its
   * ordinal plus one, make the INSERT add exactly the row they came from.
   */
  lemma InsertByOrdinalRoundTrip(r: Row, ps: Params)
    requires forall c: Column :: Ordinal(c) + 1 in ps && ps[Ordinal(c) + 1] == Param(c, ValueOf(r, c))
    ensures BindsAll(ps, InsertPlaceholders)
    ensures InsertedRow(ps) == r
  {
    forall k | 1 <= k <= |InsertPlaceholders|
      ensures k in ps && ps[k] == Param(Columns[k - 1], ValueOf(r, Columns[k - 1]))
    {
      OrdinalOfColumn(k - 1);
    }
    var q := InsertedRow(ps);
    assert ValueOf(q, Ds) == ValueOf(r, Ds) && ValueOf(q, Sql) == ValueOf(r, Sql);
    assert ValueOf(q, Column.ConnTimeout) == ValueOf(r, Column.ConnTimeout);
    assert ValueOf(q, Column.SqlExecTimeout) == ValueOf(r, Column.SqlExecTimeout);
    assert ValueOf(q, TimeNanos) == ValueOf(r, TimeNanos) && ValueOf(q, Host) == ValueOf(r, Host);
    assert ValueOf(q, LogPrefix) == ValueOf(r, LogPrefix) && ValueOf(q, Ts) == ValueOf(r, Ts);
  }

  // ---------------------------------------------------------------------
  // Update-then-insert
  // ---------------------------------------------------------------------

  /**
   * The table after a store whose connection and UPDATE succeeded: rows with
   * the key refreshed, and this node's row appended only if no row had the
   * key and the INSERT succeeded.
   */
  function Upserted(st: Settings, rows: seq<Row>, dsName: string, time: int, logPrefix: string, now: int, inserts: bool): seq<Row>
  {
    var key := OwnKey(st, dsName);
    var refreshed := Refreshed(rows, key, time, now, st.host, logPrefix);
    if KeyCount(rows, key) == 0 && inserts then refreshed + [OwnRow(st, dsName, time, logPrefix, now)]
    else refreshed
  }

  /**
   * A store changes only TIME_NANOS, TS, HOST and LOG_PREFIX, only of rows
   * with the key, and adds a row only when none had the key.
   */
  lemma UpsertChangesOnlyKeyRows(st: Settings, rows: seq<Row>, dsName: string, time: int, logPrefix: string, now: int, inserts: bool)
    ensures var after := Upserted(st, rows, dsName, time, logPrefix, now, inserts);
            && |rows| <= |after| <= |rows| + 1
            && (|after| > |rows| ==> KeyCount(rows, OwnKey(st, dsName)) == 0)
            && (forall i :: 0 <= i < |rows| ==> KeyOf(after[i]) == KeyOf(rows[i]))
            && (forall i :: 0 <= i < |rows| && KeyOf(rows[i]) != OwnKey(st, dsName) ==> after[i] == rows[i])
            && (forall i :: 0 <= i < |rows| && KeyOf(rows[i]) == OwnKey(st, dsName) ==>
                  after[i] == rows[i].(timeNanos := time, ts := now, host := st.host, logPrefix := logPrefix))
  {
  }

  /** A single writer that starts with at most one row per key keeps it that way. */
  lemma UpsertKeepsKeysUnique(st: Settings, rows: seq<Row>, dsName: string, time: int, logPrefix: string, now: int, inserts: bool)
    requires forall k :: KeyCount(rows, k) <= 1
    ensures forall k :: KeyCount(Upserted(st, rows, dsName, time, logPrefix, now, inserts), k) <= 1
  {
    var key := OwnKey(st, dsName);
    var refreshed := Refreshed(rows, key, time, now, st.host, logPrefix);
    forall k
      ensures KeyCount(Upserted(st, rows, dsName, time, logPrefix, now, inserts), k) <= 1
    {
      KeyCountRefreshed(rows, key, time, now, st.host, logPrefix, k);
      KeyCountAppend(refreshed, OwnRow(st, dsName, time, logPrefix, now), k);
    }
  }

  /** A store that wrote a row leaves this node's row, as just written, in the table. */
  lemma {:induction false} UpsertHoldsOwnRow(st: Settings, rows: seq<Row>, dsName: string, time: int, logPrefix: string, now: int, inserts: bool)
    returns (c: nat)
    requires inserts || KeyCount(rows, OwnKey(st, dsName)) > 0
    ensures var after := Upserted(st, rows, dsName, time, logPrefix, now, inserts);
            c < |after| && after[c] == OwnRow(st, dsName, time, logPrefix, now)
  {
    var key := OwnKey(st, dsName);
    if KeyCount(rows, key) > 0 {
      c := KeyCountPositive(rows, key);
    } else {
      c := |rows|;
    }
  }

  /** After a store at `now` later than every row's TS, only rows the store wrote carry TS `now`. */
  lemma UpsertStampsOnlyWrittenRows(st: Settings, rows: seq<Row>, dsName: string, time: int, logPrefix: string, now: int, inserts: bool)
    requires forall i :: 0 <= i < |rows| ==> rows[i].ts < now
    ensures var after := Upserted(st, rows, dsName, time, logPrefix, now, inserts);
            forall j :: 0 <= j < |after| ==> after[j].ts <= now && (after[j].ts == now ==> after[j].timeNanos == time)
  {
  }

  /**
   * Read-your-write: after a store at `now` later than every row's TS, the
   * value just stored is what any newest borrowable row holds, provided the
   * store wrote a row and the value is of a borrowable kind.
   */
  lemma ReadYourWrite(st: Settings, ev: ExceptionEnum, rows: seq<Row>, dsName: string, time: int, logPrefix: string, now: int, inserts: bool)
    requires st.borrowMillis > 0
    requires forall i :: 0 <= i < |rows| ==> rows[i].ts < now
    requires time < ev.minErroneousValue || time == ev.connTimeout || time == ev.sqlExecTimeout
    requires inserts || KeyCount(rows, OwnKey(st, dsName)) > 0
    ensures var after := Upserted(st, rows, dsName, time, logPrefix, now, inserts);
            && (exists r :: NewestBorrowable(st, ev, after, r, dsName, now))
            && (forall r :: NewestBorrowable(st, ev, after, r, dsName, now) ==> r.timeNanos == time)
  {
    var after := Upserted(st, rows, dsName, time, logPrefix, now, inserts);
    var own := OwnRow(st, dsName, time, logPrefix, now);
    var c := UpsertHoldsOwnRow(st, rows, dsName, time, logPrefix, now, inserts);
    UpsertStampsOnlyWrittenRows(st, rows, dsName, time, logPrefix, now, inserts);
    assert Borrowable(st, ev, own, dsName, now);
    assert NewestBorrowable(st, ev, after, own, dsName, now);
    forall r | NewestBorrowable(st, ev, after, r, dsName, now)
      ensures r.timeNanos == time
    {
      var j :| 0 <= j < |after| && after[j] == r;
      assert after[c].ts <= r.ts;
    }
  }

  // ---------------------------------------------------------------------
  // The table and the repository
  // ---------------------------------------------------------------------

  /** HADES_RESULTS, shared by every repository that uses it. */
  class ResultsTable {
    var rows: seq<Row>

    constructor (rows: seq<Row>)
      ensures this.rows == rows
    {
      this.rows := rows;
    }
  }

  class RepoJdbcImpl {
    /** `borrowExistingMatchingResultIfYoungerThanMillis`. */
    const borrowMillis: int
    const connTimeoutMillis: int
    const sqlExecTimeout: int
    /** The statement identity. */
    const sql: string
    /** The local host name. */
    const host: string
    /** The ExceptionEnum constants. */
    const exceptions: ExceptionEnum
    const table: ResultsTable

    function Config(): Settings
    {
      Settings(borrowMillis, connTimeoutMillis, sqlExecTimeout, sql, host)
    }

    constructor (borrowMillis: int, connTimeoutMillis: int, sqlExecTimeout: int, sql: string, host: string,
                 exceptions: ExceptionEnum, table: ResultsTable)
      ensures Config() == Settings(borrowMillis, connTimeoutMillis, sqlExecTimeout, sql, host)
      ensures this.exceptions == exceptions && this.table == table
    {
      this.borrowMillis := borrowMillis;
      this.connTimeoutMillis := connTimeoutMillis;
      this.sqlExecTimeout := sqlExecTimeout;
      this.sql := sql;
      this.host := host;
      this.exceptions := exceptions;
      this.table := table;
    }

    /** Binds the borrow SELECT's six parameters, numbering them with a counter. */
    method BindParameters(dsName: string, now: int) returns (ps: Params)
      ensures SelectBound(Config(), dsName, now, ps)
    {
      ps := map[];
      var i := 1;
      ps := Bind(ps, Ts, Num(now - borrowMillis), i);
      i := i + 1;
      ps := Bind(ps, Ds, Str(dsName), i);
      i := i + 1;
      ps := Bind(ps, Sql, Str(sql), i);
      i := i + 1;
      ps := Bind(ps, Host, Str(host), i);
      i := i + 1;
      ps := Bind(ps, Column.ConnTimeout, Num(connTimeoutMillis), i);
      i := i + 1;
      ps := Bind(ps, Column.SqlExecTimeout, Num(sqlExecTimeout), i);
      i := i + 1;
      SelectParametersBound(Config(), dsName, now, ps);
    }

    /**
     * findSqlTimeYoungerThan: the TIME_NANOS of a newest borrowable row, or
     * null when none qualifies or the connection or query fails.
     * `access` says how getting the connection and running the query end.
     */
    method FindSqlTimeYoungerThan(dsName: string, now: int, access: Access) returns (r: Outcome<Option<int>>)
      ensures r.InterruptedException? <==> access == Interrupts
      ensures access == Fails ==> r == Returned(None)
      ensures access == Succeeds ==>
        r.Returned? && (r.value.None? <==>
          forall i :: 0 <= i < |table.rows| ==> !Borrowable(Config(), exceptions, table.rows[i], dsName, now))
      ensures r.Returned? && r.value.Some? ==>
        exists row :: NewestBorrowable(Config(), exceptions, table.rows, row, dsName, now) && row.timeNanos == r.value.value
    {
      if access == Interrupts {
        return InterruptedException;
      }
      if access == Fails {
        return Returned(None);
      }
      var ps := BindParameters(dsName, now);
      var rows := table.rows;
      forall row | row in rows
        ensures SelectWhere(exceptions, row, ps) <==> Borrowable(Config(), exceptions, row, dsName, now)
      {
        SelectMatchesBorrowable(Config(), exceptions, row, dsName, now, ps);
      }
      var first := SelectFirst(exceptions, rows, ps);
      if first.Some? {
        assert NewestBorrowable(Config(), exceptions, rows, first.value, dsName, now);
        r := Returned(Some(first.value.timeNanos));
      } else {
        r := Returned(None);
      }
    }

    /**
     * updateSqlTime: the UPDATE of this node's key, returning the update
     * count, or -1 when the statement fails. `access` says how preparing
     * and executing the UPDATE end.
     */
    method UpdateSqlTime(dsName: string, time: int, logPrefix: string, now: int, access: Access) returns (r: Outcome<int>)
      modifies table
      ensures access == Interrupts ==> r == InterruptedException && table.rows == old(table.rows)
      ensures access == Fails ==> r == Returned(-1) && table.rows == old(table.rows)
      ensures access == Succeeds ==>
        && r == Returned(KeyCount(old(table.rows), OwnKey(Config(), dsName)))
        && table.rows == Refreshed(old(table.rows), OwnKey(Config(), dsName), time, now, host, logPrefix)
    {
      if access == Interrupts {
        return InterruptedException;
      }
      if access == Fails {
        return Returned(-1);
      }
      var ps: Params := map[];
      var i := 1;
      ps := Bind(ps, TimeNanos, Num(time), i);
      i := i + 1;
      ps := Bind(ps, Ts, Num(now), i);
      i := i + 1;
      ps := Bind(ps, Host, Str(host), i);
      i := i + 1;
      ps := Bind(ps, LogPrefix, Str(logPrefix), i);
      i := i + 1;
      ps := Bind(ps, Ds, Str(dsName), i);
      i := i + 1;
      ps := Bind(ps, Sql, Str(sql), i);
      i := i + 1;
      ps := Bind(ps, Column.ConnTimeout, Num(connTimeoutMillis), i);
      i := i + 1;
      ps := Bind(ps, Column.SqlExecTimeout, Num(sqlExecTimeout), i);
      i := i + 1;
      UpdateParametersBound(Config(), dsName, time, logPrefix, now, ps);
      var rows := table.rows;
      UpdateStatementRefreshes(Config(), rows, dsName, time, logPrefix, now, ps);
      var updatedCount := UpdateCount(rows, ps);
      var after := ExecuteUpdate(rows, ps);
      assert updatedCount == KeyCount(rows, OwnKey(Config(), dsName));
      assert after == Refreshed(rows, OwnKey(Config(), dsName), time, now, host, logPrefix);
      table.rows := after;
      r := Returned(updatedCount);
    }

    /**
     * insertSqlTime: the INSERT of this node's row, each value bound at its
     * column's ordinal plus one. Every failure is swallowed.
     */
    method InsertSqlTime(dsName: string, time: int, logPrefix: string, now: int, access: Access)
      modifies table
      ensures table.rows == if access == Succeeds then old(table.rows) + [OwnRow(Config(), dsName, time, logPrefix, now)]
                            else old(table.rows)
    {
      if access == Succeeds {
        var ps: Params := map[];
        ps := BindAtOrdinal(ps, Ds, Str(dsName));
        ps := BindAtOrdinal(ps, Sql, Str(sql));
        ps := BindAtOrdinal(ps, Column.ConnTimeout, Num(connTimeoutMillis));
        ps := BindAtOrdinal(ps, Column.SqlExecTimeout, Num(sqlExecTimeout));
        ps := BindAtOrdinal(ps, TimeNanos, Num(time));
        ps := BindAtOrdinal(ps, Host, Str(host));
        ps := BindAtOrdinal(ps, LogPrefix, Str(logPrefix));
        ps := BindAtOrdinal(ps, Ts, Num(now));
        InsertByOrdinalRoundTrip(OwnRow(Config(), dsName, time, logPrefix, now), ps);
        table.rows := table.rows + [InsertedRow(ps)];
      }
    }

    /**
     * storeSqlTime: update-then-insert of this node's result, returning
     * `time` on every path that is not interrupted. `conn`, `update` and
     * `insert` say how getting the connection, the UPDATE and the INSERT end.
     */
    method StoreSqlTime(dsName: string, time: int, logPrefix: string, now: int, conn: Access, update: Access, insert: Access)
      returns (r: Outcome<int>)
      modifies table
      ensures r.Returned? ==> r.value == time
      ensures r.InterruptedException? <==> conn == Interrupts || (conn == Succeeds && update == Interrupts)
      ensures table.rows ==
        if conn == Succeeds && update == Succeeds
        then Upserted(Config(), old(table.rows), dsName, time, logPrefix, now, insert == Succeeds)
        else old(table.rows)
    {
      if conn == Interrupts {
        return InterruptedException;
      }
      if conn == Fails {
        return Returned(time);
      }
      ghost var before := table.rows;
      var updatedCount := UpdateSqlTime(dsName, time, logPrefix, now, update);
      if updatedCount.InterruptedException? {
        return InterruptedException;
      }
      if updatedCount.value == 0 {
        RefreshedWithoutKey(before, OwnKey(Config(), dsName), time, now, host, logPrefix);
        InsertSqlTime(dsName, time, logPrefix, now, insert);
      }
      r := Returned(time);
    }

    /**
     * storeException: stores the erroneous value of a connection failure or
     * an execution timeout; maps any other LoadMeasuringException to its
     * value without storing; any other exception is unexpectedException.
     */
    method StoreException(dsName: string, e: Thrown, logPrefix: string, now: int, conn: Access, update: Access, insert: Access)
      returns (r: Outcome<int>)
      modifies table
      ensures e.OtherException? ==> r == Returned(exceptions.unexpectedException) && table.rows == old(table.rows)
      ensures e.Measuring? && !IsStored(e.lme) ==>
        r == Returned(ValueForException(exceptions, e.lme)) && table.rows == old(table.rows)
      ensures e.Measuring? && IsStored(e.lme) ==>
        && (r.Returned? ==> r.value == ValueForException(exceptions, e.lme))
        && (r.InterruptedException? <==> conn == Interrupts || (conn == Succeeds && update == Interrupts))
        && table.rows ==
             if conn == Succeeds && update == Succeeds
             then Upserted(Config(), old(table.rows), dsName, ValueForException(exceptions, e.lme), logPrefix, now, insert == Succeeds)
             else old(table.rows)
    {
      if e.Measuring? {
        if IsStored(e.lme) {
          r := StoreSqlTime(dsName, ValueForException(exceptions, e.lme), logPrefix, now, conn, update, insert);
        } else {
          r := Returned(ValueForException(exceptions, e.lme));
        }
      } else {
        r := Returned(exceptions.unexpectedException);
      }
    }
  }
}
