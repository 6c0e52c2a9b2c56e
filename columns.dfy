/**
 * The HADES_RESULTS table: its columns (the ResultColumn enum, with each
 * column's name and JDBC type), its rows, the column lists the INSERT is
 * built from, and the positional parameters of a prepared statement.
 */
module ResultColumns {

  /** The ResultColumn constants, in declaration order. */
  datatype Column = Ds | Sql | ConnTimeout | SqlExecTimeout | TimeNanos | Host | LogPrefix | Ts

  datatype SqlType = Varchar | Integer | Timestamp

  const Table: string := "HADES_RESULTS"

  /** `ResultColumn.values()`. */
  const Columns: seq<Column> := [Ds, Sql, ConnTimeout, SqlExecTimeout, TimeNanos, Host, LogPrefix, Ts]

  function Name(c: Column): string
  {
    match c
    case Ds => "DS"
    case Sql => "SQL_STMT"
    case ConnTimeout => "CONN_TIMEOUT"
    case SqlExecTimeout => "EXEC_TIMEOUT"
    case TimeNanos => "TIME_NANOS"
    case Host => "HOST"
    case LogPrefix => "LOG_PREFIX"
    case Ts => "TS"
  }

  function Type(c: Column): SqlType
  {
    match c
    case Ds => Varchar
    case Sql => Varchar
    case ConnTimeout => Integer
    case SqlExecTimeout => Integer
    case TimeNanos => Integer
    case Host => Varchar
    case LogPrefix => Varchar
    case Ts => Timestamp
  }

  /** `ordinal()`: the position of a constant in declaration order. */
  function Ordinal(c: Column): (k: nat)
    ensures k < |Columns| && Columns[k] == c
  {
    match c
    case Ds => 0
    case Sql => 1
    case ConnTimeout => 2
    case SqlExecTimeout => 3
    case TimeNanos => 4
    case Host => 5
    case LogPrefix => 6
    case Ts => 7
  }

  /** Ordinal and `values()` are inverse: every constant appears once, at its ordinal. */
  lemma OrdinalOfColumn(k: nat)
    requires k < |Columns|
    ensures Ordinal(Columns[k]) == k
  {
    assert Columns[Ordinal(Columns[k])] == Columns[k];
  }

  // ---------------------------------------------------------------------
  // Column lists
  // ---------------------------------------------------------------------

  /** What `list` writes for one column: its name, or a question mark. */
  function Entry(questionMarks: bool, c: Column): string
  {
    if questionMarks then "?" else Name(c)
  }

  function Entries(questionMarks: bool): (e: seq<string>)
    ensures |e| == |Columns|
  {
    seq(|Columns|, k requires 0 <= k < |Columns| => Entry(questionMarks, Columns[k]))
  }

  /** The parts joined by a comma and a space. */
  function Joined(parts: seq<string>): string
    requires |parts| > 0
  {
    if |parts| == 1 then parts[0] else Joined(parts[..|parts| - 1]) + ", " + parts[|parts| - 1]
  }

  /** `ResultColumn.list(questionMarks)`, with its StringBuilder loop. */
  method List(questionMarks: bool) returns (s: string)
    ensures s == Joined(Entries(questionMarks))
  {
    var entries := Entries(questionMarks);
    s := Entry(questionMarks, Columns[0]);
    var i := 1;
    while i < |Columns|
      invariant 1 <= i <= |Columns|
      invariant s == Joined(entries[..i])
    {
      assert entries[..i + 1][..i] == entries[..i];
      s := s + ", " + Entry(questionMarks, Columns[i]);
      i := i + 1;
    }
    assert entries[..|Columns|] == entries;
  }

  /** `columnList`. */
  const ColumnList: string := Joined(Entries(false))

  /** `questionMarkList`. */
  const QuestionMarkList: string := Joined(Entries(true))

  /** `insert`. */
  const Insert: string := "INSERT INTO " + Table + " (" + ColumnList + ") VALUES (" + QuestionMarkList + ")"

  /** The column names in declaration order. */
  lemma ColumnNames()
    ensures Entries(false) == ["DS", "SQL_STMT", "CONN_TIMEOUT", "EXEC_TIMEOUT", "TIME_NANOS", "HOST", "LOG_PREFIX", "TS"]
  {
  }

  lemma {:induction false} JoinedStep(parts: seq<string>, k: nat)
    requires 1 <= k < |parts|
    ensures Joined(parts[..k + 1]) == Joined(parts[..k]) + ", " + parts[k]
  {
    assert parts[..k + 1][..k] == parts[..k];
  }

  /** The column list names every column, in declaration order. */
  lemma ColumnListText()
    ensures ColumnList == "DS, SQL_STMT, CONN_TIMEOUT, EXEC_TIMEOUT, TIME_NANOS, HOST, LOG_PREFIX, TS"
  {
    var e := Entries(false);
    ColumnNames();
    assert Joined(e[..1]) == "DS";
    JoinedStep(e, 1);
    assert Joined(e[..2]) == "DS, SQL_STMT";
    JoinedStep(e, 2);
    assert Joined(e[..3]) == "DS, SQL_STMT, CONN_TIMEOUT";
    JoinedStep(e, 3);
    assert Joined(e[..4]) == "DS, SQL_STMT, CONN_TIMEOUT, EXEC_TIMEOUT";
    JoinedStep(e, 4);
    assert Joined(e[..5]) == "DS, SQL_STMT, CONN_TIMEOUT, EXEC_TIMEOUT, TIME_NANOS";
    JoinedStep(e, 5);
    assert Joined(e[..6]) == "DS, SQL_STMT, CONN_TIMEOUT, EXEC_TIMEOUT, TIME_NANOS, HOST";
    JoinedStep(e, 6);
    assert Joined(e[..7]) == "DS, SQL_STMT, CONN_TIMEOUT, EXEC_TIMEOUT, TIME_NANOS, HOST, LOG_PREFIX";
    JoinedStep(e, 7);
    assert Joined(e[..8]) == "DS, SQL_STMT, CONN_TIMEOUT, EXEC_TIMEOUT, TIME_NANOS, HOST, LOG_PREFIX, TS";
    assert e[..8] == e;
  }

  /** The question-mark list is eight question marks joined by a comma and a space. */
  lemma QuestionMarkListText()
    ensures QuestionMarkList == "?, ?, ?, ?, ?, ?, ?, ?"
  {
    var e := Entries(true);
    assert forall k :: 0 <= k < |e| ==> e[k] == "?";
    assert Joined(e[..1]) == "?";
    JoinedStep(e, 1);
    assert Joined(e[..2]) == "?, ?";
    JoinedStep(e, 2);
    assert Joined(e[..3]) == "?, ?, ?";
    JoinedStep(e, 3);
    assert Joined(e[..4]) == "?, ?, ?, ?";
    JoinedStep(e, 4);
    assert Joined(e[..5]) == "?, ?, ?, ?, ?";
    JoinedStep(e, 5);
    assert Joined(e[..6]) == "?, ?, ?, ?, ?, ?";
    JoinedStep(e, 6);
    assert Joined(e[..7]) == "?, ?, ?, ?, ?, ?, ?";
    JoinedStep(e, 7);
    assert Joined(e[..8]) == "?, ?, ?, ?, ?, ?, ?, ?";
    assert e[..8] == e;
  }

  /** The INSERT statement lists every column in declaration order, and one `?` for each. */
  lemma InsertText()
    ensures Insert ==
      "INSERT INTO HADES_RESULTS ("
      + "DS, SQL_STMT, CONN_TIMEOUT, EXEC_TIMEOUT, TIME_NANOS, HOST, LOG_PREFIX, TS"
      + ") VALUES ("
      + "?, ?, ?, ?, ?, ?, ?, ?"
      + ")"
  {
    ColumnListText();
    QuestionMarkListText();
    assert "INSERT INTO " + Table + " (" == "INSERT INTO HADES_RESULTS (";
  }

  /** The number of occurrences of a character. */
  function Occurrences(s: string, ch: char): nat
  {
    if s == [] then 0 else Occurrences(s[..|s| - 1], ch) + (if s[|s| - 1] == ch then 1 else 0)
  }

  lemma {:induction false} OccurrencesAppend(a: string, b: string, ch: char)
    ensures Occurrences(a + b, ch) == Occurrences(a, ch) + Occurrences(b, ch)
  {
    if b != [] {
      assert (a + b)[..|a + b| - 1] == a + b[..|b| - 1];
      OccurrencesAppend(a, b[..|b| - 1], ch);
    } else {
      assert a + b == a;
    }
  }

  /** A list of question marks holds exactly one `?` per part. */
  lemma {:induction false} QuestionMarksPerPart(parts: seq<string>)
    requires |parts| > 0
    requires forall k :: 0 <= k < |parts| ==> parts[k] == "?"
    ensures Occurrences(Joined(parts), '?') == |parts|
  {
    if |parts| == 1 {
      assert Occurrences("?", '?') == Occurrences([], '?') + 1 by { assert "?"[..0] == []; }
    } else {
      var init := parts[..|parts| - 1];
      QuestionMarksPerPart(init);
      OccurrencesAppend(Joined(init), ", ", '?');
      OccurrencesAppend(Joined(init) + ", ", "?", '?');
      assert Occurrences(", ", '?') == 0 by {
        assert ", "[..1] == "," && ","[..0] == [];
      }
      assert Occurrences("?", '?') == 1 by { assert "?"[..0] == []; }
    }
  }

  /** The INSERT's VALUES list has one `?` for each listed column. */
  lemma QuestionMarkListCount()
    ensures Occurrences(QuestionMarkList, '?') == |Columns|
  {
    QuestionMarksPerPart(Entries(true));
  }

  // ---------------------------------------------------------------------
  // Rows and column values
  // ---------------------------------------------------------------------

  /** One row of HADES_RESULTS; `ts` is in milliseconds. */
  datatype Row = Row(
    ds: string, sql: string, connTimeout: int, execTimeout: int,
    timeNanos: int, host: string, logPrefix: string, ts: int)

  /** A value passed to or read from JDBC. */
  datatype Obj = Str(s: string) | Num(n: int)

  /** A value the column's JDBC type can hold. */
  predicate Fits(c: Column, o: Obj)
  {
    o.Str? <==> Type(c) == Varchar
  }

  function ValueOf(r: Row, c: Column): (o: Obj)
    ensures Fits(c, o)
  {
    match c
    case Ds => Str(r.ds)
    case Sql => Str(r.sql)
    case ConnTimeout => Num(r.connTimeout)
    case SqlExecTimeout => Num(r.execTimeout)
    case TimeNanos => Num(r.timeNanos)
    case Host => Str(r.host)
    case LogPrefix => Str(r.logPrefix)
    case Ts => Num(r.ts)
  }

  /** The row with one column set. */
  function WithValue(r: Row, c: Column, o: Obj): (r': Row)
    requires Fits(c, o)
    ensures ValueOf(r', c) == o
    ensures forall d :: d != c ==> ValueOf(r', d) == ValueOf(r, d)
  {
    match c
    case Ds => r.(ds := o.s)
    case Sql => r.(sql := o.s)
    case ConnTimeout => r.(connTimeout := o.n)
    case SqlExecTimeout => r.(execTimeout := o.n)
    case TimeNanos => r.(timeNanos := o.n)
    case Host => r.(host := o.s)
    case LogPrefix => r.(logPrefix := o.s)
    case Ts => r.(ts := o.n)
  }

  // ---------------------------------------------------------------------
  // Positional parameters of a prepared statement
  // ---------------------------------------------------------------------

  /** A bound parameter: the value, and the column whose JDBC type was used to bind it. */
  datatype Param = Param(column: Column, obj: Obj)

  /** Parameter positions (from 1) to bound values. */
  type Params = map<int, Param>

  /** `bind(ps, o, index)`: sets parameter `index` with the column's type. */
  function Bind(ps: Params, c: Column, o: Obj, index: int): Params
  {
    ps[index := Param(c, o)]
  }

  /** `bind(ps, o)`: sets the parameter at the column's ordinal plus one. */
  function BindAtOrdinal(ps: Params, c: Column, o: Obj): Params
  {
    Bind(ps, c, o, Ordinal(c) + 1)
  }

  /** Binding sets parameter `index`, with the column it was bound by, and leaves every other parameter as it was. */
  lemma BindSetsOnlyIndex(ps: Params, c: Column, o: Obj, index: int)
    ensures Bind(ps, c, o, index).Keys == ps.Keys + {index}
    ensures Bind(ps, c, o, index)[index] == Param(c, o)
    ensures forall k :: k in ps && k != index ==> Bind(ps, c, o, index)[k] == ps[k]
  {
  }

  /** Binding by ordinal sets the position, from 1, at which the column stands in the column list. */
  lemma BindAtOrdinalPosition(ps: Params, c: Column, o: Obj)
    ensures exists k :: 1 <= k <= |Columns| && Columns[k - 1] == c && BindAtOrdinal(ps, c, o) == Bind(ps, c, o, k)
  {
    var k := Ordinal(c) + 1;
    assert Columns[k - 1] == c && BindAtOrdinal(ps, c, o) == Bind(ps, c, o, k);
  }

  /**
   * Every placeholder, numbered from 1 in text order, has a parameter
   * bound by the column it stands beside, with a value that column holds.
   */
  predicate BindsAll(ps: Params, placeholders: seq<Column>)
  {
    forall k :: 1 <= k <= |placeholders| ==>
      k in ps && ps[k].column == placeholders[k - 1] && Fits(placeholders[k - 1], ps[k].obj)
  }

  /** The column beside each `?` of the borrow SELECT, in text order. */
  const SelectPlaceholders: seq<Column> := [Ts, Ds, Sql, Host, ConnTimeout, SqlExecTimeout]

  /** The column beside each `?` of the UPDATE: four SET columns, then four WHERE columns. */
  const UpdatePlaceholders: seq<Column> := [TimeNanos, Ts, Host, LogPrefix, Ds, Sql, ConnTimeout, SqlExecTimeout]

  /** The INSERT's `?`s stand in column-list order, so its placeholders are the columns themselves. */
  const InsertPlaceholders: seq<Column> := Columns
}
