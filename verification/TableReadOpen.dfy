/** Opening a pinned table read: every resource taken on the way is given back exactly once when
    the opening fails, and when it succeeds the connection is read-only, inside a transaction, and
    limited so that one row's cells fit the byte budget. */
module TableReadOpen {
  import opened Text
  import opened ConnectionPool
  import opened Environment

  // ---- The cell budget ----

  function CellBytes(maxBytes: nat, columns: nat): nat
    requires columns > 0
  {
    maxBytes / columns
  }

  /** The cell bound is the largest of which one for each column fits the budget, and it leaves
      room for a number in every cell exactly when the budget is eight bytes a column. */
  lemma CellBudget(maxBytes: nat, columns: nat)
    requires columns > 0
    ensures columns * CellBytes(maxBytes, columns) <= maxBytes < columns * (CellBytes(maxBytes, columns) + 1)
    ensures CellBytes(maxBytes, columns) >= 8 <==> maxBytes >= 8 * columns
  {
    var cell := maxBytes / columns;
    assert columns * (cell + 1) == columns * cell + columns;
    if cell >= 8 { MulOrdered(columns, 8, cell); } else { MulOrdered(columns, cell + 1, 8); }
  }

  lemma MulOrdered(n: nat, a: nat, b: nat)
    requires a <= b
    ensures n * a <= n * b
  {
  }

  function Total(sizes: seq<nat>): nat {
    if sizes == [] then 0 else Total(sizes[..|sizes| - 1]) + sizes[|sizes| - 1]
  }

  lemma {:induction false} TotalBound(sizes: seq<nat>, cell: nat)
    requires forall i | 0 <= i < |sizes| :: sizes[i] <= cell
    ensures Total(sizes) <= |sizes| * cell
    decreases |sizes|
  {
    if sizes != [] {
      TotalBound(sizes[..|sizes| - 1], cell);
      assert |sizes| * cell == (|sizes| - 1) * cell + cell;
    }
  }

  /** Cells the connection accepts, one for each column, never exceed the budget together. */
  lemma RowFitsBudget(maxBytes: nat, sizes: seq<nat>)
    requires sizes != [] && forall i | 0 <= i < |sizes| :: sizes[i] <= CellBytes(maxBytes, |sizes|)
    ensures Total(sizes) <= maxBytes
  {
    TotalBound(sizes, CellBytes(maxBytes, |sizes|));
    CellBudget(maxBytes, |sizes|);
  }

  // ---- What may be opened ----

  predicate Letter(c: char) { 'a' <= c <= 'z' || 'A' <= c <= 'Z' || c == '_' }

  /** tableReadName: an ASCII identifier of at most 128 characters. */
  predicate PlainName(s: string) {
    1 <= |s| <= 128 && Letter(s[0]) && forall i | 0 <= i < |s| :: Letter(s[i]) || '0' <= s[i] <= '9'
  }

  datatype Limits = Limits(maxBytes: nat, maxColumns: nat)

  /** cleanPath: the file name is absolute and clean. */
  predicate ValidRequest(cleanPath: bool, namespace: string, table: string, limits: Limits) {
    && cleanPath && namespace == "main" && PlainName(table) && !("sqlite_" <= Fold(table))
    && 0 < limits.maxBytes <= 256 * 1024 && 0 < limits.maxColumns <= 128
  }

  datatype DatabaseRow = DatabaseRow(position: int, name: string, file: string)

  datatype TableRow = TableRow(schema: string, name: string, kind: string, columns: int)

  datatype ColumnRow = ColumnRow(id: int, name: string, hidden: int)

  /** What the file's pragmas answer. */
  datatype File = File(databases: seq<DatabaseRow>, encoding: string, listing: Option<TableRow>,
                       columns: seq<ColumnRow>)

  /** The file is the only database attached. */
  predicate OnlyMain(rows: seq<DatabaseRow>, filename: string) { rows == [DatabaseRow(0, "main", filename)] }

  predicate PlainColumn(rows: seq<ColumnRow>, i: nat)
    requires i < |rows|
  {
    rows[i].id == i && rows[i].hidden == 0 && PlainName(rows[i].name) && forall j | 0 <= j < i ::
      rows[j].name != rows[i].name
  }

  /** Ordinary columns with plain, distinct names, in order, at least one and not too many. */
  predicate PlainColumns(rows: seq<ColumnRow>, maxColumns: nat) {
    0 < |rows| <= maxColumns && forall i | 0 <= i < |rows| :: PlainColumn(rows, i)
  }

  function ColumnNames(rows: seq<ColumnRow>): (r: seq<string>)
    ensures |r| == |rows|
  {
    seq(|rows|, i requires 0 <= i < |rows| => rows[i].name)
  }

  /** An ordinary table of a UTF-8 file, with columns that can all be read. */
  predicate PlainListing(file: File, table: string, limits: Limits) {
    && file.encoding == "UTF-8"
    && file.listing.Some? && file.listing.value == TableRow("main", table, "table", |file.columns|)
    && PlainColumns(file.columns, limits.maxColumns)
  }

  predicate Admissible(file: File, filename: string, table: string, limits: Limits) {
    OnlyMain(file.databases, filename) && PlainListing(file, table, limits)
  }

  // ---- Resources ----

  /** The driver, with every database, connection, transaction and span it ever handed out: each
      enters the ledger in its constructor, and nothing leaves it. */
  class Driver {
    const env: Env
    ghost var dbs: set<Db>
    ghost var conns: set<NativeConn>
    ghost var txs: set<NativeTx>
    ghost var spans: set<Span>

    constructor (env: Env)
      ensures this.env == env && dbs == {} && conns == {} && txs == {} && spans == {}
    {
      this.env, dbs, conns, txs, spans := env, {}, {}, {}, {};
    }
  }

  class Db {
    var closes: nat

    constructor (ghost driver: Driver)
      modifies driver`dbs
      ensures closes == 0 && driver.dbs == old(driver.dbs) + {this}
    {
      closes := 0;
      new;
      driver.dbs := driver.dbs + {this};
    }
  }

  datatype LimitId = Length | ColumnCount

  class NativeConn {
    const env: Env
    var closes: nat
    var lengthLimit: int
    var columnLimit: int
    var queryOnly: bool

    constructor (driver: Driver)
      modifies driver`conns
      ensures env == driver.env && closes == 0 && driver.conns == old(driver.conns) + {this}
    {
      env := driver.env;
      closes, lengthLimit, columnLimit, queryOnly := 0, 1_000_000_000, 2000, false;
      new;
      driver.conns := driver.conns + {this};
    }

    /** Sets a limit. When the call does not go well, that is an error, or the library keeps
        another bound. */
    method SetLimit(id: LimitId, value: nat) returns (ok: bool)
      modifies this`lengthLimit, this`columnLimit, env
      ensures env.asked == old(env.asked) + 1
      ensures id == Length ==> columnLimit == old(columnLimit)
      ensures id == ColumnCount ==> lengthLimit == old(lengthLimit)
      ensures env.Granted(old(env.asked)) ==> ok && value == if id == Length then lengthLimit else columnLimit
    {
      var granted := env.Ask();
      var kept: int := *;
      ok := *;
      if granted { kept, ok := value, true; }
      if !ok { return; }
      match id
      case Length => lengthLimit := kept;
      case ColumnCount => columnLimit := kept;
    }

    /** Reads a limit: a set with a negative value. */
    method GetLimit(id: LimitId) returns (r: Option<int>)
      modifies env
      ensures env.asked == old(env.asked) + 1
      ensures r == if env.Granted(old(env.asked)) then Some(if id == Length then lengthLimit else columnLimit) else None
    {
      var granted := env.Ask();
      if !granted { return None; }
      return Some(if id == Length then lengthLimit else columnLimit);
    }

    /** PRAGMA query_only=ON may fail, or be without effect. */
    method SetQueryOnly() returns (ok: bool)
      modifies this`queryOnly, env
      ensures env.asked == old(env.asked) + 1
      ensures env.Granted(old(env.asked)) ==> ok && queryOnly
    {
      var granted := env.Ask();
      ok, queryOnly := *, *;
      if granted { ok, queryOnly := true, true; }
    }

    method GetQueryOnly() returns (r: Option<bool>)
      modifies env
      ensures env.asked == old(env.asked) + 1
      ensures r == if env.Granted(old(env.asked)) then Some(queryOnly) else None
    {
      var granted := env.Ask();
      return if granted then Some(queryOnly) else None;
    }
  }

  class NativeTx {
    const env: Env
    var rollbacks: nat
    /** Its connection, free while no result set of the transaction is open. */
    const line: Pool

    constructor (driver: Driver)
      modifies driver`txs
      ensures env == driver.env && rollbacks == 0 && fresh(line) && line.env == env && line.free == 1
      ensures driver.txs == old(driver.txs) + {this}
    {
      env, rollbacks := driver.env, 0;
      line := new Pool(driver.env, 1);
      new;
      driver.txs := driver.txs + {this};
    }

    /** No result set of it is open. */
    ghost predicate Quiet()
      reads this, line
    {
      line.env == env && line.free == 1
    }
  }

  /** rows.Close as a deferred call that may report an error. */
  method CloseRows<T>(rows: Rows<T>) returns (ok: bool)
    modifies rows, rows.home`free, rows.home.env
    ensures !rows.open && rows.home.free == old(rows.home.free) + old(rows.Held())
    ensures rows.home.env.asked == old(rows.home.env.asked) + 1
    ensures ok <==> rows.home.env.Granted(old(rows.home.env.asked))
  {
    rows.Close();
    ok := rows.home.env.Ask();
  }

  // ---- Inspecting the file ----

  /** Exactly the file as the only database, when every call goes well; never another. */
  method InspectDatabases(tx: NativeTx, filename: string, data: seq<DatabaseRow>) returns (ok: bool)
    requires tx.Quiet()
    modifies tx.line, tx.env
    ensures tx.Quiet() && old(tx.env.asked) <= tx.env.asked
    ensures ok ==> OnlyMain(data, filename)
    ensures tx.env.CalmSince(old(tx.env.asked)) ==> (ok <==> OnlyMain(data, filename))
  {
    ghost var from := tx.env.asked;
    var rows := tx.line.Query(data);
    if rows == null { return false; }
    var seen := false;
    var has, row := rows.Fetch(from);
    while has
      invariant rows.home == tx.line && rows.holds && rows.data == data && fresh(rows) && rows.Fetched(from, has, row)
      invariant tx.line.free == if has then 0 else 1
      invariant seen == (rows.Dealt() != []) && (seen ==> rows.Dealt() == [DatabaseRow(0, "main", filename)])
      decreases |rows.data| - rows.read, has
    {
      if row.None? { var joined := CloseRows(rows); return false; }
      if seen || row.value.position != 0 || row.value.name != "main" || row.value.file != filename {
        var joined := CloseRows(rows);
        return false;
      }
      seen := true;
      has, row := rows.Fetch(from);
    }
    assert !rows.failed ==> rows.Dealt() == data;
    if rows.failed { var joined := CloseRows(rows); return false; }
    var closed := CloseRows(rows);
    return seen && closed;
  }

  /** What the loop over the columns has gathered from those it has dealt with. */
  ghost predicate Gathered(data: seq<ColumnRow>, n: nat, columns: seq<string>, seen: set<string>, maxColumns: nat) {
    && n <= |data| && columns == ColumnNames(data[..n]) && n <= maxColumns
    && (forall x :: x in seen <==> x in columns)
    && forall i | 0 <= i < n :: PlainColumn(data, i)
  }

  /** One row: refused exactly when no list of columns with it is plain. */
  method GatherColumn(c: ColumnRow, columns: seq<string>, seen: set<string>, maxColumns: nat,
                      ghost data: seq<ColumnRow>, ghost n: nat)
    returns (ok: bool)
    requires Gathered(data, n, columns, seen, maxColumns) && n < |data| && c == data[n]
    ensures ok ==> Gathered(data, n + 1, columns + [c.name], seen + {c.name}, maxColumns)
    ensures !ok ==> !PlainColumns(data, maxColumns)
  {
    assert forall j | 0 <= j < n :: columns[j] == data[j].name;
    if c.id != |columns| || c.hidden != 0 || !PlainName(c.name) || |columns| >= maxColumns || c.name in seen {
      assert c.name in seen ==> exists j | 0 <= j < n :: data[j].name == c.name;
      assert PlainColumns(data, maxColumns) ==> PlainColumn(data, n) && n < maxColumns;
      return false;
    }
    assert PlainColumn(data, n) by {
      forall j | 0 <= j < n ensures data[j].name != c.name { assert columns[j] in seen; }
    }
    assert columns + [c.name] == ColumnNames(data[..n + 1]);
    return true;
  }

  method InspectColumns(tx: NativeTx, data: seq<ColumnRow>, maxColumns: nat) returns (r: Option<seq<string>>)
    requires tx.Quiet()
    modifies tx.line, tx.env
    ensures tx.Quiet() && old(tx.env.asked) <= tx.env.asked
    ensures r.Some? ==> PlainColumns(data, maxColumns) && r.value == ColumnNames(data)
    ensures tx.env.CalmSince(old(tx.env.asked)) ==> (r.Some? <==> PlainColumns(data, maxColumns))
  {
    ghost var from := tx.env.asked;
    var rows := tx.line.Query(data);
    if rows == null { return None; }
    var seen: set<string> := {};
    var columns: seq<string> := [];
    ghost var n := 0;
    var has, row := rows.Fetch(from);
    while has
      invariant rows.home == tx.line && rows.holds && rows.data == data && fresh(rows) && rows.Fetched(from, has, row)
      invariant tx.line.free == if has then 0 else 1
      invariant rows.read == n + (if has then 1 else 0) && Gathered(data, n, columns, seen, maxColumns)
      decreases |rows.data| - rows.read, has
    {
      if row.None? { var joined := CloseRows(rows); return None; }
      var ok := GatherColumn(row.value, columns, seen, maxColumns, data, n);
      if !ok { var joined := CloseRows(rows); return None; }
      seen := seen + {row.value.name};
      columns := columns + [row.value.name];
      n := n + 1;
      has, row := rows.Fetch(from);
    }
    if rows.failed { var joined := CloseRows(rows); return None; }
    var closed := CloseRows(rows);
    assert data[..|data|] == data;
    if |columns| == 0 || !closed { return None; }
    return Some(columns);
  }

  method InspectTableRead(tx: NativeTx, file: File, filename: string, table: string, limits: Limits)
    returns (r: Option<seq<string>>)
    requires tx.Quiet()
    modifies tx.line, tx.env
    ensures tx.Quiet() && old(tx.env.asked) <= tx.env.asked
    ensures r.Some? ==> Admissible(file, filename, table, limits) && r.value == ColumnNames(file.columns)
    ensures tx.env.CalmSince(old(tx.env.asked)) ==> (r.Some? <==> Admissible(file, filename, table, limits))
  {
    ghost var from := tx.env.asked;
    var only := InspectDatabases(tx, filename, file.databases);
    if !only { return None; }
    ghost var mid := tx.env.asked;
    r := InspectListing(tx, file, table, limits);
  }

  /** After the databases: the encoding, the table's entry, its columns. */
  method InspectListing(tx: NativeTx, file: File, table: string, limits: Limits) returns (r: Option<seq<string>>)
    requires tx.Quiet()
    modifies tx.line, tx.env
    ensures tx.Quiet() && old(tx.env.asked) <= tx.env.asked
    ensures r.Some? ==> PlainListing(file, table, limits) && r.value == ColumnNames(file.columns)
    ensures tx.env.CalmSince(old(tx.env.asked)) ==> (r.Some? <==> PlainListing(file, table, limits))
  {
    ghost var from := tx.env.asked;
    var encoding := tx.line.QueryRow(Some(file.encoding));
    if encoding.None? || encoding.value != Some("UTF-8") { return None; }
    var listing := tx.line.QueryRow(file.listing);
    if listing.None? || listing.value.None? { return None; }
    var t := listing.value.value;
    if t.schema != "main" || t.name != table || t.kind != "table" || t.columns < 1 || t.columns > limits.maxColumns {
      return None;
    }
    ghost var mid := tx.env.asked;
    var columns := InspectColumns(tx, file.columns, limits.maxColumns);
    if columns.None? || |columns.value| != t.columns { return None; }
    return columns;
  }

  // ---- The span ----

  datatype Facts = Facts(filename: string, table: string, columns: seq<string>, maxBytes: nat, maxColumns: nat,
                         maxCellBytes: nat)

  /** The columns of the file in order, and the limits with the cell bound they give. */
  function FactsOf(file: File, filename: string, table: string, limits: Limits): Facts
    requires file.columns != []
  {
    Facts(filename, table, ColumnNames(file.columns), limits.maxBytes, limits.maxColumns,
          CellBytes(limits.maxBytes, |file.columns|))
  }

  class Span {
    const driver: Driver
    const env: Env
    var cancelled: bool
    var closed: bool
    var db: Db?
    var conn: NativeConn?
    var tx: NativeTx?
    var facts: Facts
    var hasSession: bool

    constructor (driver: Driver)
      modifies driver`spans
      ensures this.driver == driver && env == driver.env && driver.spans == old(driver.spans) + {this}
      ensures !cancelled && !closed && db == null && conn == null && tx == null && !hasSession
    {
      this.driver, env := driver, driver.env;
      cancelled, closed, db, conn, tx, hasSession := false, false, null, null, null, false;
      facts := Facts("", "", [], 0, 0, 0);
      new;
      driver.spans := driver.spans + {this};
    }

    /** Of everything the driver handed out since its ledger read `dbs`, `conns` and `txs`, this
        span has all, and has it still. */
    ghost predicate HoldsAll(dbs: set<Db>, conns: set<NativeConn>, txs: set<NativeTx>)
      reads this, driver
    {
      && driver.dbs == dbs + (if db == null then {} else {db})
      && driver.conns == conns + (if conn == null then {} else {conn})
      && driver.txs == txs + (if tx == null then {} else {tx})
    }

    ghost function Owned(): set<object>
      reads this
    {
      (if db == null then {} else {db}) + (if conn == null then {} else {conn})
        + (if tx == null then {} else {tx, tx.line})
    }

    /** Each resource taken so far was given back so many times. */
    ghost predicate GivenBack(times: nat)
      reads this, Owned()
    {
      (db != null ==> db.closes == times) && (conn != null ==> conn.closes == times)
        && (tx != null ==> tx.rollbacks == times)
    }

    /** One call of a Close, counted among the failures when it fails. */
    method Attempt(failures: nat, ghost from: nat) returns (counted: nat)
      requires from <= env.asked && failures == env.Refusals(from, env.asked)
      modifies env
      ensures env.asked == old(env.asked) + 1 && counted == env.Refusals(from, env.asked)
    {
      var went := env.Ask();
      counted := if went then failures else failures + 1;
    }

    /** How many calls a Close makes: one for each thing there is to give back. */
    ghost function Held(): nat
      reads this
    {
      (if tx == null then 0 else 1) + (if conn == null then 0 else 1) + (if db == null then 0 else 1)
    }

    /** The first Close gives back whatever the span has, whatever fails on the way, and reports each
        of its calls that failed, a rollback that finds its transaction done not being one; any later
        Close does nothing and reports nothing. */
    method Close() returns (failures: nat)
      requires env !in Owned()
      modifies this`closed, this`cancelled, Owned(), env
      ensures closed && Owned() == old(Owned()) && db == old(db) && conn == old(conn) && tx == old(tx)
      ensures !old(closed) ==> cancelled
      ensures old(closed) ==> cancelled == old(cancelled) && failures == 0 && env.asked == old(env.asked)
      ensures !old(closed) ==>
                env.asked == old(env.asked) + old(Held()) && failures == env.Refusals(old(env.asked), env.asked)
      ensures db != null ==> db.closes == old(db.closes) + if old(closed) then 0 else 1
      ensures conn != null ==> conn.closes == old(conn.closes) + if old(closed) then 0 else 1
      ensures tx != null ==> tx.rollbacks == old(tx.rollbacks) + if old(closed) then 0 else 1
    {
      failures := 0;
      if closed { return; }
      ghost var from := env.asked;
      closed := true;
      cancelled := true;
      if tx != null {
        tx.rollbacks := tx.rollbacks + 1;
        failures := Attempt(failures, from);
      }
      if conn != null {
        conn.closes := conn.closes + 1;
        failures := Attempt(failures, from);
      }
      if db != null {
        db.closes := db.closes + 1;
        failures := Attempt(failures, from);
      }
    }
  }

  /** What must hold before data can be read through the span. */
  ghost predicate Established(s: Span, limits: Limits, cellBytes: nat)
    reads s, s.Owned()
  {
    && !s.closed && s.db != null && s.conn != null && s.tx != null && s.GivenBack(0) && s.tx.Quiet()
    && s.conn.queryOnly && s.conn.columnLimit == limits.maxColumns && s.conn.lengthLimit == cellBytes
  }

  /** The resources ask the span's environment. */
  ghost predicate Wired(s: Span)
    reads s, s.Owned()
  {
    s.env == s.driver.env && (s.conn != null ==> s.conn.env == s.env) && (s.tx != null ==> s.tx.env == s.env)
  }

  /** deps.session: the factory is only ever called on an established span. */
  method NewReadSession(s: Span, ghost limits: Limits, ghost cellBytes: nat) returns (ok: bool)
    requires Established(s, limits, cellBytes)
    modifies s.env
    ensures s.env.asked == old(s.env.asked) + 1
    ensures ok <==> s.env.Granted(old(s.env.asked))
  {
    ok := s.env.Ask();
  }

  method SetAndVerify(conn: NativeConn, id: LimitId, value: nat) returns (ok: bool)
    modifies conn`lengthLimit, conn`columnLimit, conn.env
    ensures id == Length ==> conn.columnLimit == old(conn.columnLimit) && (ok ==> conn.lengthLimit == value)
    ensures id == ColumnCount ==> conn.lengthLimit == old(conn.lengthLimit) && (ok ==> conn.columnLimit == value)
    ensures old(conn.env.asked) <= conn.env.asked && (conn.env.CalmSince(old(conn.env.asked)) ==> ok)
  {
    ok := conn.SetLimit(id, value);
    if !ok { return; }
    var actual := conn.GetLimit(id);
    return actual.Some? && actual.value == value;
  }

  /** Both limits and query_only on a new connection. */
  method Restrict(conn: NativeConn, limits: Limits) returns (ok: bool)
    modifies conn`lengthLimit, conn`columnLimit, conn`queryOnly, conn.env
    ensures ok ==> conn.queryOnly && conn.columnLimit == limits.maxColumns && conn.lengthLimit == limits.maxBytes
    ensures old(conn.env.asked) <= conn.env.asked && (conn.env.CalmSince(old(conn.env.asked)) ==> ok)
  {
    ghost var from := conn.env.asked;
    ok := SetAndVerify(conn, Length, limits.maxBytes);
    if !ok { return; }
    ghost var m1 := conn.env.asked;
    ok := SetAndVerify(conn, ColumnCount, limits.maxColumns);
    if !ok { return; }
    ghost var m2 := conn.env.asked;
    ok := conn.SetQueryOnly();
    if !ok { return; }
    var queryOnly := conn.GetQueryOnly();
    return queryOnly.Some? && queryOnly.value;
  }

  /** Database, connection, both limits, query_only, transaction, in that order. */
  method Connect(owned: Span, limits: Limits) returns (ok: bool)
    requires !owned.closed && owned.Owned() == {} && Wired(owned)
    modifies owned`db, owned`conn, owned`tx, owned.driver`dbs, owned.driver`conns, owned.driver`txs, owned.env
    ensures fresh(owned.Owned()) && owned.GivenBack(0) && Wired(owned)
    ensures owned.HoldsAll(old(owned.driver.dbs), old(owned.driver.conns), old(owned.driver.txs))
    ensures ok ==> Established(owned, limits, limits.maxBytes)
    ensures old(owned.env.asked) <= owned.env.asked && (owned.env.CalmSince(old(owned.env.asked)) ==> ok)
  {
    ghost var env, from := owned.env, owned.env.asked;
    var went := owned.env.Ask();
    if !went { return false; }
    owned.db := new Db(owned.driver);
    went := owned.env.Ask();
    if !went { return false; }
    var conn := new NativeConn(owned.driver);
    owned.conn := conn;
    ok := Restrict(conn, limits);
    if !ok { return; }
    ghost var mid := env.asked;
    went := owned.env.Ask();
    if !went { return false; }
    owned.tx := new NativeTx(owned.driver);
    return true;
  }

  predicate WithinBudget(file: File, limits: Limits) { limits.maxBytes >= 8 * |file.columns| }

  /** The last steps on an inspected file: the cell bound, the session, and a look at the lifetime. */
  method Complete(owned: Span, file: File, filename: string, table: string, limits: Limits, columns: seq<string>)
    returns (ok: bool)
    requires Established(owned, limits, limits.maxBytes) && Wired(owned) && owned.env !in owned.Owned()
    requires columns == ColumnNames(file.columns) && columns != []
    modifies owned.conn`lengthLimit, owned.conn`columnLimit, owned`facts, owned`hasSession, owned.env
    ensures owned.GivenBack(0)
    ensures ok ==>
              && WithinBudget(file, limits) && owned.facts == FactsOf(file, filename, table, limits)
              && Established(owned, limits, owned.facts.maxCellBytes) && owned.hasSession
    ensures old(owned.env.asked) <= owned.env.asked
    ensures owned.env.CalmSince(old(owned.env.asked)) ==> (ok <==> WithinBudget(file, limits))
  {
    ghost var env, from := owned.env, owned.env.asked;
    var n := |columns|;
    CellBudget(limits.maxBytes, n);
    var cellBytes := limits.maxBytes / n;
    if cellBytes < 8 { return false; }
    ok := SetAndVerify(owned.conn, Length, cellBytes);
    if !ok { return false; }
    ghost var mid := env.asked;
    owned.facts := Facts(filename, table, columns, limits.maxBytes, limits.maxColumns, cellBytes);
    ok := NewReadSession(owned, limits, cellBytes);
    if !ok { return false; }
    owned.hasSession := true;
    ok := owned.env.Ask();
  }

  /** Everything between taking the lifetime context and handing the span over. */
  method Establish(owned: Span, file: File, filename: string, table: string, limits: Limits) returns (ok: bool)
    requires !owned.closed && owned.Owned() == {} && Wired(owned)
    modifies owned`db, owned`conn, owned`tx, owned`facts, owned`hasSession
    modifies owned.driver`dbs, owned.driver`conns, owned.driver`txs, owned.env
    ensures fresh(owned.Owned()) && owned.GivenBack(0)
    ensures owned.HoldsAll(old(owned.driver.dbs), old(owned.driver.conns), old(owned.driver.txs))
    ensures ok ==>
              && Admissible(file, filename, table, limits) && WithinBudget(file, limits)
              && owned.facts == FactsOf(file, filename, table, limits)
              && Established(owned, limits, owned.facts.maxCellBytes) && owned.hasSession
    ensures old(owned.env.asked) <= owned.env.asked
    ensures owned.env.CalmSince(old(owned.env.asked)) ==>
              (ok <==> Admissible(file, filename, table, limits) && WithinBudget(file, limits))
  {
    ghost var env, from := owned.env, owned.env.asked;
    ok := Connect(owned, limits);
    if !ok { return false; }
    ghost var m1 := env.asked;
    var columns := InspectTableRead(owned.tx, file, filename, table, limits);
    if columns.None? { return false; }
    ghost var m2 := env.asked;
    ok := Complete(owned, file, filename, table, limits, columns.value);
  }

  /** Everything the driver handed out since its ledger read so has been given back exactly once,
      and every span begun since is closed and cancelled. */
  ghost predicate AllGivenBack(driver: Driver, dbs: set<Db>, conns: set<NativeConn>, txs: set<NativeTx>,
                               spans: set<Span>)
    reads driver, driver.dbs, driver.conns, driver.txs, driver.spans
  {
    && (forall s | s in driver.spans - spans :: s.closed && s.cancelled)
    && (forall d | d in driver.dbs - dbs :: d.closes == 1)
    && (forall c | c in driver.conns - conns :: c.closes == 1)
    && (forall t | t in driver.txs - txs :: t.rollbacks == 1)
  }

  /** The cell bound of a file within the budget is the largest that fits. */
  lemma FactsFit(file: File, filename: string, table: string, limits: Limits)
    requires file.columns != [] && WithinBudget(file, limits)
    ensures var n, cell := |file.columns|, FactsOf(file, filename, table, limits).maxCellBytes;
            cell >= 8 && n * cell <= limits.maxBytes < n * (cell + 1)
  {
    CellBudget(limits.maxBytes, |file.columns|);
  }

  /** What holds everything handed out since then, and gave each back once, gave it all back. */
  lemma HoldsAndGaveBack(span: Span, dbs: set<Db>, conns: set<NativeConn>, txs: set<NativeTx>, spans: set<Span>)
    requires span.HoldsAll(dbs, conns, txs) && span.GivenBack(1)
    requires span.closed && span.cancelled && span.driver.spans == spans + {span}
    ensures AllGivenBack(span.driver, dbs, conns, txs, spans)
  {
  }

  /** The span is the only one begun since, and owns everything handed out since. */
  ghost predicate HandedOver(span: Span, driver: Driver, dbs: set<Db>, conns: set<NativeConn>, txs: set<NativeTx>,
                             spans: set<Span>)
    reads span, span.driver, driver
  {
    span.driver == driver && driver.spans == spans + {span} && span.HoldsAll(dbs, conns, txs)
  }

  /** The facts name the file and the table, its columns in order, each a plain name and no two the
      same, at least one and no more than allowed, and the limits asked for. */
  predicate FactsTell(f: Facts, file: File, filename: string, table: string, limits: Limits) {
    && f.filename == filename && f.table == table && f.maxBytes == limits.maxBytes && f.maxColumns == limits.maxColumns
    && 0 < |f.columns| == |file.columns| <= limits.maxColumns
    && (forall i | 0 <= i < |f.columns| :: f.columns[i] == file.columns[i].name && PlainName(f.columns[i]))
    && forall i, j | 0 <= i < j < |f.columns| :: f.columns[i] != f.columns[j]
  }

  lemma FactsAreTold(file: File, filename: string, table: string, limits: Limits)
    requires Admissible(file, filename, table, limits)
    ensures FactsTell(FactsOf(file, filename, table, limits), file, filename, table, limits)
  {
    var f := FactsOf(file, filename, table, limits);
    forall i | 0 <= i < |f.columns| ensures f.columns[i] == file.columns[i].name && PlainName(f.columns[i]) {
      assert PlainColumn(file.columns, i);
    }
    forall i, j | 0 <= i < j < |f.columns| ensures f.columns[i] != f.columns[j] { assert PlainColumn(file.columns, j); }
  }

  /** What a span handed over promises: it is established, not cancelled, and bounds the cells so
      that a row stays within the budget. */
  ghost predicate Ready(span: Span, file: File, filename: string, table: string, limits: Limits)
    reads span, span.Owned()
  {
    && Admissible(file, filename, table, limits)
    && Established(span, limits, span.facts.maxCellBytes) && !span.cancelled && span.hasSession
    && FactsTell(span.facts, file, filename, table, limits)
    && span.facts.maxCellBytes >= 8
    && |file.columns| * span.facts.maxCellBytes <= limits.maxBytes
    && limits.maxBytes < |file.columns| * (span.facts.maxCellBytes + 1)
  }

  /** The span begun and established, or closed again. */
  method Begin(driver: Driver, file: File, filename: string, table: string, limits: Limits) returns (span: Span?)
    modifies driver, driver.env
    ensures span != null ==> fresh(span) && fresh(span.Owned()) && Ready(span, file, filename, table, limits)
    ensures old(driver.dbs) <= driver.dbs && old(driver.conns) <= driver.conns && old(driver.txs) <= driver.txs
            && old(driver.spans) <= driver.spans
    ensures span != null ==>
              HandedOver(span, driver, old(driver.dbs), old(driver.conns), old(driver.txs), old(driver.spans))
    ensures span == null ==>
              AllGivenBack(driver, old(driver.dbs), old(driver.conns), old(driver.txs), old(driver.spans))
    ensures old(driver.env.asked) <= driver.env.asked
    ensures driver.env.CalmSince(old(driver.env.asked)) ==>
              (span != null <==> Admissible(file, filename, table, limits) && WithinBudget(file, limits))
  {
    var owned := new Span(driver);
    var ok := Establish(owned, file, filename, table, limits);
    ghost var mid := driver.env.asked;
    if !ok {
      var failures := owned.Close();
      HoldsAndGaveBack(owned, old(driver.dbs), old(driver.conns), old(driver.txs), old(driver.spans));
      return null;
    }
    FactsFit(file, filename, table, limits);
    FactsAreTold(file, filename, table, limits);
    return owned;
  }

  /** openTableRead. On success the caller owns the span, fully established, and the span owns
      every resource taken; on failure nothing is returned, every resource taken on the way has
      been given back exactly once, and every span begun is closed and cancelled. When every call
      goes well it succeeds exactly for a valid request, an admissible file and a budget of eight
      bytes a column. */
  method OpenTableRead(driver: Driver, cleanPath: bool, file: File, filename: string, namespace: string, table: string,
                       limits: Limits)
    returns (span: Span?)
    modifies driver, driver.env
    ensures span != null ==>
              && ValidRequest(cleanPath, namespace, table, limits)
              && fresh(span) && fresh(span.Owned()) && Ready(span, file, filename, table, limits)
    ensures old(driver.dbs) <= driver.dbs && old(driver.conns) <= driver.conns && old(driver.txs) <= driver.txs
            && old(driver.spans) <= driver.spans
    ensures span != null ==>
              HandedOver(span, driver, old(driver.dbs), old(driver.conns), old(driver.txs), old(driver.spans))
    ensures span == null ==>
              AllGivenBack(driver, old(driver.dbs), old(driver.conns), old(driver.txs), old(driver.spans))
    ensures old(driver.env.asked) <= driver.env.asked
    ensures driver.env.CalmSince(old(driver.env.asked)) ==>
              (span != null <==> ValidRequest(cleanPath, namespace, table, limits)
                                 && Admissible(file, filename, table, limits) && WithinBudget(file, limits))
  {
    if !cleanPath || namespace != "main" || !PlainName(table) || "sqlite_" <= Fold(table)
       || limits.maxBytes == 0 || limits.maxBytes > 256 * 1024 || limits.maxColumns == 0 || limits.maxColumns > 128 {
      return null;
    }
    ghost var from := driver.env.asked;
    var alive := driver.env.Ask();
    if !alive { return null; }
    span := Begin(driver, file, filename, table, limits);
  }
}
