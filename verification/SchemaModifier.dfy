/** The DDL engine: collections created, dropped and altered by running generated SQL inside
    one transaction, with the sidecar of Time markers kept beside the tables. */
module SchemaModifier {
  import opened Text
  import opened DbSchema
  import opened SqlText
  import opened TypeMapping
  import opened SqlGen
  import opened KeyOrder
  import opened Catalog
  import opened Environment
  import SqlParser

  // ---- What each operation means on the catalog ----

  /** The statements in order; None when one of them fails. */
  function Statements(e: Storage, cat: Catalog, sts: seq<Statement>): Option<Catalog> {
    if sts == [] then Some(cat)
    else match Statements(e, cat, sts[..|sts| - 1])
      case None => None
      case Some(c) => Emitted(e, c, sts[|sts| - 1])
  }

  function Defaulted(idx: IndexDef, table: string): IndexDef {
    if idx.collection == "" then idx.(collection := table) else idx
  }

  predicate IndexesBuild(c: CollectionDef, o: Options) {
    forall i | 0 <= i < |c.indexes| :: CreateIndexStatement(Defaulted(c.indexes[i], c.name), o).Some?
  }

  function IndexStatements(c: CollectionDef, o: Options): (r: seq<Statement>)
    requires IndexesBuild(c, o)
    ensures |r| == |c.indexes|
  {
    seq(|c.indexes|, i requires 0 <= i < |c.indexes| => CreateIndexStatement(Defaulted(c.indexes[i], c.name), o).value)
  }

  function TimeColumns(fields: seq<FieldDef>): seq<string> {
    if fields == [] then []
    else TimeColumns(fields[..|fields| - 1])
         + (if fields[|fields| - 1].typ == Time then [fields[|fields| - 1].name] else [])
  }

  function MarkersFor(t: string, cols: seq<string>): set<(string, string)> {
    set c | c in cols :: (t, c)
  }

  function WithMarkers(cat: Catalog, t: string, cols: seq<string>): Catalog {
    if cols == [] then cat else cat.(sidecar := true, markers := cat.markers + MarkersFor(t, cols))
  }

  /** A marker statement whose error is ignored. */
  function BestEffort(cat: Catalog, st: MarkerStatement): Catalog {
    match MarkerStep(cat, st) case None => cat case Some(c) => c
  }

  function CreateStatements(c: CollectionDef, o: Options): seq<Statement>
    requires CreateTableStatement(c, o).Some? && IndexesBuild(c, o)
  {
    [CreateTableStatement(c, o).value] + IndexStatements(c, o)
  }

  function Marked(cat: Option<Catalog>, t: string, cols: seq<string>): Option<Catalog> {
    match cat case None => None case Some(c) => Some(WithMarkers(c, t, cols))
  }

  /** The table, its indexes, then the markers of its Time fields. */
  function CreateMeaning(e: Storage, cat: Catalog, c: CollectionDef, o: Options): Option<Catalog> {
    if CreateTableStatement(c, o).None? || !IndexesBuild(c, o) then None
    else Marked(Statements(e, cat, CreateStatements(c, o)), c.name, TimeColumns(c.fields))
  }

  /** A column as the rewrite reads it back. */
  function FieldRead(c: Column): FieldDef {
    var r := DbschemaTypeFromSQLite(c.decl);
    FieldDef(c.name, if r.ok then r.typ else String, r.precision, !c.notNull && c.pk == 0, false)
  }

  function FieldsRead(cols: seq<Column>): (r: seq<FieldDef>)
    ensures |r| == |cols|
  {
    seq(|cols|, i requires 0 <= i < |cols| => FieldRead(cols[i]))
  }

  function RewrittenField(c: Column, name: string, newDef: FieldDef): FieldDef {
    if c.name == name then newDef.(name := name) else FieldRead(c)
  }

  function RewrittenFields(seen: seq<Column>, name: string, newDef: FieldDef): (r: seq<FieldDef>)
    ensures |r| == |seen|
  {
    seq(|seen|, i requires 0 <= i < |seen| => RewrittenField(seen[i], name, newDef))
  }

  /** The definition the rewrite creates from the columns it saw. */
  function Rewritten(table: string, name: string, newDef: FieldDef, seen: seq<Column>): CollectionDef {
    CollectionDef(table + "_new", RewrittenFields(seen, name, newDef), KeyOf(seen), [])
  }

  function NamesOf(cols: seq<Column>): (r: seq<string>)
    ensures |r| == |cols|
  {
    seq(|cols|, i requires 0 <= i < |cols| => cols[i].name)
  }

  /** Create, copy, drop, rename. */
  function RewriteStatements(table: string, create: Statement, names: seq<string>): seq<Statement> {
    [create, CopyRows(table + "_new", names, names, table), DropTable(false, table), RenameTable(table + "_new", table)]
  }

  predicate Sees(seen: seq<Column>, name: string) {
    exists i | 0 <= i < |seen| :: seen[i].name == name
  }

  /** The rewrite of one column, given the columns its introspection delivered. */
  function RewriteSeeing(e: Storage, cat: Catalog, table: string, name: string, newDef: FieldDef,
                         seen: seq<Column>): Option<Catalog> {
    if !Sees(seen, name) then None
    else match CreateTableStatement(Rewritten(table, name, newDef, seen), NO_OPTIONS)
      case None => None
      case Some(st) => Statements(e, cat, RewriteStatements(table, st, NamesOf(seen)))
  }

  /** How far an operation that succeeded was carried out: whole; without its marker statement,
      whose refusal is ignored; or, for a rewrite, on the first `seen` columns alone, its
      introspection having ended early without an error. */
  datatype Choice = Whole | MarkerSkipped | CutTo(seen: nat)

  predicate AllWhole(choices: seq<Choice>) { forall i | 0 <= i < |choices| :: choices[i] == Whole }

  /** A marker statement whose error is ignored, unless it was refused and skipped. */
  function AfterMarker(cat: Catalog, st: MarkerStatement, choice: Choice): Catalog {
    if choice == MarkerSkipped then cat else BestEffort(cat, st)
  }

  function ThenIgnored(cat: Option<Catalog>, st: MarkerStatement, choice: Choice): Option<Catalog> {
    match cat case None => None case Some(c) => Some(AfterMarker(c, st, choice))
  }

  /** A drop with its cleanup of markers, or without it when the cleanup was refused. */
  function DropChosen(e: Storage, cat: Catalog, name: string, o: Options, choice: Choice): Option<Catalog> {
    ThenIgnored(Emitted(e, cat, DropTable(o.ifExists, name)), DeleteMarkers(name), choice)
  }

  function DropMeaning(e: Storage, cat: Catalog, name: string, o: Options): Option<Catalog> {
    DropChosen(e, cat, name, o, Whole)
  }

  function AddFieldMeaning(e: Storage, cat: Catalog, table: string, f: FieldDef): Option<Catalog> {
    match AddColumnStatement(table, f)
    case None => None
    case Some(st) => Marked(Emitted(e, cat, st), table, if f.typ == Time then [f.name] else [])
  }

  function DropFieldMeaning(e: Storage, cat: Catalog, table: string, n: string, choice: Choice): Option<Catalog> {
    ThenIgnored(Emitted(e, cat, SqlText.DropColumn(table, n)), DeleteMarker(table, n), choice)
  }

  function RenameFieldMeaning(e: Storage, cat: Catalog, table: string, o: string, n: string,
                              choice: Choice): Option<Catalog> {
    ThenIgnored(Emitted(e, cat, SqlText.RenameColumn(table, o, n)), UpdateMarker(table, o, n), choice)
  }

  function AddIndexMeaning(e: Storage, cat: Catalog, table: string, idx: IndexDef, opts: Options): Option<Catalog> {
    match CreateIndexStatement(Defaulted(idx, table), opts)
    case None => None
    case Some(st) => Emitted(e, cat, st)
  }

  /** The columns an introspection delivers: the whole table, or its first columns. */
  function Delivered(cat: Catalog, table: string, choice: Choice): seq<Column> {
    var cols := TableInfo(cat, table);
    if choice.CutTo? && choice.seen <= |cols| then cols[..choice.seen] else cols
  }

  /** What an operation does when carried out so far. */
  function OpChosen(e: Storage, cat: Catalog, table: string, op: AlterOp, choice: Choice): Option<Catalog> {
    match op
    case AddField(f) => AddFieldMeaning(e, cat, table, f)
    case DropField(n) => DropFieldMeaning(e, cat, table, n, choice)
    case RenameField(o, n) => RenameFieldMeaning(e, cat, table, o, n, choice)
    case AddIndex(idx, opts) => AddIndexMeaning(e, cat, table, idx, opts)
    case RemoveIndex(n, opts) => Emitted(e, cat, SqlText.DropIndex(opts.ifExists, n))
    case ModifyField(n, newDef) => RewriteSeeing(e, cat, table, n, newDef, Delivered(cat, table, choice))
  }

  function OpMeaning(e: Storage, cat: Catalog, table: string, op: AlterOp): Option<Catalog> {
    OpChosen(e, cat, table, op, Whole)
  }

  /** The operations in order, each carried out as chosen; None when one of them fails. */
  function AlterChosen(e: Storage, cat: Catalog, table: string, ops: seq<AlterOp>,
                       choices: seq<Choice>): Option<Catalog>
    requires |choices| == |ops|
  {
    if ops == [] then Some(cat)
    else
      var n := |ops| - 1;
      match AlterChosen(e, cat, table, ops[..n], choices[..n])
      case None => None
      case Some(c) => OpChosen(e, c, table, ops[n], choices[n])
  }

  /** The operations in order; None when one of them fails. */
  function AlterMeaning(e: Storage, cat: Catalog, table: string, ops: seq<AlterOp>): Option<Catalog> {
    if ops == [] then Some(cat)
    else match AlterMeaning(e, cat, table, ops[..|ops| - 1])
      case None => None
      case Some(c) => OpMeaning(e, c, table, ops[|ops| - 1])
  }

  /** Carried out whole, the operations do what they mean. */
  lemma {:induction false} WholeIsMeant(e: Storage, cat: Catalog, table: string, ops: seq<AlterOp>,
                                        choices: seq<Choice>)
    requires |choices| == |ops| && AllWhole(choices)
    ensures AlterChosen(e, cat, table, ops, choices) == AlterMeaning(e, cat, table, ops)
    decreases |ops|
  {
    if ops != [] {
      var n := |ops| - 1;
      WholeIsMeant(e, cat, table, ops[..n], choices[..n]);
      assert choices[n] == Whole;
    }
  }

  lemma {:induction false} FailedPrefixFails(e: Storage, cat: Catalog, table: string, ops: seq<AlterOp>, k: nat)
    requires k <= |ops| && AlterMeaning(e, cat, table, ops[..k]).None?
    ensures AlterMeaning(e, cat, table, ops).None?
    decreases |ops| - k
  {
    if k == |ops| {
      assert ops[..k] == ops;
    } else {
      assert ops[..k + 1][..k] == ops[..k];
      FailedPrefixFails(e, cat, table, ops, k + 1);
    }
  }

  lemma {:induction false} FailedStatementsFail(e: Storage, cat: Catalog, sts: seq<Statement>, k: nat)
    requires k <= |sts| && Statements(e, cat, sts[..k]).None?
    ensures Statements(e, cat, sts).None?
    decreases |sts| - k
  {
    if k == |sts| {
      assert sts[..k] == sts;
    } else {
      assert sts[..k + 1][..k] == sts[..k];
      FailedStatementsFail(e, cat, sts, k + 1);
    }
  }

  // ---- Transactions ----

  class Tx {
    const e: Storage
    const env: Env
    var cat: Catalog

    constructor (e: Storage, env: Env, cat: Catalog)
      ensures this.e == e && this.env == env && this.cat == cat
    {
      this.e, this.env, this.cat := e, env, cat;
    }

    /** tx.ExecContext: the environment may refuse; otherwise SQLite runs the text. */
    method Exec(sql: string) returns (ok: bool)
      modifies this, env
      ensures env.asked == old(env.asked) + 1
      ensures ok <==> env.Granted(old(env.asked)) && RunText(e, old(cat), sql).Some?
      ensures if ok then RunText(e, old(cat), sql) == Some(cat) else cat == old(cat)
    {
      var granted := env.Ask();
      if !granted { return false; }
      match RunText(e, cat, sql)
      case None => return false;
      case Some(c) => cat := c; return true;
    }

    method ExecMarker(st: MarkerStatement) returns (ok: bool)
      modifies this, env
      ensures env.asked == old(env.asked) + 1
      ensures ok <==> env.Granted(old(env.asked)) && MarkerStep(old(cat), st).Some?
      ensures if ok then MarkerStep(old(cat), st) == Some(cat) else cat == old(cat)
    {
      var granted := env.Ask();
      if !granted { return false; }
      match MarkerStep(cat, st)
      case None => return false;
      case Some(c) => cat := c; return true;
    }

    /** The same with the error ignored: done as far as it can be, or refused and skipped. */
    method ExecIgnored(st: MarkerStatement) returns (ghost choice: Choice)
      modifies this, env
      ensures env.asked == old(env.asked) + 1
      ensures choice == if env.Granted(old(env.asked)) then Whole else MarkerSkipped
      ensures cat == AfterMarker(old(cat), st, choice)
    {
      choice := if env.Granted(env.asked) then Whole else MarkerSkipped;
      var ok := ExecMarker(st);
    }

    /** pragma_table_info through the transaction. When the environment does not go along it is
        an error, or rows that end early. */
    method QueryTableInfo(name: string) returns (ok: bool, rows: seq<Column>)
      modifies env
      ensures env.asked == old(env.asked) + 1
      ensures ok ==> rows <= TableInfo(cat, name)
      ensures env.Granted(old(env.asked)) ==> ok && rows == TableInfo(cat, name)
    {
      var granted := env.Ask();
      rows := TableInfo(cat, name);
      if granted { return true, rows; }
      var ended: int := *;
      if 0 <= ended < |rows| { return true, rows[..ended]; }
      return false, [];
    }
  }

  /** Executing the text of a statement runs the statement. */
  method ExecStatement(tx: Tx, text: string, ghost st: Statement) returns (ok: bool)
    requires SqlParser.Emittable(st) && text == StatementText(st)
    modifies tx, tx.env
    ensures tx.env.asked == old(tx.env.asked) + 1
    ensures ok <==> tx.env.Granted(old(tx.env.asked)) && Emitted(tx.e, old(tx.cat), st).Some?
    ensures if ok then Emitted(tx.e, old(tx.cat), st) == Some(tx.cat) else tx.cat == old(tx.cat)
  {
    TextRunsStatement(tx.e, tx.cat, st);
    ok := tx.Exec(text);
  }

  lemma StatementsStep(e: Storage, cat: Catalog, sts: seq<Statement>, k: nat)
    requires k < |sts|
    ensures Statements(e, cat, sts[..k + 1])
            == match Statements(e, cat, sts[..k]) case None => None case Some(c) => Emitted(e, c, sts[k])
  {
    assert sts[..k + 1][..k] == sts[..k];
  }

  lemma TimeColumnsStep(fields: seq<FieldDef>, k: nat)
    requires k < |fields|
    ensures TimeColumns(fields[..k + 1])
            == TimeColumns(fields[..k]) + (if fields[k].typ == Time then [fields[k].name] else [])
  {
    assert fields[..k + 1][..k] == fields[..k];
  }

  method TimeColumnsOf(c: CollectionDef) returns (out: seq<string>)
    ensures out == TimeColumns(c.fields)
  {
    out := [];
    var i := 0;
    while i < |c.fields|
      invariant 0 <= i <= |c.fields| && out == TimeColumns(c.fields[..i])
    {
      TimeColumnsStep(c.fields, i);
      if c.fields[i].typ == Time {
        out := out + [c.fields[i].name];
      }
      i := i + 1;
    }
    assert c.fields[..i] == c.fields;
  }

  lemma FailedAt(e: Storage, cat: Catalog, sts: seq<Statement>, k: nat)
    ensures k < |sts| && Statements(e, cat, sts[..k + 1]).None? ==> Statements(e, cat, sts).None?
  {
    if k < |sts| && Statements(e, cat, sts[..k + 1]).None? { FailedStatementsFail(e, cat, sts, k + 1); }
  }

  predicate Texts(texts: seq<string>, sts: seq<Statement>) {
    |texts| == |sts| && forall i | 0 <= i < |sts| :: SqlParser.Emittable(sts[i]) && texts[i] == StatementText(sts[i])
  }

  /** Executes the texts in order, stopping at the first error. */
  method ExecAll(tx: Tx, texts: seq<string>, ghost sts: seq<Statement>) returns (ok: bool)
    requires Texts(texts, sts)
    modifies tx, tx.env
    ensures old(tx.env.asked) <= tx.env.asked
    ensures ok <==> tx.env.CalmSince(old(tx.env.asked)) && Statements(tx.e, old(tx.cat), sts).Some?
    ensures ok ==> Statements(tx.e, old(tx.cat), sts) == Some(tx.cat)
  {
    var i := 0;
    ghost var cat0, from := tx.cat, tx.env.asked;
    while i < |texts|
      invariant 0 <= i <= |texts| && from <= tx.env.asked && tx.env.CalmSince(from)
      invariant Statements(tx.e, cat0, sts[..i]) == Some(tx.cat)
    {
      StatementsStep(tx.e, cat0, sts, i);
      tx.env.Split(from, tx.env.asked, tx.env.asked + 1);
      tx.env.One(tx.env.asked);
      ok := ExecStatement(tx, texts[i], sts[i]);
      if !ok {
        FailedAt(tx.e, cat0, sts, i);
        return false;
      }
      i := i + 1;
    }
    assert sts[..i] == sts;
    return true;
  }

  /** ensureTimeMarkerTable, then one marker for each column. */
  method InsertMarkers(tx: Tx, name: string, columns: seq<string>) returns (ok: bool)
    requires columns != []
    modifies tx, tx.env
    ensures old(tx.env.asked) <= tx.env.asked
    ensures ok <==> tx.env.CalmSince(old(tx.env.asked))
    ensures ok ==> tx.cat == WithMarkers(old(tx.cat), name, columns)
  {
    ghost var from := tx.env.asked;
    ok := tx.ExecMarker(EnsureSidecar);
    if !ok { return false; }
    ghost var c2 := tx.cat;
    var i := 0;
    while i < |columns|
      invariant 0 <= i <= |columns| && from < tx.env.asked && tx.env.CalmSince(from)
      invariant tx.cat == c2.(markers := c2.markers + MarkersFor(name, columns[..i]))
    {
      ok := tx.ExecMarker(InsertMarker(name, columns[i]));
      if !ok { return false; }
      MarkersForStep(name, columns, i);
      i := i + 1;
    }
    assert columns[..i] == columns;
    return true;
  }

  lemma MarkersForStep(t: string, columns: seq<string>, i: nat)
    requires i < |columns|
    ensures MarkersFor(t, columns[..i + 1]) == MarkersFor(t, columns[..i]) + {(t, columns[i])}
  {
    assert columns[..i + 1] == columns[..i] + [columns[i]];
  }

  /** A statement, then a marker statement whose error is ignored. */
  method ExecThenIgnored(tx: Tx, text: string, ghost st: Statement, marker: MarkerStatement)
    returns (ok: bool, ghost choice: Choice)
    requires SqlParser.Emittable(st) && text == StatementText(st)
    modifies tx, tx.env
    ensures old(tx.env.asked) <= tx.env.asked && choice in {Whole, MarkerSkipped}
    ensures tx.env.CalmSince(old(tx.env.asked)) ==> choice == Whole && (ok <==> Emitted(tx.e, old(tx.cat), st).Some?)
    ensures ok ==> ThenIgnored(Emitted(tx.e, old(tx.cat), st), marker, choice) == Some(tx.cat)
  {
    ghost var k := tx.env.asked;
    tx.env.One(k);
    tx.env.One(k + 1);
    tx.env.Split(k, k + 1, k + 2);
    ok := ExecStatement(tx, text, st);
    if !ok { return false, Whole; }
    choice := tx.ExecIgnored(marker);
  }

  // ---- The steps of AlterCollection ----

  class SqliteAlterApplier {
    const tx: Tx
    const table: string

    constructor (tx: Tx, table: string)
      ensures this.tx == tx && this.table == table
    {
      this.tx, this.table := tx, table;
    }

    method ApplyAddField(f: FieldDef) returns (ok: bool)
      modifies tx, tx.env
      ensures old(tx.env.asked) <= tx.env.asked
      ensures ok <==> tx.env.CalmSince(old(tx.env.asked)) && AddFieldMeaning(tx.e, old(tx.cat), table, f).Some?
      ensures ok ==> AddFieldMeaning(tx.e, old(tx.cat), table, f) == Some(tx.cat)
    {
      ghost var k := tx.env.asked;
      if SqliteTypeFor(f.typ).Some? { EmittedIsWord(f.typ); }
      var sqlStmt := BuildAlterTableAddColumnSQL(table, f);
      if sqlStmt.None? { return false; }
      tx.env.One(k);
      ok := ExecStatement(tx, sqlStmt.value, AddColumnStatement(table, f).value);
      if !ok { return false; }
      if f.typ == Time {
        ok := InsertMarkers(tx, table, [f.name]);
        tx.env.Split(k, k + 1, tx.env.asked);
        if !ok { return false; }
      }
      return true;
    }

    /** A refused cleanup of the marker is ignored, and the column then dropped without it. */
    method ApplyDropField(name: string) returns (ok: bool, ghost choice: Choice)
      modifies tx, tx.env
      ensures old(tx.env.asked) <= tx.env.asked && choice in {Whole, MarkerSkipped}
      ensures tx.env.CalmSince(old(tx.env.asked)) ==>
                choice == Whole && (ok <==> DropFieldMeaning(tx.e, old(tx.cat), table, name, Whole).Some?)
      ensures ok ==> DropFieldMeaning(tx.e, old(tx.cat), table, name, choice) == Some(tx.cat)
    {
      var sqlStmt := BuildAlterTableDropColumnSQL(table, name);
      DropColumnText(table, name);
      ok, choice := ExecThenIgnored(tx, sqlStmt, SqlText.DropColumn(table, name), DeleteMarker(table, name));
    }

    /** A refused move of the marker is ignored, and the column then renamed without it. */
    method ApplyRenameField(oldName: string, newName: string) returns (ok: bool, ghost choice: Choice)
      modifies tx, tx.env
      ensures old(tx.env.asked) <= tx.env.asked && choice in {Whole, MarkerSkipped}
      ensures tx.env.CalmSince(old(tx.env.asked)) ==>
                choice == Whole && (ok <==> RenameFieldMeaning(tx.e, old(tx.cat), table, oldName, newName, Whole).Some?)
      ensures ok ==> RenameFieldMeaning(tx.e, old(tx.cat), table, oldName, newName, choice) == Some(tx.cat)
    {
      var sqlStmt := BuildAlterTableRenameColumnSQL(table, oldName, newName);
      RenameColumnText(table, oldName, newName);
      ok, choice := ExecThenIgnored(tx, sqlStmt, SqlText.RenameColumn(table, oldName, newName),
                                    UpdateMarker(table, oldName, newName));
    }

    method ApplyAddIndex(index: IndexDef, opts: Options) returns (ok: bool)
      modifies tx, tx.env
      ensures old(tx.env.asked) <= tx.env.asked
      ensures ok <==>
                tx.env.CalmSince(old(tx.env.asked))
                && AddIndexMeaning(tx.e, old(tx.cat), table, index, opts).Some?
      ensures ok ==> AddIndexMeaning(tx.e, old(tx.cat), table, index, opts) == Some(tx.cat)
    {
      ghost var k := tx.env.asked;
      var idx := index;
      if idx.collection == "" {
        idx := idx.(collection := table);
      }
      var sqlStmt := BuildCreateIndexSQL(idx, opts);
      if sqlStmt.None? { return false; }
      ok := ExecStatement(tx, sqlStmt.value, CreateIndexStatement(idx, opts).value);
    }

    method ApplyDropIndex(name: string, opts: Options) returns (ok: bool)
      modifies tx, tx.env
      ensures old(tx.env.asked) <= tx.env.asked
      ensures ok <==>
                tx.env.CalmSince(old(tx.env.asked))
                && Emitted(tx.e, old(tx.cat), SqlText.DropIndex(opts.ifExists, name)).Some?
      ensures ok ==> Emitted(tx.e, old(tx.cat), SqlText.DropIndex(opts.ifExists, name)) == Some(tx.cat)
    {
      var sqlStmt := BuildDropIndexSQL(name, opts);
      DropText(name, opts);
      ghost var k := tx.env.asked;
      ok := ExecStatement(tx, sqlStmt, SqlText.DropIndex(opts.ifExists, name));
    }

    /** Create, copy, drop and rename, made from the columns seen. */
    method RewriteTable(name: string, newDef: FieldDef, current: CollectionDef, ghost seen: seq<Column>)
      returns (ok: bool)
      requires current.fields == FieldsRead(seen) && current.primaryKey == KeyOf(seen)
      modifies tx, tx.env
      ensures old(tx.env.asked) <= tx.env.asked
      ensures ok <==>
                tx.env.CalmSince(old(tx.env.asked))
                && RewriteSeeing(tx.e, old(tx.cat), table, name, newDef, seen).Some?
      ensures ok ==> RewriteSeeing(tx.e, old(tx.cat), table, name, newDef, seen) == Some(tx.cat)
    {
      var found, fields := ModifiedFields(current, name, newDef, seen);
      if !found { return false; }
      var modified := CollectionDef(table + "_new", fields, current.primaryKey, []);
      assert modified == Rewritten(table, name, newDef, seen);
      var texts := RewriteSQL(table, modified, name, newDef, seen);
      if texts.None? { return false; }
      ghost var sts := RewriteStatements(table, CreateTableStatement(modified, NO_OPTIONS).value, NamesOf(seen));
      ok := ExecAll(tx, texts.value, sts);
    }

    /** The rewrite: whatever columns the introspection delivered, a success has run the four
        statements made from exactly those columns. */
    method ApplyModifyField(name: string, newDef: FieldDef) returns (ok: bool, ghost choice: Choice)
      modifies tx, tx.env
      ensures old(tx.env.asked) <= tx.env.asked && !choice.MarkerSkipped?
      ensures tx.env.CalmSince(old(tx.env.asked)) ==>
                choice == Whole
                && (ok <==> RewriteSeeing(tx.e, old(tx.cat), table, name, newDef, TableInfo(old(tx.cat), table)).Some?)
      ensures ok ==>
                var seen := Delivered(old(tx.cat), table, choice);
                RewriteSeeing(tx.e, old(tx.cat), table, name, newDef, seen) == Some(tx.cat)
    {
      ghost var cat0, k := tx.cat, tx.env.asked;
      var read, current, seen := ReadCollectionDefViaTx(tx, table);
      choice := if seen == TableInfo(cat0, table) then Whole else CutTo(|seen|);
      if !read { return false, Whole; }
      assert seen == Delivered(cat0, table, choice);
      ok := RewriteTable(name, newDef, current, seen);
    }

    /** The Applier side of an operation. */
    method Apply(op: AlterOp) returns (ok: bool, ghost choice: Choice)
      modifies tx, tx.env
      ensures old(tx.env.asked) <= tx.env.asked
      ensures tx.env.CalmSince(old(tx.env.asked)) ==>
                choice == Whole && (ok <==> OpMeaning(tx.e, old(tx.cat), table, op).Some?)
      ensures ok ==> OpChosen(tx.e, old(tx.cat), table, op, choice) == Some(tx.cat)
    {
      choice := Whole;
      match op
      case AddField(f) => ok := ApplyAddField(f);
      case DropField(n) => ok, choice := ApplyDropField(n);
      case RenameField(o, n) => ok, choice := ApplyRenameField(o, n);
      case AddIndex(idx, opts) => ok := ApplyAddIndex(idx, opts);
      case RemoveIndex(n, opts) => ok := ApplyDropIndex(n, opts);
      case ModifyField(n, newDef) => ok, choice := ApplyModifyField(n, newDef);
    }
  }

  lemma RewrittenStep(seen: seq<Column>, i: nat, name: string, newDef: FieldDef)
    requires i < |seen|
    ensures RewrittenFields(seen[..i + 1], name, newDef)
            == RewrittenFields(seen[..i], name, newDef)
              + [if seen[i].name == name then newDef.(name := name) else FieldsRead(seen)[i]]
    ensures Sees(seen[..i + 1], name) <==> Sees(seen[..i], name) || seen[i].name == name
    ensures FieldsRead(seen)[i].name == seen[i].name
  {
    assert seen[..i + 1] == seen[..i] + [seen[i]];
    if Sees(seen[..i], name) {
      var k :| 0 <= k < i && seen[..i][k].name == name;
      assert seen[..i + 1][k].name == name;
    }
    if seen[i].name == name { assert seen[..i + 1][i].name == name; }
  }

  /** The fields of the new definition, and whether the named column was among those read. */
  method ModifiedFields(current: CollectionDef, name: string, newDef: FieldDef, ghost seen: seq<Column>)
    returns (found: bool, fields: seq<FieldDef>)
    requires current.fields == FieldsRead(seen)
    ensures found == Sees(seen, name) && fields == RewrittenFields(seen, name, newDef)
  {
    fields := [];
    found := false;
    var i := 0;
    while i < |current.fields|
      invariant 0 <= i <= |current.fields| == |seen|
      invariant fields == RewrittenFields(seen[..i], name, newDef) && found == Sees(seen[..i], name)
    {
      var f := current.fields[i];
      RewrittenStep(seen, i, name, newDef);
      if f.name == name {
        var n := newDef.(name := name);
        fields := fields + [n];
        found := true;
      } else {
        fields := fields + [f];
      }
      i := i + 1;
    }
    assert seen[..i] == seen;
  }

  lemma RewriteTexts(table: string, modified: CollectionDef, seen: seq<Column>, texts: seq<string>)
    requires AllTyped(modified.fields) && seen != [] && |texts| == 4
    requires texts[0] == StatementText(CreateTableStatement(modified, NO_OPTIONS).value)
    requires var cols := Join(Quoted(NamesOf(seen)), ", ");
             texts[1] == "INSERT INTO " + QuoteIdentifier(table + "_new") + " (" + cols + ") SELECT " + cols + " FROM "
               + QuoteIdentifier(table)
    requires texts[2] == BuildDropTableSQL(table, NO_OPTIONS)
    requires texts[3] == "ALTER TABLE " + QuoteIdentifier(table + "_new") + " RENAME TO " + QuoteIdentifier(table)
    ensures Texts(texts, RewriteStatements(table, CreateTableStatement(modified, NO_OPTIONS).value, NamesOf(seen)))
  {
    CreateTableReadable(modified, NO_OPTIONS);
    CopyText(table + "_new", NamesOf(seen), table);
    DropText(table, NO_OPTIONS);
    Nest4("ALTER TABLE ", QuoteIdentifier(table + "_new"), " RENAME TO ", QuoteIdentifier(table));
  }

  /** The texts of the rewrite: create, copy, drop, rename. */
  method RewriteSQL(table: string, modified: CollectionDef, ghost name: string, ghost newDef: FieldDef,
                    ghost seen: seq<Column>)
    returns (texts: Option<seq<string>>)
    requires modified == Rewritten(table, name, newDef, seen) && seen != []
    ensures texts.None? <==> CreateTableStatement(modified, NO_OPTIONS).None?
    ensures texts.Some? ==>
              Texts(texts.value,
                    RewriteStatements(table, CreateTableStatement(modified, NO_OPTIONS).value, NamesOf(seen)))
  {
    var createSQL := BuildCreateTableSQL(modified, NO_OPTIONS);
    if createSQL.None? { return None; }
    var cols := QuotedNames(modified.fields, seen, name, newDef);
    var newTable := QuoteIdentifier(table + "_new");
    var oldTable := QuoteIdentifier(table);
    var copySQL := "INSERT INTO " + newTable + " (" + cols + ") SELECT " + cols + " FROM " + oldTable;
    var dropSQL := BuildDropTableSQL(table, NO_OPTIONS);
    var renameSQL := "ALTER TABLE " + newTable + " RENAME TO " + oldTable;
    var all := [createSQL.value, copySQL, dropSQL, renameSQL];
    RewriteTexts(table, modified, seen, all);
    return Some(all);
  }

  lemma CopyText(target: string, names: seq<string>, source: string)
    ensures var cols := Join(Quoted(names), ", ");
            "INSERT INTO " + QuoteIdentifier(target) + " (" + cols + ") SELECT " + cols + " FROM "
              + QuoteIdentifier(source)
            == StatementText(CopyRows(target, names, names, source))
  {
    var cols := Join(Quoted(names), ", ");
    assert ") SELECT " == ")" + " SELECT ";
    var tail := cols + (" FROM " + QuoteIdentifier(source));
    assert (")" + " SELECT ") + tail == ")" + (" SELECT " + tail);
    Nest8("INSERT INTO ", QuoteIdentifier(target), " (", cols, ") SELECT ", cols, " FROM ", QuoteIdentifier(source));
  }

  method QuotedNames(fields: seq<FieldDef>, ghost seen: seq<Column>, ghost name: string, ghost newDef: FieldDef)
    returns (cols: string)
    requires fields == RewrittenFields(seen, name, newDef)
    ensures cols == Join(Quoted(NamesOf(seen)), ", ")
  {
    var colNames: seq<string> := [];
    var i := 0;
    while i < |fields|
      invariant 0 <= i <= |fields| && |colNames| == i
      invariant forall k | 0 <= k < i :: colNames[k] == QuoteIdentifier(seen[k].name)
    {
      assert fields[i].name == seen[i].name;
      colNames := colNames + [QuoteIdentifier(fields[i].name)];
      i := i + 1;
    }
    assert colNames == Quoted(NamesOf(seen));
    return Join(colNames, ", ");
  }

  lemma KeyEntriesStep(cols: seq<Column>, k: nat)
    requires k < |cols|
    ensures KeyEntries(cols[..k + 1])
            == KeyEntries(cols[..k]) + (if cols[k].pk > 0 then [PkEntry(cols[k].name, cols[k].pk)] else [])
  {
    assert cols[..k + 1][..k] == cols[..k];
  }

  /** The introspection of the rewrite. Only an error of the query or of a scan is reported:
      rows that end early are taken for the whole table. */
  method ReadCollectionDefViaTx(tx: Tx, name: string) returns (ok: bool, def: CollectionDef, ghost seen: seq<Column>)
    modifies tx.env
    ensures tx.env.asked == old(tx.env.asked) + 1
    ensures tx.env.Granted(old(tx.env.asked)) ==> ok && seen == TableInfo(tx.cat, name)
    ensures seen <= TableInfo(tx.cat, name)
    ensures ok ==> def == CollectionDef(name, FieldsRead(seen), KeyOf(seen), [])
  {
    var queried, rows := tx.QueryTableInfo(name);
    def := CollectionDef(name, [], [], []);
    if !queried { return false, def, []; }
    var fields: seq<FieldDef> := [];
    var pkEs: seq<PkEntry> := [];
    var i := 0;
    while i < |rows|
      invariant 0 <= i <= |rows|
      invariant fields == FieldsRead(rows[..i]) && pkEs == KeyEntries(rows[..i])
      invariant tx.env.asked == old(tx.env.asked) + 1
    {
      var c := rows[i];
      var r := DbschemaTypeFromSQLite(c.decl);
      var t := if r.ok then r.typ else String;
      assert rows[..i + 1] == rows[..i] + [c];
      fields := fields + [FieldDef(c.name, t, r.precision, !c.notNull && c.pk == 0, false)];
      KeyEntriesStep(rows, i);
      if c.pk > 0 {
        pkEs := pkEs + [PkEntry(c.name, c.pk)];
      }
      i := i + 1;
    }
    assert rows[..i] == rows;
    var pk := SortedKey(pkEs);
    return true, CollectionDef(name, fields, pk, []), rows;
  }

  // ---- The database ----

  class Database {
    const e: Storage
    const env: Env
    var committed: Catalog

    constructor (e: Storage, env: Env)
      ensures this.e == e && this.env == env && committed == EMPTY
    {
      this.e, this.env, committed := e, env, EMPTY;
    }

    /** d.sqlDB.BeginTx: a transaction works on a copy of the committed catalog. */
    method Begin() returns (tx: Tx?)
      modifies env
      ensures env.asked == old(env.asked) + 1
      ensures tx != null <==> env.Granted(old(env.asked))
      ensures tx != null ==> fresh(tx) && tx.e == e && tx.env == env && tx.cat == committed
    {
      var granted := env.Ask();
      if !granted { return null; }
      tx := new Tx(e, env, committed);
    }

    /** The end of inTx: rolled back when the body failed, otherwise committed if the commit
        succeeds. */
    method Finish(tx: Tx, bodyOk: bool) returns (ok: bool)
      modifies this, env
      ensures env.asked == old(env.asked) + if bodyOk then 1 else 0
      ensures ok <==> bodyOk && env.Granted(old(env.asked))
      ensures committed == if ok then tx.cat else old(committed)
    {
      if !bodyOk { return false; }
      ok := env.Ask();
      if ok { committed := tx.cat; }
    }

    method CreateCollection(c: CollectionDef, o: Options) returns (ok: bool)
      modifies this, env
      ensures old(env.asked) <= env.asked
      ensures ok <==> env.CalmSince(old(env.asked)) && CreateMeaning(e, old(committed), c, o).Some?
      ensures if ok then CreateMeaning(e, old(committed), c, o) == Some(committed) else committed == old(committed)
    {
      ghost var k := env.asked;
      var texts := CreateSQL(c, o);
      if texts.None? { return false; }
      var timeCols := TimeColumnsOf(c);
      var tx := Begin();
      if tx == null { return false; }
      env.One(k);
      var body := CreateBody(tx, c.name, texts.value, timeCols, CreateStatements(c, o));
      ghost var last := env.asked;
      env.Split(k, k + 1, last);
      env.Split(k, last, last + 1);
      env.One(last);
      ok := Finish(tx, body);
    }

    /** A refused cleanup of the markers is ignored, and the collection then dropped without it. */
    method DropCollection(name: string, o: Options) returns (ok: bool, ghost choice: Choice)
      modifies this, env
      ensures old(env.asked) <= env.asked && choice in {Whole, MarkerSkipped}
      ensures env.CalmSince(old(env.asked)) ==>
                choice == Whole && (ok <==> DropMeaning(e, old(committed), name, o).Some?)
      ensures if ok then DropChosen(e, old(committed), name, o, choice) == Some(committed)
              else committed == old(committed)
    {
      ghost var k := env.asked;
      choice := Whole;
      var sqlStmt := BuildDropTableSQL(name, o);
      var tx := Begin();
      if tx == null { return false, choice; }
      DropText(name, o);
      env.One(k);
      var dropped;
      dropped, choice := ExecThenIgnored(tx, sqlStmt, SqlText.DropTable(o.ifExists, name), DeleteMarkers(name));
      ghost var last := env.asked;
      env.Split(k, k + 1, last);
      env.Split(k, last, last + 1);
      ok := Finish(tx, dropped);
    }

    /** All or nothing: a failure of any operation or of the commit leaves the committed catalog
        exactly as it was; a success is the operations in order, each carried out as its choice
        says, and all of them whole unless the environment refused something. */
    method AlterCollection(name: string, ops: seq<AlterOp>) returns (ok: bool, ghost choices: seq<Choice>)
      modifies this, env
      ensures old(env.asked) <= env.asked && |choices| == |ops|
      ensures env.CalmSince(old(env.asked)) ==>
                AllWhole(choices) && (ok <==> AlterMeaning(e, old(committed), name, ops).Some?)
      ensures if ok then AlterChosen(e, old(committed), name, ops, choices) == Some(committed)
              else committed == old(committed)
    {
      ghost var k := env.asked;
      choices := seq(|ops|, i => Whole);
      var tx := Begin();
      if tx == null { return false, choices; }
      var body;
      body, choices := AlterBody(tx, name, ops);
      ok := Finish(tx, body);
    }
  }

  lemma AlterStep(e: Storage, cat: Catalog, table: string, ops: seq<AlterOp>, k: nat)
    requires k < |ops|
    ensures AlterMeaning(e, cat, table, ops[..k + 1])
            == match AlterMeaning(e, cat, table, ops[..k]) case None => None
              case Some(c) => OpMeaning(e, c, table, ops[k])
  {
    assert ops[..k + 1][..k] == ops[..k];
  }

  lemma AlterChosenStep(e: Storage, cat: Catalog, table: string, ops: seq<AlterOp>, k: nat, choices: seq<Choice>,
                        choice: Choice)
    requires k < |ops| && |choices| == k
    ensures AlterChosen(e, cat, table, ops[..k + 1], choices + [choice])
            == match AlterChosen(e, cat, table, ops[..k], choices) case None => None
              case Some(c) => OpChosen(e, c, table, ops[k], choice)
  {
    assert ops[..k + 1][..k] == ops[..k] && (choices + [choice])[..k] == choices;
  }

  /** The loop over the operations of one AlterCollection. */
  method AlterBody(tx: Tx, table: string, ops: seq<AlterOp>) returns (ok: bool, ghost choices: seq<Choice>)
    modifies tx, tx.env
    ensures old(tx.env.asked) <= tx.env.asked && |choices| == |ops|
    ensures tx.env.CalmSince(old(tx.env.asked)) ==>
              AllWhole(choices) && (ok <==> AlterMeaning(tx.e, old(tx.cat), table, ops).Some?)
    ensures ok ==> AlterChosen(tx.e, old(tx.cat), table, ops, choices) == Some(tx.cat)
  {
    var a := new SqliteAlterApplier(tx, table);
    ghost var was, from := tx.cat, tx.env.asked;
    ghost var chosen: seq<Choice> := [];
    var i := 0;
    while i < |ops|
      invariant 0 <= i == |chosen| <= |ops| && from <= tx.env.asked
      invariant AlterChosen(tx.e, was, table, ops[..i], chosen) == Some(tx.cat)
      invariant tx.env.CalmSince(from) ==> AllWhole(chosen) && AlterMeaning(tx.e, was, table, ops[..i]) == Some(tx.cat)
    {
      AlterStep(tx.e, was, table, ops, i);
      ghost var before := tx.env.asked;
      var applied;
      ghost var choice;
      applied, choice := a.Apply(ops[i]);
      if !applied {
        if AlterMeaning(tx.e, was, table, ops[..i + 1]).None? { FailedPrefixFails(tx.e, was, table, ops, i + 1); }
        return false, seq(|ops|, j => Whole);
      }
      AlterChosenStep(tx.e, was, table, ops, i, chosen, choice);
      chosen := chosen + [choice];
      i := i + 1;
    }
    assert ops[..|ops|] == ops;
    return true, chosen;
  }

  /** The texts of the indexes; None at the first that cannot be written. */
  method IndexSQL(c: CollectionDef, o: Options) returns (texts: Option<seq<string>>)
    ensures texts.None? ==> !IndexesBuild(c, o)
    ensures texts.Some? ==>
              |texts.value| == |c.indexes| && forall k | 0 <= k < |c.indexes| ::
                IndexText(c.indexes[k], c.name, o, texts.value[k])
  {
    var indexSQLs: seq<string> := [];
    var i := 0;
    while i < |c.indexes|
      invariant 0 <= i <= |c.indexes| && |indexSQLs| == i
      invariant forall k | 0 <= k < i :: IndexText(c.indexes[k], c.name, o, indexSQLs[k])
    {
      var idx := c.indexes[i];
      if idx.collection == "" {
        idx := idx.(collection := c.name);
      }
      assert idx == Defaulted(c.indexes[i], c.name);
      var s := BuildCreateIndexSQL(idx, o);
      if s.None? { return None; }
      indexSQLs := indexSQLs + [s.value];
      i := i + 1;
    }
    return Some(indexSQLs);
  }

  /** The texts of a creation: the table, then its indexes. */
  method CreateSQL(c: CollectionDef, o: Options) returns (texts: Option<seq<string>>)
    ensures texts.None? <==> CreateTableStatement(c, o).None? || !IndexesBuild(c, o)
    ensures texts.Some? ==> Texts(texts.value, CreateStatements(c, o))
  {
    var createSQL := BuildCreateTableSQL(c, o);
    if createSQL.None? { return None; }
    var indexSQLs := IndexSQL(c, o);
    if indexSQLs.None? { return None; }
    CreateTableReadable(c, o);
    IndexTexts(c, o, indexSQLs.value);
    ConsTexts(createSQL.value, CreateTableStatement(c, o).value, indexSQLs.value, IndexStatements(c, o));
    return Some([createSQL.value] + indexSQLs.value);
  }

  predicate IndexText(idx: IndexDef, table: string, o: Options, text: string) {
    var st := CreateIndexStatement(Defaulted(idx, table), o);
    st.Some? && text == StatementText(st.value)
  }

  lemma ConsTexts(text: string, st: Statement, texts: seq<string>, sts: seq<Statement>)
    requires SqlParser.Emittable(st) && text == StatementText(st) && Texts(texts, sts)
    ensures Texts([text] + texts, [st] + sts)
  {
    forall i | 0 <= i < |sts| + 1
      ensures SqlParser.Emittable(([st] + sts)[i]) && ([text] + texts)[i] == StatementText(([st] + sts)[i])
    {
      if i > 0 { assert ([st] + sts)[i] == sts[i - 1] && ([text] + texts)[i] == texts[i - 1]; }
    }
  }

  lemma IndexEmittable(idx: IndexDef, table: string, o: Options)
    requires CreateIndexStatement(Defaulted(idx, table), o).Some?
    ensures SqlParser.Emittable(CreateIndexStatement(Defaulted(idx, table), o).value)
  {
  }

  lemma IndexTexts(c: CollectionDef, o: Options, texts: seq<string>)
    requires |texts| == |c.indexes|
    requires forall k | 0 <= k < |c.indexes| :: IndexText(c.indexes[k], c.name, o, texts[k])
    ensures IndexesBuild(c, o) && Texts(texts, IndexStatements(c, o))
  {
    forall k | 0 <= k < |c.indexes|
      ensures CreateIndexStatement(Defaulted(c.indexes[k], c.name), o).Some?
      ensures SqlParser.Emittable(CreateIndexStatement(Defaulted(c.indexes[k], c.name), o).value)
      ensures texts[k] == StatementText(CreateIndexStatement(Defaulted(c.indexes[k], c.name), o).value)
    {
      assert IndexText(c.indexes[k], c.name, o, texts[k]);
      IndexEmittable(c.indexes[k], c.name, o);
    }
  }

  /** The body of CreateCollection's transaction. */
  method CreateBody(tx: Tx, name: string, texts: seq<string>, timeCols: seq<string>, ghost sts: seq<Statement>)
    returns (ok: bool)
    requires Texts(texts, sts)
    modifies tx, tx.env
    ensures old(tx.env.asked) <= tx.env.asked
    ensures ok <==> tx.env.CalmSince(old(tx.env.asked)) && Statements(tx.e, old(tx.cat), sts).Some?
    ensures ok ==> Marked(Statements(tx.e, old(tx.cat), sts), name, timeCols) == Some(tx.cat)
  {
    ghost var from := tx.env.asked;
    ok := ExecAll(tx, texts, sts);
    if !ok { return false; }
    ghost var mid := tx.env.asked;
    if |timeCols| > 0 {
      ok := InsertMarkers(tx, name, timeCols);
      if !ok { return false; }
    }
    return true;
  }
}
