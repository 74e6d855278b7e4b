/** What every call keeps of the tables, however far it was carried out: each table's text is its
    own, its rows meet its checks, and they are as SQLite stores them. */
module TablesKept {
  import opened Text
  import opened DbSchema
  import opened SqlText
  import opened SqlGen
  import opened Catalog
  import opened SchemaModifier
  import opened LogicalSchema
  import opened StoredValues
  import opened TableTexts
  import opened RowChecks

  ghost predicate Kept(e: Storage, cat: Catalog) {
    TextsOwn(cat) && AllChecked(e, cat) && (Lawful(e) ==> StoredValues.AllStored(e, cat))
  }

  lemma EmittedKeeps(e: Storage, cat: Catalog, st: Statement, c': Catalog)
    requires Kept(e, cat) && Emitted(e, cat, st) == Some(c')
    requires st.CreateTable? && Fold(st.name) !in cat.tables ==> OwnStatement(st)
    ensures Kept(e, c')
  {
    StepKeepsTexts(e, cat, st);
    StepKeepsChecked(e, cat, st);
    if Lawful(e) { StepKeepsStored(e, cat, st); }
  }

  lemma {:induction false} OtherStatementsKeep(e: Storage, cat: Catalog, sts: seq<Statement>)
    requires Kept(e, cat) && Statements(e, cat, sts).Some? && forall i | 0 <= i < |sts| :: !sts[i].CreateTable?
    ensures Kept(e, Statements(e, cat, sts).value)
    decreases |sts|
  {
    if sts != [] {
      var n := |sts| - 1;
      OtherStatementsKeep(e, cat, sts[..n]);
      EmittedKeeps(e, Statements(e, cat, sts[..n]).value, sts[n], Statements(e, cat, sts).value);
    }
  }

  /** A created table's text is its own, the key clause as the definition spells it. */
  lemma CreatedOwn(e: Storage, cat: Catalog, c: CollectionDef, o: Options, c1: Catalog)
    requires AllTyped(c.fields) && Emitted(e, cat, CreateTableStatement(c, o).value) == Some(c1)
    ensures Fold(c.name) !in cat.tables ==> OwnStatement(CreateTableStatement(c, o).value)
  {
    var st := CreateTableStatement(c, o).value;
    if Fold(c.name) !in cat.tables {
      var t := NewTable(st.name, st.decls, st.key);
      assert ValidBody(st.decls, st.key) && t.cols == TableColumns(c);
      ExactlyOneInline(c);
      ValidIsWellKeyed(c);
      CreatedKey(c);
      KeyAlike(c);
      CreatedDecls(c);
      assert t.sql == TextWithKey(t.name, t.cols, t.auto, c.primaryKey);
    }
  }

  /** A creation followed by statements that create no table. */
  lemma CreationKeeps(e: Storage, cat: Catalog, c: CollectionDef, o: Options, rest: seq<Statement>)
    requires Kept(e, cat) && CreateTableStatement(c, o).Some?
    requires Statements(e, cat, [CreateTableStatement(c, o).value] + rest).Some?
    requires forall i | 0 <= i < |rest| :: !rest[i].CreateTable?
    ensures Kept(e, Statements(e, cat, [CreateTableStatement(c, o).value] + rest).value)
  {
    var st := CreateTableStatement(c, o).value;
    StatementsFrom(e, cat, st, rest);
    var c1 := Emitted(e, cat, st).value;
    CreatedOwn(e, cat, c, o, c1);
    EmittedKeeps(e, cat, st, c1);
    OtherStatementsKeep(e, c1, rest);
  }

  lemma CreateCallKeeps(e: Storage, cat: Catalog, c: CollectionDef, o: Options)
    requires Kept(e, cat) && CreateMeaning(e, cat, c, o).Some?
    ensures Kept(e, CreateMeaning(e, cat, c, o).value)
  {
    CreationKeeps(e, cat, c, o, IndexStatements(c, o));
  }

  lemma AfterMarkerKeepsTables(cat: Catalog, st: MarkerStatement, choice: Choice)
    ensures AfterMarker(cat, st, choice).tables == cat.tables
  {
  }

  lemma DropCallKeeps(e: Storage, cat: Catalog, name: string, o: Options, choice: Choice)
    requires Kept(e, cat) && DropChosen(e, cat, name, o, choice).Some?
    ensures Kept(e, DropChosen(e, cat, name, o, choice).value)
  {
    var c1 := DropSplit(e, cat, name, o, choice);
    EmittedKeeps(e, cat, SqlText.DropTable(o.ifExists, name), c1);
    AfterMarkerKeepsTables(c1, DeleteMarkers(name), choice);
  }

  lemma RewriteIsCreation(e: Storage, cat: Catalog, table: string, name: string, d: FieldDef, seen: seq<Column>)
    returns (rest: seq<Statement>)
    requires RewriteSeeing(e, cat, table, name, d, seen).Some?
    ensures CreateTableStatement(Rewritten(table, name, d, seen), NO_OPTIONS).Some?
    ensures forall i | 0 <= i < |rest| :: !rest[i].CreateTable?
    ensures RewriteSeeing(e, cat, table, name, d, seen)
            == Statements(e, cat, [CreateTableStatement(Rewritten(table, name, d, seen), NO_OPTIONS).value] + rest)
  {
    var st := CreateTableStatement(Rewritten(table, name, d, seen), NO_OPTIONS).value;
    var all := RewriteStatements(table, st, NamesOf(seen));
    rest := all[1..];
    assert all == [st] + rest;
  }

  lemma RewriteKeeps(e: Storage, cat: Catalog, table: string, name: string, d: FieldDef, seen: seq<Column>)
    requires Kept(e, cat) && RewriteSeeing(e, cat, table, name, d, seen).Some?
    ensures Kept(e, RewriteSeeing(e, cat, table, name, d, seen).value)
  {
    var rest := RewriteIsCreation(e, cat, table, name, d, seen);
    CreationKeeps(e, cat, Rewritten(table, name, d, seen), NO_OPTIONS, rest);
  }

  lemma AddKeeps(e: Storage, cat: Catalog, table: string, f: FieldDef)
    requires Kept(e, cat) && AddFieldMeaning(e, cat, table, f).Some?
    ensures Kept(e, AddFieldMeaning(e, cat, table, f).value)
  {
    var st := AddColumnStatement(table, f).value;
    EmittedKeeps(e, cat, st, Emitted(e, cat, st).value);
  }

  lemma DropFieldKeeps(e: Storage, cat: Catalog, table: string, n: string, choice: Choice)
    requires Kept(e, cat) && DropFieldMeaning(e, cat, table, n, choice).Some?
    ensures Kept(e, DropFieldMeaning(e, cat, table, n, choice).value)
  {
    var st := SqlText.DropColumn(table, n);
    var c1 := Emitted(e, cat, st).value;
    EmittedKeeps(e, cat, st, c1);
    AfterMarkerKeepsTables(c1, DeleteMarker(table, n), choice);
  }

  lemma RenameFieldKeeps(e: Storage, cat: Catalog, table: string, o: string, n: string, choice: Choice)
    requires Kept(e, cat) && RenameFieldMeaning(e, cat, table, o, n, choice).Some?
    ensures Kept(e, RenameFieldMeaning(e, cat, table, o, n, choice).value)
  {
    var st := SqlText.RenameColumn(table, o, n);
    var c1 := Emitted(e, cat, st).value;
    EmittedKeeps(e, cat, st, c1);
    AfterMarkerKeepsTables(c1, UpdateMarker(table, o, n), choice);
  }

  lemma AddIndexKeeps(e: Storage, cat: Catalog, table: string, idx: IndexDef, opts: Options)
    requires Kept(e, cat) && AddIndexMeaning(e, cat, table, idx, opts).Some?
    ensures Kept(e, AddIndexMeaning(e, cat, table, idx, opts).value)
  {
    var st := CreateIndexStatement(Defaulted(idx, table), opts).value;
    EmittedKeeps(e, cat, st, Emitted(e, cat, st).value);
  }

  lemma OpKeeps(e: Storage, cat: Catalog, table: string, op: AlterOp, choice: Choice)
    requires Kept(e, cat) && OpChosen(e, cat, table, op, choice).Some?
    ensures Kept(e, OpChosen(e, cat, table, op, choice).value)
  {
    match op {
      case AddField(f) => AddKeeps(e, cat, table, f);
      case DropField(n) => DropFieldKeeps(e, cat, table, n, choice);
      case RenameField(o, n) => RenameFieldKeeps(e, cat, table, o, n, choice);
      case ModifyField(n, d) => RewriteKeeps(e, cat, table, n, d, Delivered(cat, table, choice));
      case AddIndex(idx, opts) => AddIndexKeeps(e, cat, table, idx, opts);
      case RemoveIndex(n, opts) =>
        var st := SqlText.DropIndex(opts.ifExists, n);
        EmittedKeeps(e, cat, st, Emitted(e, cat, st).value);
    }
  }

  lemma {:induction false} AlterCallKeeps(e: Storage, cat: Catalog, table: string, ops: seq<AlterOp>,
                                          choices: seq<Choice>)
    requires |choices| == |ops| && Kept(e, cat) && AlterChosen(e, cat, table, ops, choices).Some?
    ensures Kept(e, AlterChosen(e, cat, table, ops, choices).value)
    decreases |ops|
  {
    if ops != [] {
      var n := |ops| - 1;
      AlterCallKeeps(e, cat, table, ops[..n], choices[..n]);
      OpKeeps(e, AlterChosen(e, cat, table, ops[..n], choices[..n]).value, table, ops[n], choices[n]);
    }
  }
}
