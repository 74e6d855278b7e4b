/** The SQL generator: column declarations, CREATE TABLE and CREATE INDEX built piece by
    piece, and the statements that are single expressions. Each text is tied to the
    statement it must denote, and what it denotes is read back by the parser. */
module SqlGen {
  import opened Text
  import opened DbSchema
  import opened SqlText
  import opened TypeMapping
  import SqlParser

  // ---- What must be written ----

  /** Whether the first field of that name is an auto-incremented Int. */
  predicate HasAutoIncIntPK(fields: seq<FieldDef>, name: string) {
    fields != [] && (if fields[0].name == name then fields[0].typ == Int && fields[0].autoIncrement
                     else HasAutoIncIntPK(fields[1..], name))
  }

  predicate InlineKey(c: CollectionDef) {
    |c.primaryKey| == 1 && HasAutoIncIntPK(c.fields, c.primaryKey[0])
  }

  /** NOT NULL is written for a non-nullable field, except for a field outside the key of a
      table whose key has several columns. */
  function FieldSuffix(c: CollectionDef, f: FieldDef): Suffix {
    if InlineKey(c) && f.name == c.primaryKey[0] then (if f.autoIncrement then AutoRowidKey else RowidKey)
    else if !f.nullable && (|c.primaryKey| <= 1 || f.name in c.primaryKey) then NotNull
    else Plain
  }

  predicate Typed(f: FieldDef) { SqliteTypeFor(f.typ).Some? }

  predicate AllTyped(fields: seq<FieldDef>) { forall i | 0 <= i < |fields| :: Typed(fields[i]) }

  function FieldDecl(c: CollectionDef, f: FieldDef): ColumnDecl
    requires Typed(f)
  {
    ColumnDecl(f.name, SqliteTypeFor(f.typ).value, FieldSuffix(c, f))
  }

  function FieldDecls(c: CollectionDef): (r: seq<ColumnDecl>)
    requires AllTyped(c.fields)
    ensures |r| == |c.fields|
  {
    seq(|c.fields|, i requires 0 <= i < |c.fields| => FieldDecl(c, c.fields[i]))
  }

  /** The table statement a definition stands for; None when a field's type has no keyword. */
  function CreateTableStatement(c: CollectionDef, o: Options): Option<Statement> {
    if AllTyped(c.fields)
    then Some(CreateTable(o.ifNotExists, c.name, FieldDecls(c), if InlineKey(c) then [] else c.primaryKey))
    else None
  }

  function CreateIndexStatement(idx: IndexDef, o: Options): Option<Statement> {
    if idx.name == "" || idx.collection == "" || idx.fields == [] then None
    else Some(CreateIndex(idx.unique, o.ifNotExists, idx.name, idx.collection, idx.fields))
  }

  function AddColumnStatement(table: string, f: FieldDef): Option<Statement> {
    if Typed(f)
    then Some(AddColumn(table, ColumnDecl(f.name, SqliteTypeFor(f.typ).value, if f.nullable then Plain else NotNull)))
    else None
  }

  // ---- The builders ----

  method FieldHasAutoIncIntPK(c: CollectionDef, name: string) returns (r: bool)
    ensures r == HasAutoIncIntPK(c.fields, name)
  {
    var i := 0;
    while i < |c.fields|
      invariant 0 <= i <= |c.fields|
      invariant HasAutoIncIntPK(c.fields, name) == HasAutoIncIntPK(c.fields[i..], name)
    {
      var f := c.fields[i];
      if f.name == name { return f.typ == Int && f.autoIncrement; }
      i := i + 1;
    }
    return false;
  }

  method BuildColumnDecl(f: FieldDef, inlinePK: bool, compositePK: bool, inPK: bool) returns (r: Option<string>)
    ensures r.None? <==> !Typed(f)
    ensures r.Some? ==>
              r.value == ColumnText(ColumnDecl(f.name, SqliteTypeFor(f.typ).value,
                                               if inlinePK then (if f.autoIncrement then AutoRowidKey else RowidKey)
                                               else if !f.nullable && (!compositePK || inPK) then NotNull else Plain))
  {
    var sqlType := SqliteTypeFor(f.typ);
    if sqlType.None? { return None; }
    var parts := [QuoteIdentifier(f.name), sqlType.value];
    if inlinePK {
      parts := parts + ["PRIMARY KEY"];
      if f.autoIncrement {
        parts := parts + ["AUTOINCREMENT"];
      }
      KeyDeclText(f.name, sqlType.value, f.autoIncrement);
      return Some(Join(parts, " "));
    }
    var emitNotNull := !f.nullable && (!compositePK || inPK);
    if emitNotNull {
      parts := parts + ["NOT NULL"];
    }
    PlainDeclText(f.name, sqlType.value, emitNotNull);
    return Some(Join(parts, " "));
  }

  lemma KeyDeclText(name: string, typ: string, auto: bool)
    ensures var parts := [QuoteIdentifier(name), typ] + ["PRIMARY KEY"];
            Join(if auto then parts + ["AUTOINCREMENT"] else parts, " ")
            == ColumnText(ColumnDecl(name, typ, if auto then AutoRowidKey else RowidKey))
  {
    var parts := [QuoteIdentifier(name), typ] + ["PRIMARY KEY"];
    if auto {
      JoinFour(parts + ["AUTOINCREMENT"]);
      assert " PRIMARY KEY AUTOINCREMENT" == " " + ("PRIMARY KEY" + (" " + "AUTOINCREMENT"));
    } else {
      JoinThree(parts);
      assert " PRIMARY KEY" == " " + "PRIMARY KEY";
    }
  }

  lemma PlainDeclText(name: string, typ: string, notNull: bool)
    ensures var parts := [QuoteIdentifier(name), typ];
            Join(if notNull then parts + ["NOT NULL"] else parts, " ")
              == ColumnText(ColumnDecl(name, typ, if notNull then NotNull else Plain))
  {
    var parts := [QuoteIdentifier(name), typ];
    if notNull {
      JoinThree(parts + ["NOT NULL"]);
      assert " NOT NULL" == " " + "NOT NULL";
    } else {
      JoinTwo(parts);
    }
  }

  lemma JoinTwo(p: seq<string>)
    requires |p| == 2
    ensures Join(p, " ") == p[0] + (" " + (p[1] + ""))
  {
    assert p[1..] == [p[1]];
    assert Join(p[1..], " ") == p[1] == p[1] + "";
    assert (p[0] + " ") + p[1] == p[0] + (" " + p[1]);
  }

  lemma JoinThree(p: seq<string>)
    requires |p| == 3
    ensures Join(p, " ") == p[0] + (" " + (p[1] + (" " + p[2])))
  {
    JoinTwo(p[1..]);
    assert p[1..][0] == p[1] && p[1..][1] == p[2] && p[2] + "" == p[2];
    assert (p[0] + " ") + Join(p[1..], " ") == p[0] + (" " + Join(p[1..], " "));
  }

  lemma JoinFour(p: seq<string>)
    requires |p| == 4
    ensures Join(p, " ") == p[0] + (" " + (p[1] + (" " + (p[2] + (" " + p[3])))))
  {
    JoinThree(p[1..]);
    assert p[1..][0] == p[1] && p[1..][1] == p[2] && p[1..][2] == p[3];
    assert (p[0] + " ") + Join(p[1..], " ") == p[0] + (" " + Join(p[1..], " "));
  }

  /** The loops that quote a list of names. */
  method QuoteAll(names: seq<string>) returns (r: seq<string>)
    ensures r == Quoted(names)
  {
    r := [];
    var i := 0;
    while i < |names|
      invariant 0 <= i <= |names| && r == Quoted(names[..i])
    {
      assert names[..i + 1] == names[..i] + [names[i]];
      r := r + [QuoteIdentifier(names[i])];
      i := i + 1;
    }
    assert names[..i] == names;
  }

  method NameSet(names: seq<string>) returns (m: map<string, bool>)
    ensures forall n :: n in m <==> n in names
    ensures forall n :: n in m ==> m[n]
  {
    m := map[];
    var i := 0;
    while i < |names|
      invariant 0 <= i <= |names|
      invariant forall n :: n in m <==> n in names[..i]
      invariant forall n :: n in m ==> m[n]
    {
      m := m[names[i] := true];
      i := i + 1;
    }
    assert names[..i] == names;
  }

  /** The column declarations, in order; None at the first field without a keyword. */
  method BuildColumns(c: CollectionDef, inlinePK: bool, compositePK: bool) returns (r: Option<seq<string>>)
    requires inlinePK == InlineKey(c) && compositePK == (|c.primaryKey| > 1)
    ensures r.None? <==> !AllTyped(c.fields)
    ensures r.Some? ==> |r.value| == |c.fields|
    ensures r.Some? ==> forall k | 0 <= k < |c.fields| :: r.value[k] == ColumnText(FieldDecl(c, c.fields[k]))
  {
    var pkSet := NameSet(c.primaryKey);
    var parts: seq<string> := [];
    var i := 0;
    while i < |c.fields|
      invariant 0 <= i <= |c.fields| && |parts| == i
      invariant forall k | 0 <= k < i :: Typed(c.fields[k]) && parts[k] == ColumnText(FieldDecl(c, c.fields[k]))
    {
      var f := c.fields[i];
      var colSQL := BuildColumnDecl(f, inlinePK && f.name == c.primaryKey[0], compositePK, f.name in pkSet
                                    && pkSet[f.name]);
      if colSQL.None? { return None; }
      parts := parts + [colSQL.value];
      i := i + 1;
    }
    return Some(parts);
  }

  method BuildCreateTableSQL(c: CollectionDef, opts: Options) returns (r: Option<string>)
    ensures r.None? <==> CreateTableStatement(c, opts).None?
    ensures r.Some? ==> r.value == StatementText(CreateTableStatement(c, opts).value)
    ensures r.Some? ==> SqlParser.ParseStatement(r.value) == if NulFreeDefinition(c) then CreateTableStatement(c, opts)
            else None
  {
    var sb := "CREATE TABLE ";
    if opts.ifNotExists {
      sb := sb + "IF NOT EXISTS ";
    }
    sb := sb + QuoteIdentifier(c.name);
    sb := sb + " (";
    ghost var flag := Flag(opts.ifNotExists, "IF NOT EXISTS ");
    assert sb == "CREATE TABLE " + flag + QuoteIdentifier(c.name) + " (";

    var inlinePK := false;
    if |c.primaryKey| == 1 {
      inlinePK := FieldHasAutoIncIntPK(c, c.primaryKey[0]);
    }
    var compositePK := |c.primaryKey| > 1;

    var columns := BuildColumns(c, inlinePK, compositePK);
    if columns.None? { return None; }
    var parts := columns.value;
    if !inlinePK && |c.primaryKey| > 0 {
      var pkNames := QuoteAll(c.primaryKey);
      parts := parts + ["PRIMARY KEY (" + (Join(pkNames, ", ") + ")")];
    }
    sb := sb + Join(parts, ", ");
    sb := sb + ")";
    BodyAssembled(c, opts, parts);
    Nest6("CREATE TABLE ", flag, QuoteIdentifier(c.name), " (", Join(parts, ", "), ")");
    CreateTableReadable(c, opts);
    SqlParser.RoundTrip(CreateTableStatement(c, opts).value);
    return Some(sb);
  }

  lemma BodyAssembled(c: CollectionDef, o: Options, parts: seq<string>)
    requires AllTyped(c.fields) && |parts| >= |c.fields|
    requires forall k | 0 <= k < |c.fields| :: parts[k] == ColumnText(FieldDecl(c, c.fields[k]))
    requires parts[|c.fields|..] == if InlineKey(c) || c.primaryKey == [] then [] else [KeyText(c.primaryKey)]
    ensures var st := CreateTableStatement(c, o).value; parts == BodyParts(st.decls, st.key)
  {
    assert parts == parts[..|c.fields|] + parts[|c.fields|..];
  }

  lemma Nest6(a: string, b: string, c: string, d: string, e: string, f: string)
    ensures a + b + c + d + e + f == a + (b + (c + (d + (e + f))))
  {
  }

  method BuildCreateIndexSQL(idx: IndexDef, opts: Options) returns (r: Option<string>)
    ensures r.None? <==> CreateIndexStatement(idx, opts).None?
    ensures r.Some? ==> r.value == StatementText(CreateIndexStatement(idx, opts).value)
  {
    if idx.name == "" { return None; }
    if idx.collection == "" { return None; }
    if |idx.fields| == 0 { return None; }
    var sb := "CREATE ";
    if idx.unique {
      sb := sb + "UNIQUE ";
    }
    sb := sb + "INDEX ";
    ghost var verb := if idx.unique then "CREATE UNIQUE INDEX " else "CREATE INDEX ";
    assert sb == verb;
    if opts.ifNotExists {
      sb := sb + "IF NOT EXISTS ";
    }
    ghost var flag := Flag(opts.ifNotExists, "IF NOT EXISTS ");
    assert sb == verb + flag;
    sb := sb + QuoteIdentifier(idx.name);
    sb := sb + " ON ";
    sb := sb + QuoteIdentifier(idx.collection);
    sb := sb + " (";
    var cols := QuoteAll(idx.fields);
    sb := sb + Join(cols, ", ");
    sb := sb + ")";
    Nest8(verb, flag, QuoteIdentifier(idx.name), " ON ", QuoteIdentifier(idx.collection), " (", Join(cols, ", "), ")");
    return Some(sb);
  }

  lemma Nest8(a: string, b: string, c: string, d: string, e: string, f: string, g: string, h: string)
    ensures a + b + c + d + e + f + g + h == a + (b + (c + (d + (e + (f + (g + h))))))
  {
  }

  function BuildDropTableSQL(name: string, o: Options): string {
    if o.ifExists then "DROP TABLE IF EXISTS " + QuoteIdentifier(name) else "DROP TABLE " + QuoteIdentifier(name)
  }

  function BuildDropIndexSQL(name: string, o: Options): string {
    if o.ifExists then "DROP INDEX IF EXISTS " + QuoteIdentifier(name) else "DROP INDEX " + QuoteIdentifier(name)
  }

  method BuildAlterTableAddColumnSQL(table: string, f: FieldDef) returns (r: Option<string>)
    ensures r.None? <==> AddColumnStatement(table, f).None?
    ensures r.Some? ==> r.value == StatementText(AddColumnStatement(table, f).value)
  {
    var colDecl := BuildColumnDecl(f, false, false, false);
    if colDecl.None? { return None; }
    var text := "ALTER TABLE " + QuoteIdentifier(table) + " ADD COLUMN " + colDecl.value;
    assert text == "ALTER TABLE " + (QuoteIdentifier(table) + (" ADD COLUMN " + colDecl.value));
    return Some(text);
  }

  function BuildAlterTableDropColumnSQL(table: string, col: string): string {
    "ALTER TABLE " + QuoteIdentifier(table) + " DROP COLUMN " + QuoteIdentifier(col)
  }

  function BuildAlterTableRenameColumnSQL(table: string, oldName: string, newName: string): string {
    "ALTER TABLE " + QuoteIdentifier(table) + " RENAME COLUMN " + QuoteIdentifier(oldName) + " TO "
      + QuoteIdentifier(newName)
  }

  // ---- What is written is read back as what was meant ----

  predicate NulFreeDefinition(c: CollectionDef) {
    && SqlParser.NulFree(c.name) && c.fields != [] && SqlParser.NulFreeAll(c.primaryKey)
    && forall i | 0 <= i < |c.fields| :: SqlParser.NulFree(c.fields[i].name)
  }

  lemma EmittedIsWord(t: Type)
    requires SqliteTypeFor(t).Some?
    ensures SqlParser.IsKeyword(SqliteTypeFor(t).value)
  {
  }

  lemma CreateTableReadable(c: CollectionDef, o: Options)
    requires AllTyped(c.fields)
    ensures SqlParser.Emittable(CreateTableStatement(c, o).value)
    ensures SqlParser.Readable(CreateTableStatement(c, o).value) <==> NulFreeDefinition(c)
  {
    var decls := FieldDecls(c);
    forall i | 0 <= i < |decls| ensures SqlParser.IsKeyword(decls[i].decl) && decls[i].name == c.fields[i].name {
      EmittedIsWord(c.fields[i].typ);
    }
    if InlineKey(c) && NulFreeDefinition(c) == false && SqlParser.ReadableBody(decls, []) {
      InlineKeyIsField(c.fields, c.primaryKey[0]);
    }
  }

  lemma {:induction false} InlineKeyIsField(fields: seq<FieldDef>, name: string)
    requires HasAutoIncIntPK(fields, name)
    ensures exists i :: 0 <= i < |fields| && fields[i].name == name
    decreases |fields|
  {
    if fields[0].name != name {
      InlineKeyIsField(fields[1..], name);
      var i :| 0 <= i < |fields[1..]| && fields[1..][i].name == name;
      assert fields[i + 1].name == name;
    }
  }

  lemma Nest3(a: string, b: string, c: string)
    ensures a + b + c == a + (b + c)
  {
  }

  lemma Nest4(a: string, b: string, c: string, d: string)
    ensures a + b + c + d == a + (b + (c + d))
  {
  }

  /** The texts that are single expressions are the texts of the statements they name. */
  lemma DropText(a: string, o: Options)
    ensures BuildDropTableSQL(a, o) == StatementText(DropTable(o.ifExists, a))
    ensures BuildDropIndexSQL(a, o) == StatementText(DropIndex(o.ifExists, a))
  {
    var q := QuoteIdentifier(a);
    assert "DROP TABLE IF EXISTS " == "DROP TABLE " + "IF EXISTS ";
    assert "DROP INDEX IF EXISTS " == "DROP INDEX " + "IF EXISTS ";
    Nest3("DROP TABLE ", "IF EXISTS ", q);
    Nest3("DROP INDEX ", "IF EXISTS ", q);
    assert "" + q == q;
  }

  lemma DropColumnText(a: string, b: string)
    ensures BuildAlterTableDropColumnSQL(a, b) == StatementText(DropColumn(a, b))
  {
    Nest4("ALTER TABLE ", QuoteIdentifier(a), " DROP COLUMN ", QuoteIdentifier(b));
  }

  lemma RenameColumnText(a: string, b: string, c: string)
    ensures BuildAlterTableRenameColumnSQL(a, b, c) == StatementText(RenameColumn(a, b, c))
  {
    Nest6("ALTER TABLE ", QuoteIdentifier(a), " RENAME COLUMN ", QuoteIdentifier(b), " TO ", QuoteIdentifier(c));
  }
}
