/** When the four statements of a column rewrite go through: with the names free, exactly when the
    rows it copies meet the checks of the new table. On rows as SQLite stores them, and a rewrite
    that keeps the type, nothing but a NULL can stand in its way. */
module RewriteSucceeds {
  import opened Text
  import opened DbSchema
  import opened SqlText
  import opened TypeMapping
  import opened SqlGen
  import opened Catalog
  import opened SchemaModifier
  import opened ColumnRewrite
  import opened StoredValues
  import opened RowChecks
  import SqlParser

  // ---- The body of the new table ----

  lemma {:induction false} NoInline(decls: seq<ColumnDecl>)
    requires forall i | 0 <= i < |decls| :: !InlineDecl(decls[i])
    ensures CountInline(decls) == 0
    decreases |decls|
  {
    if decls != [] { NoInline(decls[1..]); }
  }

  lemma {:induction false} OneInline(decls: seq<ColumnDecl>, k: nat)
    requires k < |decls| && forall i | 0 <= i < |decls| && i != k :: !InlineDecl(decls[i])
    ensures CountInline(decls) <= 1
    decreases |decls|
  {
    if k == 0 { NoInline(decls[1..]); } else { OneInline(decls[1..], k - 1); }
  }

  lemma KeyNamesDistinct(cols: seq<Column>)
    requires DistinctColumns(cols) && NumberedKey(cols)
    ensures DistinctNames(KeyOf(cols))
  {
    var key := KeyOf(cols);
    forall i, j | 0 <= i < j < |key| ensures Fold(key[i]) != Fold(key[j]) {
      var a := KeyOfColumn(cols, i);
      var b := KeyOfColumn(cols, j);
      assert Fold(cols[a].name) != Fold(cols[b].name);
    }
  }

  lemma Found(cols: seq<Column>, names: seq<string>)
    requires forall k | 0 <= k < |names| :: Sees(cols, names[k])
    ensures Resolve(cols, names).Some?
  {
    forall k | 0 <= k < |names| ensures FindColumn(cols, names[k]).Some? {
      assert Sees(cols, names[k]);
      SeenFound(cols, names[k]);
    }
  }

  lemma SeenFound(cols: seq<Column>, name: string)
    requires Sees(cols, name)
    ensures FindColumn(cols, name).Some?
  {
    var i :| 0 <= i < |cols| && cols[i].name == name;
  }

  lemma SeenAlike(made: seq<Column>, cols: seq<Column>, i: nat)
    requires NamesOf(made) == NamesOf(cols) && i < |cols|
    ensures Sees(made, cols[i].name)
  {
    assert |made| == |NamesOf(made)| == |cols|;
    assert NamesOf(made)[i] == NamesOf(cols)[i];
    assert made[i].name == cols[i].name;
  }

  lemma KeyFound(cols: seq<Column>, made: seq<Column>)
    requires NumberedKey(cols) && NamesOf(made) == NamesOf(cols)
    ensures Resolve(made, KeyOf(cols)).Some?
  {
    forall k | 0 <= k < |KeyOf(cols)| ensures Sees(made, KeyOf(cols)[k]) {
      var i := KeyOfColumn(cols, k);
      SeenAlike(made, cols, i);
    }
    Found(made, KeyOf(cols));
  }

  lemma SameNamesDistinct(cols: seq<Column>, made: seq<Column>)
    requires DistinctColumns(cols) && NamesOf(made) == NamesOf(cols)
    ensures DistinctColumns(made)
  {
    forall i, j | 0 <= i < j < |made| ensures Fold(made[i].name) != Fold(made[j].name) {
      assert |NamesOf(made)| == |NamesOf(cols)|;
      assert NamesOf(made)[i] == NamesOf(cols)[i] && NamesOf(made)[j] == NamesOf(cols)[j];
    }
  }

  /** A declaration of the rewrite is an inline key only as the changed column that is the key. */
  lemma InlineDeclIs(table: string, name: string, d: FieldDef, cols: seq<Column>, i: nat)
    requires DistinctColumns(cols) && NumberedKey(cols) && Builds(name, d, cols) && i < |cols|
    ensures var def := Rewritten(table, name, d, cols);
            InlineDecl(FieldDecls(def)[i]) ==>
                InlineKey(def) && cols[i].name == name && FieldDecls(def)[i].decl == "INTEGER"
  {
    var def := Rewritten(table, name, d, cols);
    assert def.fields[i] == RewrittenField(cols[i], name, d);
    assert FieldDecls(def)[i] == FieldDecl(def, def.fields[i]);
    if InlineKey(def) { InlineRewritten(table, name, d, cols); }
  }

  /** At most one declaration of the rewrite is an inline key, and it is an INTEGER. */
  lemma InlineDecls(table: string, name: string, d: FieldDef, cols: seq<Column>)
    requires DistinctColumns(cols) && NumberedKey(cols) && Builds(name, d, cols)
    ensures var def := Rewritten(table, name, d, cols); CountInline(FieldDecls(def)) <= if InlineKey(def) then 1 else 0
    ensures var decls := FieldDecls(Rewritten(table, name, d, cols));
            forall i | 0 <= i < |decls| :: InlineDecl(decls[i]) ==> Fold(decls[i].decl) == "integer"
  {
    var def := Rewritten(table, name, d, cols);
    var decls := FieldDecls(def);
    forall i | 0 <= i < |decls|
      ensures InlineDecl(decls[i]) ==> InlineKey(def) && cols[i].name == name && decls[i].decl == "INTEGER"
    {
      InlineDeclIs(table, name, d, cols, i);
    }
    assert Fold("INTEGER") == "integer";
    if InlineKey(def) {
      InlineRewritten(table, name, d, cols);
      var k := KeyOfColumn(cols, 0);
      forall i | 0 <= i < |decls| && i != k ensures !InlineDecl(decls[i]) { OtherName(cols, i, k); }
      OneInline(decls, k);
    } else {
      NoInline(decls);
    }
  }

  lemma NewBodyValid(table: string, name: string, d: FieldDef, cols: seq<Column>)
    requires cols != [] && DistinctColumns(cols) && NumberedKey(cols) && Builds(name, d, cols)
    ensures var def := Rewritten(table, name, d, cols);
            ValidBody(FieldDecls(def), if InlineKey(def) then [] else def.primaryKey)
  {
    var made := NewColumns(table, name, d, cols);
    NewColumnNames(table, name, d, cols);
    SameNamesDistinct(cols, made);
    InlineDecls(table, name, d, cols);
    KeyNamesDistinct(cols);
    KeyFound(cols, made);
  }

  // ---- The statements ----

  /** Nothing has either name yet, SQLite keeps neither for itself, and both can be written. */
  predicate FreeNames(cat: Catalog, table: string) {
    && !Reserved(table) && !Reserved(table + "_new") && SqlParser.NulFree(table)
    && Fold(table + "_new") !in cat.tables
    && !IndexNamed(cat.indexes, Fold(table)) && !IndexNamed(cat.indexes, Fold(table + "_new"))
  }

  predicate WritableNames(cols: seq<Column>) { forall i | 0 <= i < |cols| :: SqlParser.NulFree(cols[i].name) }

  lemma NewNameWritable(table: string)
    requires SqlParser.NulFree(table)
    ensures SqlParser.NulFree(table + "_new")
  {
  }

  lemma WritableBody(table: string, name: string, d: FieldDef, cols: seq<Column>)
    requires cols != [] && NumberedKey(cols) && Builds(name, d, cols) && WritableNames(cols)
    ensures var def := Rewritten(table, name, d, cols);
            SqlParser.ReadableBody(FieldDecls(def), if InlineKey(def) then [] else def.primaryKey)
  {
    var def := Rewritten(table, name, d, cols);
    forall i | 0 <= i < |FieldDecls(def)| ensures SqlParser.NulFree(FieldDecls(def)[i].name) {
      assert def.fields[i] == RewrittenField(cols[i], name, d);
    }
    forall k | 0 <= k < |def.primaryKey| ensures SqlParser.NulFree(def.primaryKey[k]) {
      var i := KeyOfColumn(cols, k);
    }
  }

  lemma CreateGoes(e: Storage, cat: Catalog, table: string, name: string, d: FieldDef, cols: seq<Column>)
    returns (st: Statement, t: Table, c1: Catalog)
    requires cols != [] && DistinctColumns(cols) && NumberedKey(cols) && Builds(name, d, cols) && WritableNames(cols)
    requires FreeNames(cat, table)
    ensures CreateTableStatement(Rewritten(table, name, d, cols), NO_OPTIONS) == Some(st)
    ensures Emitted(e, cat, st) == Some(c1) && c1 == cat.(tables := cat.tables[Fold(table + "_new") := t])
    ensures NamesOf(t.cols) == NamesOf(cols) && t.rows == []
  {
    var def := Rewritten(table, name, d, cols);
    st := CreateTableStatement(def, NO_OPTIONS).value;
    NewNameWritable(table);
    WritableBody(table, name, d, cols);
    NewBodyValid(table, name, d, cols);
    NewColumnNames(table, name, d, cols);
    t := NewTable(st.name, st.decls, st.key);
    c1 := cat.(tables := cat.tables[Fold(table + "_new") := t]);
  }

  lemma NamesFound(source: seq<Column>, cols: seq<Column>, made: seq<Column>)
    requires cols <= source && NamesOf(made) == NamesOf(cols)
    ensures Resolve(made, NamesOf(cols)).Some? && Resolve(source, NamesOf(cols)).Some?
  {
    forall k | 0 <= k < |cols| ensures Sees(made, NamesOf(cols)[k]) && Sees(source, NamesOf(cols)[k]) {
      SeenAlike(made, cols, k);
      assert source[k].name == NamesOf(cols)[k];
    }
    Found(made, NamesOf(cols));
    Found(source, NamesOf(cols));
  }

  /** The rows a copy of the first n columns offers. */
  function OfferedRows(t: Table, n: nat): (r: seq<seq<Value>>)
    requires n <= |t.cols|
    ensures |r| == |t.rows| && forall i | 0 <= i < |r| :: |r[i]| == n
  {
    seq(|t.rows|, i requires 0 <= i < |t.rows| => t.rows[i][..n])
  }

  /** What the copy offers, columns standing alike, are the rows themselves. */
  lemma OfferedThemselves(s: Table, t: Table, cols: seq<Column>, places: seq<nat>)
    requires cols <= s.cols && DistinctColumns(s.cols) && NamesOf(t.cols) == NamesOf(cols)
    requires Resolve(s.cols, NamesOf(cols)) == Some(places)
    ensures forall i, k | 0 <= i < |s.rows| && 0 <= k < |places| :: places[k] < |s.rows[i]|
    ensures seq(|s.rows|, i requires 0 <= i < |s.rows| => Offered(t.cols, NamesOf(cols), places, s.rows[i]))
            == OfferedRows(s, |cols|)
  {
    assert |NamesOf(t.cols)| == |NamesOf(cols)|;
    forall i | 0 <= i < |s.rows| ensures Offered(t.cols, NamesOf(cols), places, s.rows[i]) == s.rows[i][..|cols|] {
      OfferedInOrder(t.cols, s.cols, cols, places, s.rows[i]);
    }
  }

  lemma CopyInserts(e: Storage, c1: Catalog, st: Statement, cols: seq<Column>)
    requires st.CopyRows? && st.into == st.cols == NamesOf(cols)
    requires Fold(st.target) in c1.tables && Fold(st.source) in c1.tables
    requires var s, t := c1.tables[Fold(st.source)], c1.tables[Fold(st.target)];
             cols <= s.cols && DistinctColumns(s.cols) && NamesOf(t.cols) == NamesOf(cols)
    ensures var s, t := c1.tables[Fold(st.source)], c1.tables[Fold(st.target)];
            && |t.cols| == |cols|
            && CopyStep(e, c1, st) == match InsertRows(e, t, OfferedRows(s, |cols|))
                                      case None => None
                                      case Some(t1) => Some(c1.(tables := c1.tables[Fold(st.target) := t1]))
  {
    var s, t := c1.tables[Fold(st.source)], c1.tables[Fold(st.target)];
    assert |NamesOf(t.cols)| == |NamesOf(cols)|;
    NamesFound(s.cols, cols, t.cols);
    OfferedThemselves(s, t, cols, Resolve(s.cols, st.cols).value);
  }

  /** A copy into an empty table goes through exactly when all the rows it puts in meet the
      table's checks. */
  lemma CopyGoesIff(e: Storage, c1: Catalog, st: Statement, cols: seq<Column>)
    requires st.CopyRows? && st.into == st.cols == NamesOf(cols)
    requires Fold(st.target) in c1.tables && Fold(st.source) in c1.tables
    requires var s, t := c1.tables[Fold(st.source)], c1.tables[Fold(st.target)];
             cols <= s.cols && DistinctColumns(s.cols) && NamesOf(t.cols) == NamesOf(cols) && t.rows == []
    ensures |c1.tables[Fold(st.target)].cols| == |cols|
    ensures var s, t, r := c1.tables[Fold(st.source)], c1.tables[Fold(st.target)], CopyStep(e, c1, st);
            && (r.Some? <==> CopyFits(e, s, t))
            && (r.Some? ==> r.value.tables.Keys == c1.tables.Keys && r.value == c1.(tables := r.value.tables))
  {
    var s, t := c1.tables[Fold(st.source)], c1.tables[Fold(st.target)];
    CopyInserts(e, c1, st, cols);
    NoRowsChecked(e, t);
    InsertRowsIff(e, t, OfferedRows(s, |cols|));
  }

  lemma CopyIsEmitted(e: Storage, c1: Catalog, table: string, cols: seq<Column>)
    requires SqlParser.NulFree(table) && WritableNames(cols) && cols != []
    ensures var st := CopyRows(table + "_new", NamesOf(cols), NamesOf(cols), table);
            Emitted(e, c1, st) == CopyStep(e, c1, st)
  {
    NewNameWritable(table);
  }

  /** The rows of a table, converted, meet the checks of the new one. */
  predicate CopyFits(e: Storage, t: Table, t': Table)
    requires |t'.cols| <= |t.cols|
  {
    RowsMeet(e, t'.cols, t'.withoutRowid, Filled(e, t', OfferedRows(t, |t'.cols|)))
  }

  lemma {:induction false} KeptUnnamed(indexes: seq<Index>, f: string, g: string)
    requires !IndexNamed(indexes, g)
    ensures !IndexNamed(KeepIndexes(indexes, f), g)
    decreases |indexes|
  {
    if indexes != [] {
      assert !IndexNamed(indexes[1..], g) by {
        forall i | 0 <= i < |indexes[1..]|
          ensures Fold(indexes[1..][i].name) != g { assert indexes[1..][i] == indexes[i + 1]; }
      }
      KeptUnnamed(indexes[1..], f, g);
      assert Fold(indexes[0].name) != g;
    }
  }

  lemma DropAndRenameGo(e: Storage, cat: Catalog, table: string) returns (c3: Catalog, c4: Catalog)
    requires Fold(table) in cat.tables && Fold(table + "_new") in cat.tables && SqlParser.NulFree(table)
    requires !Reserved(table) && !IndexNamed(cat.indexes, Fold(table))
    ensures Emitted(e, cat, SqlText.DropTable(false, table)) == Some(c3)
    ensures Emitted(e, c3, RenameTable(table + "_new", table)) == Some(c4)
  {
    NewNameDiffers(table);
    NewNameWritable(table);
    KeptUnnamed(cat.indexes, Fold(table), Fold(table));
    c3 := DropTableStep(cat, table, false).value;
    c4 := RenameTableStep(c3, table + "_new", table).value;
  }

  lemma RunFour(e: Storage, cat: Catalog, sts: seq<Statement>, c1: Catalog, c2: Catalog, c3: Catalog, c4: Catalog)
    requires |sts| == 4 && Emitted(e, cat, sts[0]) == Some(c1) && Emitted(e, c1, sts[1]) == Some(c2)
    requires Emitted(e, c2, sts[2]) == Some(c3) && Emitted(e, c3, sts[3]) == Some(c4)
    ensures Statements(e, cat, sts) == Some(c4)
  {
    assert sts[..4] == sts && sts[..0] == [];
    StatementsStep(e, cat, sts, 0);
    StatementsStep(e, cat, sts, 1);
    StatementsStep(e, cat, sts, 2);
    StatementsStep(e, cat, sts, 3);
  }

  /** The table the rewrite creates. */
  function NewTableOf(table: string, name: string, d: FieldDef, seen: seq<Column>): Table
    requires Builds(name, d, seen)
  {
    var def := Rewritten(table, name, d, seen);
    NewTable(table + "_new", FieldDecls(def), if InlineKey(def) then [] else def.primaryKey)
  }

  /** Whatever columns its introspection delivered, a rewrite of a column it saw goes through
      exactly when the rows it copies meet the new table's checks, provided the names are free and
      can be written. */
  lemma RewriteGoesIff(e: Storage, cat: Catalog, table: string, name: string, d: FieldDef, seen: seq<Column>)
    requires Fold(table) in cat.tables && DistinctColumns(cat.tables[Fold(table)].cols) && FreeNames(cat, table)
    requires seen <= cat.tables[Fold(table)].cols && WritableNames(seen)
    requires Sees(seen, name) && NumberedKey(seen) && Builds(name, d, seen)
    ensures |NewTableOf(table, name, d, seen).cols| == |seen|
    ensures RewriteSeeing(e, cat, table, name, d, seen).Some?
            <==> CopyFits(e, cat.tables[Fold(table)], NewTableOf(table, name, d, seen))
  {
    NewNameDiffers(table);
    var st, t, c1 := CreateGoes(e, cat, table, name, d, seen);
    CreateEffect(e, cat, st, c1);
    assert c1.tables[Fold(table + "_new")] == t == NewTableOf(table, name, d, seen);
    FromTheCopy(e, cat, table, st, c1, seen);
  }

  /** After the new table is there, the copy decides. */
  /** Once the rows are copied, nothing refuses the rest. */
  lemma RestGoes(e: Storage, cat: Catalog, table: string, sts: seq<Statement>, c1: Catalog, c2: Catalog)
    requires Fold(table) in c2.tables && Fold(table + "_new") in c2.tables && SqlParser.NulFree(table)
    requires !Reserved(table) && !IndexNamed(c2.indexes, Fold(table))
    requires |sts| == 4 && Emitted(e, cat, sts[0]) == Some(c1) && Emitted(e, c1, sts[1]) == Some(c2)
    requires sts[2] == SqlText.DropTable(false, table) && sts[3] == RenameTable(table + "_new", table)
    ensures Statements(e, cat, sts).Some?
  {
    var c3, c4 := DropAndRenameGo(e, c2, table);
    RunFour(e, cat, sts, c1, c2, c3, c4);
  }

  lemma FromTheCopy(e: Storage, cat: Catalog, table: string, st: Statement, c1: Catalog, cols: seq<Column>)
    requires Emitted(e, cat, st) == Some(c1) && FreeNames(cat, table) && WritableNames(cols) && cols != []
    requires Fold(table) in c1.tables && Fold(table + "_new") in c1.tables && c1.indexes == cat.indexes
    requires var s, t := c1.tables[Fold(table)], c1.tables[Fold(table + "_new")];
             cols <= s.cols && DistinctColumns(s.cols) && NamesOf(t.cols) == NamesOf(cols) && t.rows == []
    ensures |c1.tables[Fold(table + "_new")].cols| == |cols|
    ensures Statements(e, cat, RewriteStatements(table, st, NamesOf(cols))).Some?
            <==> CopyFits(e, c1.tables[Fold(table)], c1.tables[Fold(table + "_new")])
  {
    var sts := RewriteStatements(table, st, NamesOf(cols));
    CopyGoesIff(e, c1, sts[1], cols);
    CopyIsEmitted(e, c1, table, cols);
    if CopyStep(e, c1, sts[1]).Some? {
      RestGoes(e, cat, table, sts, c1, CopyStep(e, c1, sts[1]).value);
    } else if Statements(e, cat, sts).Some? {
      var d1, d2, d3, d4 := FourSteps(e, cat, sts);
    }
  }

  /** So on a table without rows it always goes through. */
  lemma EmptyTableRewrites(e: Storage, cat: Catalog, table: string, name: string, d: FieldDef, seen: seq<Column>)
    requires Fold(table) in cat.tables && DistinctColumns(cat.tables[Fold(table)].cols) && FreeNames(cat, table)
    requires seen <= cat.tables[Fold(table)].cols && WritableNames(seen) && cat.tables[Fold(table)].rows == []
    requires Sees(seen, name) && NumberedKey(seen) && Builds(name, d, seen)
    ensures RewriteSeeing(e, cat, table, name, d, seen).Some?
  {
    RewriteGoesIff(e, cat, table, name, d, seen);
    assert OfferedRows(cat.tables[Fold(table)], |seen|) == [];
  }

  // ---- Rewrites that keep the type ----

  /** The new table takes no NULL in the column: none in the key, and in the changed column none
      when it is redefined so, but for a column outside a key of several columns and for a rowid. */
  predicate NullForbidden(cols: seq<Column>, name: string, d: FieldDef, j: nat)
    requires j < |cols|
  {
    if cols[j].name != name then cols[j].pk > 0
    else !d.nullable && (|KeyOf(cols)| <= 1 || cols[j].pk > 0)
         && !(KeyOf(cols) == [name] && d.typ == Int && d.autoIncrement)
  }

  predicate NoForbiddenNull(t: Table, name: string, d: FieldDef) {
    forall i, j: nat | 0 <= i < |t.rows| && j < |t.cols| && NullForbidden(t.cols, name, d, j) ::
      t.rows[i][j] != VNull
  }

  /** The changed column is redefined with the type it is written as already. */
  predicate TypeKept(cols: seq<Column>, name: string, d: FieldDef) {
    forall j | 0 <= j < |cols| :: cols[j].name == name ==> SqliteTypeFor(d.typ) == Some(cols[j].decl)
  }

  /** A row that the new table would store as it is. */
  ghost predicate StoredAsIs(e: Storage, t: Table, row: seq<Value>) {
    && |row| == |t.cols| && Coerced(e, t.cols, row) == row
    && (AliasColumn(t).Some? ==> row[AliasColumn(t).value] != VNull)
  }

  lemma {:induction false} FilledAsIs(e: Storage, t: Table, raws: seq<seq<Value>>)
    requires forall i | 0 <= i < |raws| :: |raws[i]| == |t.cols| && StoredAsIs(e, t, raws[i])
    ensures Filled(e, t, raws) == t.rows + raws
    decreases |raws|
  {
    if raws != [] {
      var t1 := t.(rows := t.rows + [raws[0]]);
      assert RowToStore(e, t, raws[0]) == raws[0];
      forall i | 0 <= i < |raws[1..]| ensures |raws[1..][i]| == |t.cols| && StoredAsIs(e, t1, raws[1..][i]) {
        assert StoredAsIs(e, t, raws[i + 1]);
      }
      FilledAsIs(e, t1, raws[1..]);
      assert t.rows + [raws[0]] + raws[1..] == t.rows + raws;
    } else {
      assert t.rows + raws == t.rows;
    }
  }

  /** Same types and key positions. */
  predicate SameShape(cols: seq<Column>, cols': seq<Column>) {
    |cols'| == |cols| && forall j | 0 <= j < |cols| :: cols'[j].decl == cols[j].decl && cols'[j].pk == cols[j].pk
  }

  lemma NewShape(table: string, name: string, d: FieldDef, cols: seq<Column>)
    requires DistinctColumns(cols) && NumberedKey(cols) && Builds(name, d, cols) && AllEmitted(cols)
             && TypeKept(cols, name, d)
    ensures SameShape(cols, NewColumns(table, name, d, cols))
  {
    forall j: nat | j < |cols|
      ensures NewColumns(table, name, d, cols)[j].decl == cols[j].decl
      ensures NewColumns(table, name, d, cols)[j].pk == cols[j].pk
    {
      RewrittenColumn(table, name, d, cols, j);
    }
  }

  lemma SameSole(cols: seq<Column>, cols': seq<Column>, j: nat)
    requires SameShape(cols, cols') && j < |cols|
    ensures SoleInteger(cols', j) <==> SoleInteger(cols, j)
  {
    SameCount(cols, cols');
  }

  lemma StoredStays(e: Storage, t: Table, t': Table, row: seq<Value>)
    requires SameShape(t.cols, t'.cols) && StoredRow(e, t.cols, row)
    ensures StoredAsIs(e, t', row)
  {
    forall j: nat | j < |t'.cols| ensures e.coerce(AffinityOf(t'.cols[j].decl), row[j]) == row[j] {
      assert Settled(e, t.cols[j], row[j]);
    }
    if AliasColumn(t').Some? {
      var a := AliasColumn(t').value;
      AliasIsSole(t', a);
      SameSole(t.cols, t'.cols, a);
      assert Settled(e, t.cols[a], row[a]);
    }
  }

  lemma SameClashes(e: Storage, cols: seq<Column>, cols': seq<Column>, a: seq<Value>, b: seq<Value>)
    requires SameShape(cols, cols') && |a| == |b| == |cols|
    ensures KeyClash(e, cols', a, b) <==> KeyClash(e, cols, a, b)
  {
    assert (exists i | 0 <= i < |cols'| :: cols'[i].pk > 0) <==> (exists i | 0 <= i < |cols| :: cols[i].pk > 0);
  }

  /** Rows that met the old checks meet the new ones exactly when no NULL is newly forbidden. */
  lemma ChecksOfShape(e: Storage, t: Table, cols': seq<Column>)
    requires Checked(e, t) && !t.withoutRowid && SameShape(t.cols, cols')
    ensures RowsMeet(e, cols', false, t.rows)
            <==> forall i, j: nat | 0 <= i < |t.rows| && j < |cols'| && cols'[j].notNull :: t.rows[i][j] != VNull
  {
    if RowsMeet(e, cols', false, t.rows) {
      forall i, j: nat | 0 <= i < |t.rows| && j < |cols'| && cols'[j].notNull ensures t.rows[i][j] != VNull {
        assert RowMeets(cols', false, t.rows[i]) && CellMeets(cols', false, j, t.rows[i][j]);
      }
    }
    if forall i, j: nat | 0 <= i < |t.rows| && j < |cols'| && cols'[j].notNull :: t.rows[i][j] != VNull {
      forall i | 0 <= i < |t.rows| ensures RowMeets(cols', false, t.rows[i]) {
        forall j: nat | j < |cols'| ensures CellMeets(cols', false, j, t.rows[i][j]) {
          SameSole(t.cols, cols', j);
          assert RowMeets(t.cols, false, t.rows[i]) && CellMeets(t.cols, false, j, t.rows[i][j]);
        }
      }
      forall i, k | 0 <= i < k < |t.rows| ensures !KeyClash(e, cols', t.rows[i], t.rows[k]) {
        SameClashes(e, t.cols, cols', t.rows[i], t.rows[k]);
      }
    }
  }

  lemma ForbiddenAlike(e: Storage, t: Table, table: string, name: string, d: FieldDef)
    requires Checked(e, t) && !t.withoutRowid
    requires DistinctColumns(t.cols) && NumberedKey(t.cols) && Builds(name, d, t.cols)
    ensures var cols' := NewColumns(table, name, d, t.cols);
            (forall i, j: nat | 0 <= i < |t.rows| && j < |cols'| && cols'[j].notNull :: t.rows[i][j] != VNull)
            <==> NoForbiddenNull(t, name, d)
  {
    var cols' := NewColumns(table, name, d, t.cols);
    forall i, j: nat | 0 <= i < |t.rows| && j < |t.cols|
      ensures (cols'[j].notNull ==> t.rows[i][j] != VNull)
              <==> (NullForbidden(t.cols, name, d, j) ==> t.rows[i][j] != VNull)
    {
      RewrittenColumn(table, name, d, t.cols, j);
      assert RowMeets(t.cols, false, t.rows[i]) && CellMeets(t.cols, false, j, t.rows[i][j]);
    }
  }

  lemma AllOffered(t: Table)
    requires forall i | 0 <= i < |t.rows| :: |t.rows[i]| == |t.cols|
    ensures OfferedRows(t, |t.cols|) == t.rows
  {
    forall i | 0 <= i < |t.rows| ensures OfferedRows(t, |t.cols|)[i] == t.rows[i] {
      assert t.rows[i][..|t.cols|] == t.rows[i];
    }
  }

  /** On rows as SQLite stores them, a rewrite that keeps the type goes through exactly when no
      row has a NULL where the new table forbids it: no key clashes and no conversion fails. */
  lemma StoredRowsRewrite(e: Storage, cat: Catalog, table: string, name: string, d: FieldDef)
    requires Fold(table) in cat.tables && FreeNames(cat, table)
    requires var t := cat.tables[Fold(table)];
             && DistinctColumns(t.cols) && NumberedKey(t.cols) && AllEmitted(t.cols) && WritableNames(t.cols)
             && Checked(e, t) && StoredRows(e, t) && !t.withoutRowid
             && Sees(t.cols, name) && Builds(name, d, t.cols) && TypeKept(t.cols, name, d)
    ensures RewriteSeeing(e, cat, table, name, d, cat.tables[Fold(table)].cols).Some?
            <==> NoForbiddenNull(cat.tables[Fold(table)], name, d)
  {
    var t := cat.tables[Fold(table)];
    var t' := NewTableOf(table, name, d, t.cols);
    RewriteGoesIff(e, cat, table, name, d, t.cols);
    NewShape(table, name, d, t.cols);
    assert t'.cols == NewColumns(table, name, d, t.cols);
    AllOffered(t);
    forall i | 0 <= i < |t.rows| ensures StoredAsIs(e, t', t.rows[i]) { StoredStays(e, t, t', t.rows[i]); }
    FilledAsIs(e, t', t.rows);
    assert [] + t.rows == t.rows;
    ChecksOfShape(e, t, t'.cols);
    ForbiddenAlike(e, t, table, name, d);
  }
}
