/** Stored rows stay as SQLite stores them: values in the form of their column's affinity, and no
    NULL in a sole INTEGER key. */
module StoredValues {
  import opened Text
  import opened SqlText
  import opened TypeMapping
  import opened Catalog
  import opened ColumnRewrite
  import opened LogicalSchema

  /** What is known of storing: a value stored again under the same affinity does not change,
      NULL stays NULL, and an INTEGER column stores integers as they are. */
  ghost predicate Lawful(e: Storage) {
    && (forall a, v :: e.coerce(a, e.coerce(a, v)) == e.coerce(a, v))
    && (forall a :: e.coerce(a, VNull) == VNull)
    && (forall n :: e.coerce(INTEGER, VInteger(n)) == VInteger(n))
  }

  ghost predicate AllStored(e: Storage, cat: Catalog) { forall f | f in cat.tables :: StoredRows(e, cat.tables[f]) }

  lemma OneStoredChanged(e: Storage, cat: Catalog, f: string, t: Table)
    requires ColumnRewrite.StoredRows(e, t) && AllStored(e, cat)
    ensures AllStored(e, cat.(tables := cat.tables[f := t]))
  {
  }

  lemma IntegerAffinity(decl: string)
    requires Fold(decl) == "integer"
    ensures AffinityOf(decl) == INTEGER
  {
    assert Fold("INTEGER") == "integer";
    FoldIsUpperEquality(decl, "INTEGER");
    assert Upper("INTEGER") == "INTEGER";
    ContainsAt("INTEGER", "INT", 0);
  }

  /** A sole INTEGER key is the rowid, except in a WITHOUT ROWID table. */
  lemma SoleIsAlias(t: Table, j: nat)
    requires j < |t.cols| && SoleInteger(t.cols, j) && !t.withoutRowid
    ensures AliasColumn(t) == Some(j)
  {
    var i := FindPosition(t.cols, 1).value;
    if i < j { var a, b := EntryOf(t.cols, i, j); }
    if j < i { var a, b := EntryOf(t.cols, j, i); }
  }

  lemma ConvertedSettled(e: Storage, c: Column, v: Value)
    requires Lawful(e)
    ensures Settled(e, c, e.coerce(AffinityOf(c.decl), v)) && Settled(e, c, VNull)
  {
  }

  /** What InsertRow puts in. */
  lemma InsertedRow(e: Storage, t: Table, raw: seq<Value>) returns (row: seq<Value>)
    requires |raw| == |t.cols| && InsertRow(e, t, raw).Some?
    ensures InsertRow(e, t, raw).value == t.(rows := t.rows + [row]) && |row| == |t.cols|
    ensures AliasColumn(t).Some? ==> row[AliasColumn(t).value].VInteger?
    ensures forall i | 0 <= i < |row| :: t.withoutRowid && t.cols[i].pk > 0 ==> row[i] != VNull
    ensures forall j | 0 <= j < |row| && AliasColumn(t) != Some(j) ::
              row[j] == e.coerce(AffinityOf(t.cols[j].decl), raw[j])
    ensures AliasColumn(t).Some? ==>
              var a := AliasColumn(t).value;
              row[a] == e.coerce(AffinityOf(t.cols[a].decl), raw[a]) || Fold(t.cols[a].decl) == "integer"
  {
    row := RowToStore(e, t, raw);
  }

  lemma InsertedStored(e: Storage, t: Table, raw: seq<Value>)
    requires Lawful(e) && |raw| == |t.cols| && InsertRow(e, t, raw).Some? && StoredRows(e, t)
    ensures StoredRows(e, InsertRow(e, t, raw).value)
  {
    var row := InsertedRow(e, t, raw);
    forall j: nat | j < |row| ensures Settled(e, t.cols[j], row[j]) && (SoleInteger(t.cols, j) ==> row[j] != VNull) {
      ConvertedSettled(e, t.cols[j], raw[j]);
      if AliasColumn(t) == Some(j) {
        if Fold(t.cols[j].decl) == "integer" { IntegerAffinity(t.cols[j].decl); }
      }
      if SoleInteger(t.cols, j) && !t.withoutRowid { SoleIsAlias(t, j); }
    }
    assert StoredRow(e, t.cols, row);
    var t1 := InsertRow(e, t, raw).value;
    forall i | 0 <= i < |t1.rows| ensures StoredRow(e, t1.cols, t1.rows[i]) {
      if i < |t.rows| { assert t1.rows[i] == t.rows[i]; }
    }
  }

  lemma {:induction false} InsertedAllStored(e: Storage, t: Table, raws: seq<seq<Value>>)
    requires Lawful(e) && (forall i | 0 <= i < |raws| :: |raws[i]| == |t.cols|) && InsertRows(e, t, raws).Some?
             && StoredRows(e, t)
    ensures StoredRows(e, InsertRows(e, t, raws).value)
    decreases |raws|
  {
    if raws != [] {
      InsertedStored(e, t, raws[0]);
      InsertedAllStored(e, InsertRow(e, t, raws[0]).value, raws[1..]);
    }
  }

  // ---- Every step keeps stored rows ----

  lemma CopyKeepsStored(e: Storage, cat: Catalog, st: Statement)
    requires Lawful(e) && AllStored(e, cat) && st.CopyRows? && CopyStep(e, cat, st).Some?
    ensures AllStored(e, CopyStep(e, cat, st).value)
  {
    var t, s := cat.tables[Fold(st.target)], cat.tables[Fold(st.source)];
    var places := Resolve(s.cols, st.cols).value;
    var raws := seq(|s.rows|, i requires 0 <= i < |s.rows| => Offered(t.cols, st.into, places, s.rows[i]));
    InsertedAllStored(e, t, raws);
    OneStoredChanged(e, cat, Fold(st.target), InsertRows(e, t, raws).value);
  }

  lemma AddedStored(e: Storage, cols: seq<Column>, c: Column, row: seq<Value>)
    requires Lawful(e) && StoredRow(e, cols, row) && c.pk == 0
    ensures StoredRow(e, cols + [c], row + [VNull])
  {
    AppendedKey(cols, c);
    forall j: nat | j < |cols| + 1
      ensures Settled(e, (cols + [c])[j], (row + [VNull])[j])
              && (SoleInteger(cols + [c], j) ==> (row + [VNull])[j] != VNull)
    {
      if j < |cols| {
        assert Settled(e, cols[j], row[j]) && (SoleInteger(cols, j) ==> row[j] != VNull);
      } else {
        ConvertedSettled(e, c, VNull);
      }
    }
  }

  lemma RemovedStored(e: Storage, cols: seq<Column>, i: nat, row: seq<Value>)
    requires StoredRow(e, cols, row) && i < |cols| && cols[i].pk == 0
    ensures StoredRow(e, Without(cols, i), Without(row, i))
  {
    RemovedKey(cols, i);
    var cols', row' := Without(cols, i), Without(row, i);
    forall j: nat | j < |cols'| ensures Settled(e, cols'[j], row'[j]) && (SoleInteger(cols', j) ==> row'[j] != VNull) {
      var k: nat := if j < i then j else j + 1;
      assert cols'[j] == cols[k] && row'[j] == row[k];
      assert Settled(e, cols[k], row[k]) && (SoleInteger(cols, k) ==> row[k] != VNull);
    }
  }

  lemma {:induction false} SameCount(a: seq<Column>, b: seq<Column>)
    requires |a| == |b| && forall j | 0 <= j < |a| :: a[j].pk == b[j].pk
    ensures |KeyEntries(a)| == |KeyEntries(b)|
    decreases |a|
  {
    if a != [] { SameCount(a[..|a| - 1], b[..|b| - 1]); }
  }

  lemma RenamedStored(e: Storage, cols: seq<Column>, i: nat, n: string, row: seq<Value>)
    requires StoredRow(e, cols, row) && i < |cols|
    ensures StoredRow(e, cols[i := cols[i].(name := n)], row)
  {
    var cols' := cols[i := cols[i].(name := n)];
    SameCount(cols, cols');
    forall j: nat | j < |cols'| ensures Settled(e, cols'[j], row[j]) && (SoleInteger(cols', j) ==> row[j] != VNull) {
      assert Settled(e, cols[j], row[j]) && (SoleInteger(cols, j) ==> row[j] != VNull);
    }
  }

  lemma AddKeepsStored(e: Storage, cat: Catalog, name: string, d: ColumnDecl)
    requires Lawful(e) && AllStored(e, cat) && AddColumnStep(cat, name, d).Some?
    ensures AllStored(e, AddColumnStep(cat, name, d).value)
  {
    var t, t' := cat.tables[Fold(name)], AddColumnStep(cat, name, d).value.tables[Fold(name)];
    forall i | 0 <= i < |t'.rows| ensures StoredRow(e, t'.cols, t'.rows[i]) {
      AddedStored(e, t.cols, Column(d.name, d.decl, d.suffix == NotNull, 0), t.rows[i]);
    }
    OneStoredChanged(e, cat, Fold(name), t');
  }

  lemma DropKeepsStored(e: Storage, cat: Catalog, name: string, column: string)
    requires AllStored(e, cat) && DropColumnStep(cat, name, column).Some?
    ensures AllStored(e, DropColumnStep(cat, name, column).value)
  {
    var t, t' := cat.tables[Fold(name)], DropColumnStep(cat, name, column).value.tables[Fold(name)];
    var k := FindColumn(t.cols, column).value;
    forall i | 0 <= i < |t'.rows| ensures StoredRow(e, t'.cols, t'.rows[i]) {
      RemovedStored(e, t.cols, k, t.rows[i]);
    }
    OneStoredChanged(e, cat, Fold(name), t');
  }

  lemma RenameKeepsStored(e: Storage, cat: Catalog, name: string, o: string, n: string)
    requires AllStored(e, cat) && RenameColumnStep(cat, name, o, n).Some?
    ensures AllStored(e, RenameColumnStep(cat, name, o, n).value)
  {
    var t, t' := cat.tables[Fold(name)], RenameColumnStep(cat, name, o, n).value.tables[Fold(name)];
    var k := FindColumn(t.cols, o).value;
    forall i | 0 <= i < |t'.rows| ensures StoredRow(e, t'.cols, t'.rows[i]) {
      RenamedStored(e, t.cols, k, n, t.rows[i]);
    }
    OneStoredChanged(e, cat, Fold(name), t');
  }

  lemma TableStepsKeepStored(e: Storage, cat: Catalog, st: Statement, c': Option<Catalog>)
    requires AllStored(e, cat)
    requires || (st.CreateTable? && c' == CreateTableStep(cat, st))
             || (st.RenameTable? && c' == RenameTableStep(cat, st.table, st.newName))
             || (st.DropTable? && c' == DropTableStep(cat, st.name, st.ifExists))
             || (st.DropIndex? && c' == DropIndexStep(cat, st.name, st.ifExists))
    ensures c'.Some? ==> AllStored(e, c'.value)
  {
  }

  lemma IndexKeepsStored(e: Storage, cat: Catalog, st: Statement)
    requires AllStored(e, cat) && st.CreateIndex? && CreateIndexStep(e, cat, st).Some?
    ensures AllStored(e, CreateIndexStep(e, cat, st).value)
  {
  }

  /** No statement leaves a row that SQLite would not store so. */
  lemma StepKeepsStored(e: Storage, cat: Catalog, st: Statement)
    requires Lawful(e) && AllStored(e, cat) && Step(e, cat, st).Some?
    ensures AllStored(e, Step(e, cat, st).value)
  {
    if st.CopyRows? { CopyKeepsStored(e, cat, st); }
    else if st.CreateIndex? { IndexKeepsStored(e, cat, st); }
    else if st.AddColumn? { AddKeepsStored(e, cat, st.table, st.col); }
    else if st.DropColumn? { DropKeepsStored(e, cat, st.table, st.name); }
    else if st.RenameColumn? { RenameKeepsStored(e, cat, st.table, st.oldName, st.newName); }
    else { TableStepsKeepStored(e, cat, st, Step(e, cat, st)); }
  }
}
