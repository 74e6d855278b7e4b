/** The checks a table makes of its rows: no NULL where none is allowed, an integer for the rowid,
    no two rows with one key. A copy goes through exactly when all its rows meet them, and no
    statement leaves a row that does not. */
module RowChecks {
  import opened Text
  import opened SqlText
  import opened Catalog
  import opened ColumnRewrite
  import opened LogicalSchema
  import opened StoredValues

  // ---- The checks ----

  /** A sole INTEGER key is the rowid; a column that is NOT NULL, or in the key of a WITHOUT ROWID
      table, holds no NULL. */
  predicate CellMeets(cols: seq<Column>, withoutRowid: bool, j: nat, v: Value)
    requires j < |cols|
  {
    && (SoleInteger(cols, j) && !withoutRowid ==> v.VInteger?)
    && (cols[j].notNull || (withoutRowid && cols[j].pk > 0) ==> v != VNull)
  }

  predicate RowMeets(cols: seq<Column>, withoutRowid: bool, row: seq<Value>) {
    |row| == |cols| && forall j: nat | j < |cols| :: CellMeets(cols, withoutRowid, j, row[j])
  }

  predicate KeysApart(e: Storage, cols: seq<Column>, rows: seq<seq<Value>>)
    requires forall i | 0 <= i < |rows| :: |rows[i]| == |cols|
  {
    forall i, k | 0 <= i < k < |rows| :: !KeyClash(e, cols, rows[i], rows[k])
  }

  predicate RowsMeet(e: Storage, cols: seq<Column>, withoutRowid: bool, rows: seq<seq<Value>>) {
    && (forall i | 0 <= i < |rows| :: RowMeets(cols, withoutRowid, rows[i]))
    && KeysApart(e, cols, rows)
  }

  ghost predicate Checked(e: Storage, t: Table) { RowsMeet(e, t.cols, t.withoutRowid, t.rows) }

  ghost predicate AllChecked(e: Storage, cat: Catalog) { forall f | f in cat.tables :: Checked(e, cat.tables[f]) }

  // ---- Inserting ----

  lemma AliasIsSole(t: Table, j: nat)
    requires j < |t.cols|
    ensures AliasColumn(t) == Some(j) <==> SoleInteger(t.cols, j) && !t.withoutRowid
  {
    if SoleInteger(t.cols, j) && !t.withoutRowid { SoleIsAlias(t, j); }
  }

  lemma AllowedMeets(t: Table, row: seq<Value>)
    requires |row| == |t.cols|
    ensures RowAllowed(t, row) <==> RowMeets(t.cols, t.withoutRowid, row)
  {
    forall j: nat | j < |t.cols| ensures AliasColumn(t) == Some(j) <==> SoleInteger(t.cols, j) && !t.withoutRowid {
      AliasIsSole(t, j);
    }
    if RowMeets(t.cols, t.withoutRowid, row) {
      forall i | 0 <= i < |row| && (t.cols[i].notNull || (t.withoutRowid && t.cols[i].pk > 0)) ensures row[i] != VNull {
        assert CellMeets(t.cols, t.withoutRowid, i, row[i]);
      }
      if AliasColumn(t).Some? {
        var a := AliasColumn(t).value;
        assert CellMeets(t.cols, t.withoutRowid, a, row[a]);
      }
    }
  }

  /** One row more meets the checks exactly when it is allowed and its key is new. */
  lemma OneMoreMeets(e: Storage, cols: seq<Column>, withoutRowid: bool, rows: seq<seq<Value>>, row: seq<Value>)
    requires RowsMeet(e, cols, withoutRowid, rows) && |row| == |cols|
    ensures RowsMeet(e, cols, withoutRowid, rows + [row])
            <==> RowMeets(cols, withoutRowid, row) && forall k | 0 <= k < |rows| :: !KeyClash(e, cols, rows[k], row)
  {
    var more := rows + [row];
    if RowsMeet(e, cols, withoutRowid, more) {
      assert more[|rows|] == row;
      forall k | 0 <= k < |rows| ensures !KeyClash(e, cols, rows[k], row) { assert more[k] == rows[k]; }
    }
  }

  lemma PrefixMeets(e: Storage, cols: seq<Column>, withoutRowid: bool, rows: seq<seq<Value>>, more: seq<seq<Value>>)
    requires rows <= more && RowsMeet(e, cols, withoutRowid, more)
    ensures RowsMeet(e, cols, withoutRowid, rows)
  {
    forall i | 0 <= i < |rows| ensures RowMeets(cols, withoutRowid, rows[i]) { assert rows[i] == more[i]; }
  }

  /** The rows the table would hold if every row offered were put in unchecked. */
  function Filled(e: Storage, t: Table, raws: seq<seq<Value>>): (r: seq<seq<Value>>)
    requires forall i | 0 <= i < |raws| :: |raws[i]| == |t.cols|
    ensures t.rows <= r && forall i | |t.rows| <= i < |r| :: |r[i]| == |t.cols|
    decreases |raws|
  {
    if raws == [] then t.rows else Filled(e, t.(rows := t.rows + [RowToStore(e, t, raws[0])]), raws[1..])
  }

  /** Inserting row after row goes through exactly when all of them together meet the checks. */
  lemma {:induction false} InsertRowsIff(e: Storage, t: Table, raws: seq<seq<Value>>)
    requires Checked(e, t) && forall i | 0 <= i < |raws| :: |raws[i]| == |t.cols|
    ensures InsertRows(e, t, raws).Some? <==> RowsMeet(e, t.cols, t.withoutRowid, Filled(e, t, raws))
    ensures InsertRows(e, t, raws).Some? ==> InsertRows(e, t, raws).value == t.(rows := Filled(e, t, raws))
    decreases |raws|
  {
    if raws != [] {
      var row := RowToStore(e, t, raws[0]);
      var t1 := t.(rows := t.rows + [row]);
      AllowedMeets(t, row);
      OneMoreMeets(e, t.cols, t.withoutRowid, t.rows, row);
      if InsertRow(e, t, raws[0]).Some? {
        InsertRowsIff(e, t1, raws[1..]);
      } else if RowsMeet(e, t.cols, t.withoutRowid, Filled(e, t, raws)) {
        PrefixMeets(e, t.cols, t.withoutRowid, t1.rows, Filled(e, t, raws));
      }
    }
  }

  // ---- Every step keeps the checks ----

  lemma OneCheckedChanged(e: Storage, cat: Catalog, f: string, t: Table)
    requires Checked(e, t) && AllChecked(e, cat)
    ensures AllChecked(e, cat.(tables := cat.tables[f := t]))
  {
  }

  lemma CopyKeepsChecked(e: Storage, cat: Catalog, st: Statement)
    requires AllChecked(e, cat) && st.CopyRows? && CopyStep(e, cat, st).Some?
    ensures AllChecked(e, CopyStep(e, cat, st).value)
  {
    var t, s := cat.tables[Fold(st.target)], cat.tables[Fold(st.source)];
    var places := Resolve(s.cols, st.cols).value;
    var raws := seq(|s.rows|, i requires 0 <= i < |s.rows| => Offered(t.cols, st.into, places, s.rows[i]));
    InsertRowsIff(e, t, raws);
    OneCheckedChanged(e, cat, Fold(st.target), InsertRows(e, t, raws).value);
  }

  /** Where column j of a table was before the column at `gap` was taken out. */
  function Source(gap: nat, j: nat): nat { if j < gap then j else j + 1 }

  /** The new columns are the old ones but for names, one outside the key perhaps taken out, or
      one that is free of checks put at the end. */
  ghost predicate SameChecks(cols: seq<Column>, cols': seq<Column>, gap: nat) {
    && |KeyEntries(cols')| == |KeyEntries(cols)|
    && (gap < |cols| ==> cols[gap].pk == 0 && |cols'| == |cols| - 1) && (gap == |cols| ==> |cols'| >= |cols|)
    && gap <= |cols|
    && forall j: nat | j < |cols'| :: SameCheck(cols, cols', gap, j)
  }

  ghost predicate SameCheck(cols: seq<Column>, cols': seq<Column>, gap: nat, j: nat)
    requires j < |cols'|
  {
    if Source(gap, j) < |cols| then cols'[j] == cols[Source(gap, j)].(name := cols'[j].name)
    else !cols'[j].notNull && cols'[j].pk == 0
  }

  /** And the cells with them. */
  ghost predicate SameCells(cols: seq<Column>, cols': seq<Column>, gap: nat, row: seq<Value>, row': seq<Value>) {
    && |row| == |cols| && |row'| == |cols'|
    && forall j: nat | j < |cols'| && Source(gap, j) < |cols| :: row'[j] == row[Source(gap, j)]
  }

  lemma SameMeets(cols: seq<Column>, cols': seq<Column>, gap: nat, withoutRowid: bool, row: seq<Value>,
                  row': seq<Value>)
    requires SameChecks(cols, cols', gap) && SameCells(cols, cols', gap, row, row')
    requires RowMeets(cols, withoutRowid, row)
    ensures RowMeets(cols', withoutRowid, row')
  {
    forall j: nat | j < |cols'| ensures CellMeets(cols', withoutRowid, j, row'[j]) {
      assert SameCheck(cols, cols', gap, j);
      if Source(gap, j) < |cols| { assert CellMeets(cols, withoutRowid, Source(gap, j), row[Source(gap, j)]); }
    }
  }

  lemma SameClash(e: Storage, cols: seq<Column>, cols': seq<Column>, gap: nat, a: seq<Value>, a': seq<Value>,
                  b: seq<Value>, b': seq<Value>)
    requires SameChecks(cols, cols', gap) && SameCells(cols, cols', gap, a, a') && SameCells(cols, cols', gap, b, b')
    requires KeyClash(e, cols', a', b')
    ensures KeyClash(e, cols, a, b)
  {
    var i: nat :| i < |cols'| && cols'[i].pk > 0;
    assert SameCheck(cols, cols', gap, i);
    assert cols[Source(gap, i)].pk > 0;
    forall k | 0 <= k < |cols| && cols[k].pk > 0 ensures a[k] != VNull && b[k] != VNull && e.same(a[k], b[k]) {
      var j: nat := if k < gap then k else k - 1;
      assert Source(gap, j) == k && SameCheck(cols, cols', gap, j);
    }
  }

  lemma SameChecked(e: Storage, t: Table, t': Table, gap: nat)
    requires Checked(e, t) && SameChecks(t.cols, t'.cols, gap) && t'.withoutRowid == t.withoutRowid
    requires |t'.rows| == |t.rows|
             && forall i | 0 <= i < |t.rows| :: SameCells(t.cols, t'.cols, gap, t.rows[i], t'.rows[i])
    ensures Checked(e, t')
  {
    forall i | 0 <= i < |t'.rows| ensures RowMeets(t'.cols, t'.withoutRowid, t'.rows[i]) {
      SameMeets(t.cols, t'.cols, gap, t.withoutRowid, t.rows[i], t'.rows[i]);
    }
    forall i, k | 0 <= i < k < |t'.rows| ensures !KeyClash(e, t'.cols, t'.rows[i], t'.rows[k]) {
      if KeyClash(e, t'.cols, t'.rows[i], t'.rows[k]) {
        SameClash(e, t.cols, t'.cols, gap, t.rows[i], t'.rows[i], t.rows[k], t'.rows[k]);
      }
    }
  }

  lemma NoRowsChecked(e: Storage, t: Table)
    requires t.rows == []
    ensures Checked(e, t)
  {
  }

  lemma AddedChecks(t: Table, t': Table, c: Column)
    requires t'.cols == t.cols + [c] && !c.notNull && c.pk == 0 && |t'.rows| == |t.rows|
    requires forall i | 0 <= i < |t.rows| :: |t.rows[i]| == |t.cols| && t'.rows[i] == t.rows[i] + [VNull]
    ensures SameChecks(t.cols, t'.cols, |t.cols|)
    ensures forall i | 0 <= i < |t.rows| :: SameCells(t.cols, t'.cols, |t.cols|, t.rows[i], t'.rows[i])
  {
    AppendedKey(t.cols, c);
  }

  lemma DroppedChecks(t: Table, t': Table, gap: nat)
    requires gap < |t.cols| && t.cols[gap].pk == 0 && t'.cols == Without(t.cols, gap) && |t'.rows| == |t.rows|
    requires forall i | 0 <= i < |t.rows| :: |t.rows[i]| == |t.cols| && t'.rows[i] == Without(t.rows[i], gap)
    ensures SameChecks(t.cols, t'.cols, gap)
    ensures forall i | 0 <= i < |t.rows| :: SameCells(t.cols, t'.cols, gap, t.rows[i], t'.rows[i])
  {
    RemovedKey(t.cols, gap);
  }

  lemma RenamedChecks(t: Table, t': Table, i: nat, n: string)
    requires i < |t.cols| && t'.cols == t.cols[i := t.cols[i].(name := n)] && t'.rows == t.rows
    requires forall k | 0 <= k < |t.rows| :: |t.rows[k]| == |t.cols|
    ensures SameChecks(t.cols, t'.cols, |t.cols|)
    ensures forall k | 0 <= k < |t.rows| :: SameCells(t.cols, t'.cols, |t.cols|, t.rows[k], t'.rows[k])
  {
    SameCount(t.cols, t'.cols);
  }

  lemma AddKeepsChecked(e: Storage, cat: Catalog, name: string, d: ColumnDecl)
    requires AllChecked(e, cat) && AddColumnStep(cat, name, d).Some?
    ensures AllChecked(e, AddColumnStep(cat, name, d).value)
  {
    var t, t' := cat.tables[Fold(name)], AddColumnStep(cat, name, d).value.tables[Fold(name)];
    if t.rows == [] {
      NoRowsChecked(e, t');
    } else {
      AddedChecks(t, t', Column(d.name, d.decl, d.suffix == NotNull, 0));
      SameChecked(e, t, t', |t.cols|);
    }
    OneCheckedChanged(e, cat, Fold(name), t');
  }

  lemma DropKeepsChecked(e: Storage, cat: Catalog, name: string, column: string)
    requires AllChecked(e, cat) && DropColumnStep(cat, name, column).Some?
    ensures AllChecked(e, DropColumnStep(cat, name, column).value)
  {
    var t, t' := cat.tables[Fold(name)], DropColumnStep(cat, name, column).value.tables[Fold(name)];
    var i := FindColumn(t.cols, column).value;
    DroppedChecks(t, t', i);
    SameChecked(e, t, t', i);
    OneCheckedChanged(e, cat, Fold(name), t');
  }

  lemma RenameKeepsChecked(e: Storage, cat: Catalog, name: string, o: string, n: string)
    requires AllChecked(e, cat) && RenameColumnStep(cat, name, o, n).Some?
    ensures AllChecked(e, RenameColumnStep(cat, name, o, n).value)
  {
    var t, t' := cat.tables[Fold(name)], RenameColumnStep(cat, name, o, n).value.tables[Fold(name)];
    RenamedChecks(t, t', FindColumn(t.cols, o).value, n);
    SameChecked(e, t, t', |t.cols|);
    OneCheckedChanged(e, cat, Fold(name), t');
  }

  lemma TableStepsKeepChecked(e: Storage, cat: Catalog, st: Statement, c': Option<Catalog>)
    requires AllChecked(e, cat)
    requires || (st.CreateTable? && c' == CreateTableStep(cat, st))
             || (st.RenameTable? && c' == RenameTableStep(cat, st.table, st.newName))
             || (st.DropTable? && c' == DropTableStep(cat, st.name, st.ifExists))
             || (st.DropIndex? && c' == DropIndexStep(cat, st.name, st.ifExists))
    ensures c'.Some? ==> AllChecked(e, c'.value)
  {
  }

  lemma IndexKeepsChecked(e: Storage, cat: Catalog, st: Statement)
    requires AllChecked(e, cat) && st.CreateIndex? && CreateIndexStep(e, cat, st).Some?
    ensures AllChecked(e, CreateIndexStep(e, cat, st).value)
  {
  }

  /** No statement leaves a row that its table would not take. */
  lemma StepKeepsChecked(e: Storage, cat: Catalog, st: Statement)
    requires AllChecked(e, cat) && Step(e, cat, st).Some?
    ensures AllChecked(e, Step(e, cat, st).value)
  {
    if st.CopyRows? { CopyKeepsChecked(e, cat, st); }
    else if st.CreateIndex? { IndexKeepsChecked(e, cat, st); }
    else if st.AddColumn? { AddKeepsChecked(e, cat, st.table, st.col); }
    else if st.DropColumn? { DropKeepsChecked(e, cat, st.table, st.name); }
    else if st.RenameColumn? { RenameKeepsChecked(e, cat, st.table, st.oldName, st.newName); }
    else { TableStepsKeepChecked(e, cat, st, Step(e, cat, st)); }
  }
}
