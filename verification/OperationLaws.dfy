/** What each operation does to the catalog and when it goes through, said of the catalog alone:
    the statements an operation is made of do not appear. */
module OperationLaws {
  import opened Text
  import opened DbSchema
  import opened SqlText
  import opened TypeMapping
  import opened SqlGen
  import opened Catalog
  import opened SchemaModifier
  import opened SqlParser

  predicate ColumnNamed(t: TableData, name: string) {
    exists i | 0 <= i < |t.cols| :: Fold(t.cols[i].name) == Fold(name)
  }

  lemma NamedIsFound(t: Table, name: string)
    ensures ColumnNamed(t, name) <==> FindColumn(t.cols, name).Some?
  {
  }

  // ---- Adding an index ----

  /** The collection an index is for: the one it names, or else the altered one. */
  function IndexTable(idx: IndexDef, table: string): string { if idx.collection == "" then table else idx.collection }

  /** The rows hold the same value, other than NULL, in the column of that name. */
  predicate AlikeIn(e: Storage, t: Table, a: nat, b: nat, name: string)
    requires a < |t.rows| && b < |t.rows|
  {
    exists i | 0 <= i < |t.cols| ::
      Fold(t.cols[i].name) == Fold(name) && t.rows[a][i] != VNull && t.rows[b][i] != VNull
      && e.same(t.rows[a][i], t.rows[b][i])
  }

  predicate AlikeInAll(e: Storage, t: Table, a: nat, b: nat, names: seq<string>)
    requires a < |t.rows| && b < |t.rows|
  {
    forall k | 0 <= k < |names| :: AlikeIn(e, t, a, b, names[k])
  }

  /** No two rows are alike in all of the columns. */
  predicate RowsApart(e: Storage, t: Table, names: seq<string>) {
    forall a: nat, b: nat | a < b < |t.rows| :: !AlikeInAll(e, t, a, b, names)
  }

  /** When an index can be added, if its name is free. */
  predicate IndexFits(e: Storage, t: Table, idx: IndexDef) {
    (forall k | 0 <= k < |idx.fields| :: ColumnNamed(t, idx.fields[k])) && (idx.unique ==> RowsApart(e, t, idx.fields))
  }

  predicate IndexGoes(e: Storage, cat: Catalog, table: string, idx: IndexDef, opts: Options) {
    var coll := IndexTable(idx, table);
    && idx.name != "" && coll != "" && idx.fields != []
    && NulFree(idx.name) && NulFree(coll) && NulFreeAll(idx.fields)
    && !Reserved(idx.name) && Fold(coll) in cat.tables && Fold(idx.name) !in cat.tables
    && if IndexNamed(cat.indexes, Fold(idx.name)) then opts.ifNotExists else IndexFits(e, cat.tables[Fold(coll)], idx)
  }

  /** The index as defined, on that table, its fields as the table spells them. */
  predicate IsIndexOf(x: Index, f: string, t: TableData, idx: IndexDef) {
    && x.name == idx.name && x.table == f && x.unique == idx.unique && x.origin == Created
    && |x.cols| == |idx.fields|
    && forall k | 0 <= k < |x.cols| ::
       x.cols[k].Some? && Fold(x.cols[k].value) == Fold(idx.fields[k])
       && exists i | 0 <= i < |t.cols| :: t.cols[i].name == x.cols[k].value
  }

  predicate PairRepeats(e: Storage, t: Table, places: seq<nat>, a: nat, b: nat)
    requires a < |t.rows| && b < |t.rows| && forall i | 0 <= i < |places| :: places[i] < |t.cols|
  {
    forall i | 0 <= i < |places| ::
      t.rows[a][places[i]] != VNull && t.rows[b][places[i]] != VNull
      && e.same(t.rows[a][places[i]], t.rows[b][places[i]])
  }

  lemma PairShows(e: Storage, t: Table, places: seq<nat>, a: nat, b: nat)
    requires forall i | 0 <= i < |places| :: places[i] < |t.cols|
    requires a < b < |t.rows| && PairRepeats(e, t, places, a, b)
    ensures Repeats(e, t, places)
  {
    var x, y := t.rows[a], t.rows[b];
    forall i | 0 <= i < |places| ensures x[places[i]] != VNull && y[places[i]] != VNull
                                         && e.same(x[places[i]], y[places[i]]) {}
  }

  lemma RepeatsShows(e: Storage, t: Table, places: seq<nat>) returns (a: nat, b: nat)
    requires (forall i | 0 <= i < |places| :: places[i] < |t.cols|) && Repeats(e, t, places)
    ensures a < b < |t.rows| && PairRepeats(e, t, places, a, b)
  {
    a, b :| 0 <= a < |t.rows| && 0 <= b < |t.rows| && a < b && forall i | 0 <= i < |places| ::
      t.rows[a][places[i]] != VNull && t.rows[b][places[i]] != VNull
      && e.same(t.rows[a][places[i]], t.rows[b][places[i]]);
  }

  lemma PairIsAlike(e: Storage, t: Table, names: seq<string>, places: seq<nat>, a: nat, b: nat)
    requires DistinctColumns(t.cols) && Resolve(t.cols, names) == Some(places) && a < |t.rows| && b < |t.rows|
    ensures PairRepeats(e, t, places, a, b) <==> AlikeInAll(e, t, a, b, names)
  {
    forall k | 0 <= k < |names|
      ensures AlikeIn(e, t, a, b, names[k])
              <==> t.rows[a][places[k]] != VNull && t.rows[b][places[k]] != VNull
                   && e.same(t.rows[a][places[k]], t.rows[b][places[k]]) {
      AlikeAt(e, t, a, b, names[k], places[k]);
    }
  }

  lemma RepeatsIsAlike(e: Storage, t: Table, names: seq<string>, places: seq<nat>)
    requires DistinctColumns(t.cols) && Resolve(t.cols, names) == Some(places)
    ensures Repeats(e, t, places) <==> !RowsApart(e, t, names)
  {
    if Repeats(e, t, places) {
      var a, b := RepeatsShows(e, t, places);
      PairIsAlike(e, t, names, places, a, b);
    }
    if a: nat, b: nat :| a < b < |t.rows| && AlikeInAll(e, t, a, b, names) {
      PairIsAlike(e, t, names, places, a, b);
      PairShows(e, t, places, a, b);
    }
  }

  lemma AlikeAt(e: Storage, t: Table, a: nat, b: nat, name: string, p: nat)
    requires DistinctColumns(t.cols) && FindColumn(t.cols, name) == Some(p) && a < |t.rows| && b < |t.rows|
    ensures AlikeIn(e, t, a, b, name)
            <==> t.rows[a][p] != VNull && t.rows[b][p] != VNull && e.same(t.rows[a][p], t.rows[b][p])
  {
    forall i | 0 <= i < |t.cols| ensures Fold(t.cols[i].name) == Fold(name) <==> i == p {
      if Fold(t.cols[i].name) == Fold(name) { FindDistinct(t.cols, name, i); }
    }
  }

  lemma FitsIsTaken(e: Storage, t: Table, idx: IndexDef)
    requires DistinctColumns(t.cols)
    ensures IndexFits(e, t, idx)
            <==> Resolve(t.cols, idx.fields).Some?
                 && (idx.unique ==> !Repeats(e, t, Resolve(t.cols, idx.fields).value))
  {
    forall k | 0 <= k < |idx.fields|
      ensures ColumnNamed(t, idx.fields[k]) <==> FindColumn(t.cols, idx.fields[k]).Some? {
      NamedIsFound(t, idx.fields[k]);
    }
    if Resolve(t.cols, idx.fields).Some? { RepeatsIsAlike(e, t, idx.fields, Resolve(t.cols, idx.fields).value); }
  }

  ghost predicate DistinctEverywhere(cat: Catalog) { forall f | f in cat.tables :: DistinctColumns(cat.tables[f].cols) }

  /** What came of adding an index: passed over when its name is taken, else added after the others,
      as defined, with nothing else changed. */
  ghost predicate IndexMade(cat: Catalog, cat': Catalog, f: string, idx: IndexDef)
    requires f in cat.tables
  {
    if IndexNamed(cat.indexes, Fold(idx.name)) then cat' == cat
    else exists x :: IsIndexOf(x, f, cat.tables[f], idx) && cat' == cat.(indexes := cat.indexes + [x])
  }

  /** Adding an index, by itself or among the operations of a call, goes through exactly under that
      condition, and then makes the index as defined. */
  lemma AddIndexLaw(e: Storage, cat: Catalog, table: string, idx: IndexDef, opts: Options, choice: Choice)
    requires DistinctEverywhere(cat)
    ensures var r := OpChosen(e, cat, table, AddIndex(idx, opts), choice);
            && (r.Some? <==> IndexGoes(e, cat, table, idx, opts))
            && (r.Some? ==> IndexMade(cat, r.value, Fold(IndexTable(idx, table)), idx))
  {
    var coll := IndexTable(idx, table);
    if idx.name != "" && coll != "" && idx.fields != [] {
      var st := CreateIndex(idx.unique, opts.ifNotExists, idx.name, coll, idx.fields);
      AddIsEmitted(e, cat, table, idx, opts, choice);
      IndexStatementLaw(e, cat, table, idx, opts, st);
    }
  }

  lemma AddIsEmitted(e: Storage, cat: Catalog, table: string, idx: IndexDef, opts: Options, choice: Choice)
    requires idx.name != "" && IndexTable(idx, table) != "" && idx.fields != []
    ensures OpChosen(e, cat, table, AddIndex(idx, opts), choice)
            == Emitted(e, cat, CreateIndex(idx.unique, opts.ifNotExists, idx.name, IndexTable(idx, table), idx.fields))
  {
  }

  lemma IndexStatementLaw(e: Storage, cat: Catalog, table: string, idx: IndexDef, opts: Options, st: Statement)
    requires DistinctEverywhere(cat) && idx.name != "" && IndexTable(idx, table) != "" && idx.fields != []
    requires st == CreateIndex(idx.unique, opts.ifNotExists, idx.name, IndexTable(idx, table), idx.fields)
    ensures var r := Emitted(e, cat, st);
            && (r.Some? <==> IndexGoes(e, cat, table, idx, opts))
            && (r.Some? ==> IndexMade(cat, r.value, Fold(IndexTable(idx, table)), idx))
  {
    var coll := IndexTable(idx, table);
    if Fold(coll) in cat.tables {
      FitsIsTaken(e, cat.tables[Fold(coll)], idx);
      if CreateIndexStep(e, cat, st).Some? && !IndexNamed(cat.indexes, Fold(idx.name)) {
        IndexStepLaw(e, cat, idx, coll, st);
      }
    }
  }

  lemma IndexStepLaw(e: Storage, cat: Catalog, idx: IndexDef, coll: string, st: Statement)
    requires st.CreateIndex? && st == CreateIndex(idx.unique, st.ifNotExists, idx.name, coll, idx.fields)
    requires Fold(coll) in cat.tables
    requires CreateIndexStep(e, cat, st).Some? && !IndexNamed(cat.indexes, Fold(idx.name))
    ensures exists x ::
              IsIndexOf(x, Fold(coll), cat.tables[Fold(coll)], idx)
              && CreateIndexStep(e, cat, st).value == cat.(indexes := cat.indexes + [x])
  {
    var t := cat.tables[Fold(coll)];
    var places := Resolve(t.cols, idx.fields).value;
    var x := Index(idx.name, Fold(coll), Spelled(t.cols, places), idx.unique, Created);
    forall k | 0 <= k < |x.cols| ensures exists i | 0 <= i < |t.cols| :: t.cols[i].name == x.cols[k].value {
      assert FindColumn(t.cols, idx.fields[k]) == Some(places[k]);
      assert t.cols[places[k]].name == x.cols[k].value;
    }
    assert IsIndexOf(x, Fold(coll), t, idx);
  }

  // ---- Removing an index ----

  /** Removing an index goes through exactly when the index of that name is one that was created,
      or when there is none and IfExists was given; the index is then gone and every other one kept
      in order, or nothing at all changes. */
  lemma RemoveIndexLaw(e: Storage, cat: Catalog, table: string, name: string, opts: Options, choice: Choice)
    ensures var r := OpChosen(e, cat, table, RemoveIndex(name, opts), choice);
            && (NulFree(name) && !IndexNamed(cat.indexes, Fold(name)) ==>
                  r == if opts.ifExists && !Reserved(name) then Some(cat) else None)
            && (NulFree(name) && IndexNamed(cat.indexes, Fold(name)) ==>
                  exists i | 0 <= i < |cat.indexes| ::
                    Fold(cat.indexes[i].name) == Fold(name)
                    && r == if cat.indexes[i].origin == Created then Some(cat.(indexes := Without(cat.indexes, i)))
                            else None)
            && (!NulFree(name) ==> r.None?)
  {
    if NulFree(name) && IndexNamed(cat.indexes, Fold(name)) {
      var i := FindIndex(cat.indexes, Fold(name)).value;
      assert Without(cat.indexes, i) == cat.indexes[..i] + cat.indexes[i + 1..];
    }
  }

  // ---- Adding, dropping and renaming a field ----

  /** One table reshaped, its name, kind and AUTOINCREMENT kept; the other tables untouched. */
  predicate OneReshaped(cat: Catalog, cat': Catalog, f: string) {
    && f in cat.tables && f in cat'.tables && cat'.tables.Keys == cat.tables.Keys
    && (forall g | g in cat.tables && g != f :: cat'.tables[g] == cat.tables[g])
    && var t, t' := cat.tables[f], cat'.tables[f];
    t'.name == t.name && t'.auto == t.auto && SameKind(t', t) && |t'.rows| == |t.rows|
  }

  predicate FieldGoes(cat: Catalog, table: string, f: FieldDef) {
    && Typed(f) && NulFree(table) && NulFree(f.name) && Fold(table) in cat.tables
    && !ColumnNamed(cat.tables[Fold(table)], f.name) && (f.nullable || cat.tables[Fold(table)].rows == [])
  }

  /** The new column is the last one, with the keyword of its type, outside the key, NULL in every
      row; a Time is marked under the name the call gave. */
  predicate FieldAdded(cat: Catalog, cat': Catalog, table: string, f: FieldDef)
    requires Typed(f)
  {
    && OneReshaped(cat, cat', Fold(table)) && cat'.indexes == cat.indexes
    && cat'.markers == cat.markers + (if f.typ == Time then {(table, f.name)} else {})
    && cat'.sidecar == (cat.sidecar || f.typ == Time)
    && var t, t' := cat.tables[Fold(table)], cat'.tables[Fold(table)];
    && t'.cols == t.cols + [Column(f.name, SqliteTypeFor(f.typ).value, !f.nullable, 0)]
    && forall k | 0 <= k < |t.rows| :: t'.rows[k] == t.rows[k] + [VNull]
  }

  lemma ColumnAppended(cat: Catalog, table: string, f: FieldDef, d: ColumnDecl, c1: Catalog)
    requires Typed(f) && d == ColumnDecl(f.name, SqliteTypeFor(f.typ).value, if f.nullable then Plain else NotNull)
    requires AddColumnStep(cat, table, d) == Some(c1)
    ensures FieldAdded(cat, c1.(markers := cat.markers + (if f.typ == Time then {(table, f.name)} else {}),
                                sidecar := cat.sidecar || f.typ == Time), table, f)
    ensures c1.markers == cat.markers && c1.sidecar == cat.sidecar
  {
  }

  lemma ColumnAdded(cat: Catalog, table: string, f: FieldDef, d: ColumnDecl, c1: Catalog)
    requires Typed(f) && d == ColumnDecl(f.name, SqliteTypeFor(f.typ).value, if f.nullable then Plain else NotNull)
    requires AddColumnStep(cat, table, d) == Some(c1)
    ensures FieldAdded(cat, WithMarkers(c1, table, if f.typ == Time then [f.name] else []), table, f)
  {
    ColumnAppended(cat, table, f, d, c1);
    assert MarkersFor(table, [f.name]) == {(table, f.name)} by { assert f.name in [f.name]; }
    if f.typ != Time { assert cat.markers + {} == cat.markers; }
  }

  lemma ColumnGoes(cat: Catalog, table: string, f: FieldDef, d: ColumnDecl)
    requires Typed(f) && NulFree(table) && NulFree(f.name)
    requires d == ColumnDecl(f.name, SqliteTypeFor(f.typ).value, if f.nullable then Plain else NotNull)
    ensures AddColumnStep(cat, table, d).Some? <==> FieldGoes(cat, table, f)
  {
    if Fold(table) in cat.tables { NamedIsFound(cat.tables[Fold(table)], f.name); }
  }

  /** Adding a field goes through exactly when its name is new and it may be NULL or the table has no
      rows. */
  lemma AddFieldLaw(e: Storage, cat: Catalog, table: string, f: FieldDef, choice: Choice)
    ensures var r := OpChosen(e, cat, table, AddField(f), choice);
            (r.Some? <==> FieldGoes(cat, table, f)) && (r.Some? ==> FieldAdded(cat, r.value, table, f))
  {
    if Typed(f) && NulFree(table) && NulFree(f.name) {
      var d := ColumnDecl(f.name, SqliteTypeFor(f.typ).value, if f.nullable then Plain else NotNull);
      ColumnGoes(cat, table, f, d);
      if c1: Catalog :| AddColumnStep(cat, table, d) == Some(c1) { ColumnAdded(cat, table, f, d, c1); }
    }
  }

  predicate DropFieldGoes(cat: Catalog, table: string, n: string) {
    && NulFree(table) && NulFree(n) && Fold(table) in cat.tables
    && var t := cat.tables[Fold(table)];
    |t.cols| > 1 && !Indexed(cat.indexes, Fold(table), n)
    && exists i | 0 <= i < |t.cols| :: Fold(t.cols[i].name) == Fold(n) && t.cols[i].pk == 0
  }

  /** The column of that name is gone from the table and from every row, the others keep their order;
      its marker under exactly these names is gone too, unless its cleanup was skipped. */
  predicate FieldDropped(cat: Catalog, cat': Catalog, table: string, n: string, choice: Choice) {
    && OneReshaped(cat, cat', Fold(table)) && cat'.indexes == cat.indexes && cat'.sidecar == cat.sidecar
    && cat'.markers == cat.markers - (if choice != MarkerSkipped && cat.sidecar then {(table, n)} else {})
    && var t, t' := cat.tables[Fold(table)], cat'.tables[Fold(table)];
    exists i: nat | i < |t.cols| ::
      Fold(t.cols[i].name) == Fold(n) && t'.cols == Without(t.cols, i)
      && forall k | 0 <= k < |t.rows| :: t'.rows[k] == Without(t.rows[k], i)
  }

  lemma ColumnDropped(cat: Catalog, table: string, n: string, c1: Catalog, choice: Choice)
    requires DropColumnStep(cat, table, n) == Some(c1)
    ensures FieldDropped(cat, AfterMarker(c1, DeleteMarker(table, n), choice), table, n, choice)
  {
    var i := FindColumn(cat.tables[Fold(table)].cols, n).value;
    assert c1.tables[Fold(table)].cols == Without(cat.tables[Fold(table)].cols, i);
  }

  lemma DropGoes(cat: Catalog, table: string, n: string)
    requires NulFree(table) && NulFree(n) && DistinctEverywhere(cat)
    ensures DropColumnStep(cat, table, n).Some? <==> DropFieldGoes(cat, table, n)
  {
    if Fold(table) in cat.tables {
      var t := cat.tables[Fold(table)];
      NamedIsFound(t, n);
      forall i | 0 <= i < |t.cols| && Fold(t.cols[i].name) == Fold(n) ensures FindColumn(t.cols, n) == Some(i) {
        FindDistinct(t.cols, n, i);
      }
    }
  }

  /** Dropping a field goes through exactly when the table has the column, outside its key and in no
      index, and another one beside it. */
  lemma DropFieldLaw(e: Storage, cat: Catalog, table: string, n: string, choice: Choice)
    requires DistinctEverywhere(cat)
    ensures var r := OpChosen(e, cat, table, DropField(n), choice);
            (r.Some? <==> DropFieldGoes(cat, table, n)) && (r.Some? ==> FieldDropped(cat, r.value, table, n, choice))
  {
    if NulFree(table) && NulFree(n) {
      DropGoes(cat, table, n);
      if c1: Catalog :| DropColumnStep(cat, table, n) == Some(c1) { ColumnDropped(cat, table, n, c1, choice); }
    }
  }

  predicate RenameFieldGoes(cat: Catalog, table: string, o: string, n: string) {
    && NulFree(table) && NulFree(o) && NulFree(n) && Fold(table) in cat.tables
    && ColumnNamed(cat.tables[Fold(table)], o) && (Fold(n) != Fold(o) ==> !ColumnNamed(cat.tables[Fold(table)], n))
  }

  /** The index terms that were the old name are the new one, on that table alone. */
  predicate TermsRenamed(x: Index, x': Index, f: string, o: string, n: string) {
    && x' == x.(cols := x'.cols) && |x'.cols| == |x.cols|
    && forall k | 0 <= k < |x.cols| ::
       x'.cols[k] == if x.table == f && x.cols[k].Some? && Fold(x.cols[k].value) == Fold(o) then Some(n) else x.cols[k]
  }

  /** The markers after a rename: the one of the old name is of the new name, unless its move was
      skipped, was refused because the new name has one, or there is none. */
  function MarkersRenamed(cat: Catalog, table: string, o: string, n: string, choice: Choice): set<(string, string)> {
    if choice != MarkerSkipped && cat.sidecar && (table, o) in cat.markers && (n == o || (table, n) !in cat.markers)
    then cat.markers - {(table, o)} + {(table, n)} else cat.markers
  }

  predicate FieldRenamed(cat: Catalog, cat': Catalog, table: string, o: string, n: string, choice: Choice) {
    && OneReshaped(cat, cat', Fold(table)) && cat'.sidecar == cat.sidecar
    && cat'.markers == MarkersRenamed(cat, table, o, n, choice)
    && |cat'.indexes| == |cat.indexes|
    && (forall k | 0 <= k < |cat.indexes| :: TermsRenamed(cat.indexes[k], cat'.indexes[k], Fold(table), o, n))
    && var t, t' := cat.tables[Fold(table)], cat'.tables[Fold(table)];
    && t'.rows == t.rows
    && exists i: nat | i < |t.cols| ::
       Fold(t.cols[i].name) == Fold(o) && t'.cols == t.cols[i := t.cols[i].(name := n)]
  }

  lemma ColumnRenamed(cat: Catalog, table: string, o: string, n: string, c1: Catalog, choice: Choice)
    requires RenameColumnStep(cat, table, o, n) == Some(c1)
    ensures FieldRenamed(cat, AfterMarker(c1, UpdateMarker(table, o, n), choice), table, o, n, choice)
  {
    var t, i := cat.tables[Fold(table)], FindColumn(cat.tables[Fold(table)].cols, o).value;
    assert c1.tables[Fold(table)].cols == t.cols[i := t.cols[i].(name := n)];
    MarkerMoved(cat, c1, table, o, n, choice);
    TermsOfRename(cat.indexes, Fold(table), o, n);
  }

  lemma MarkerMoved(cat: Catalog, c1: Catalog, table: string, o: string, n: string, choice: Choice)
    requires c1.markers == cat.markers && c1.sidecar == cat.sidecar
    ensures AfterMarker(c1, UpdateMarker(table, o, n), choice)
            == c1.(markers := MarkersRenamed(cat, table, o, n, choice))
  {
  }

  lemma TermsOfRename(indexes: seq<Index>, f: string, o: string, n: string)
    ensures var r := RenamedIndexes(indexes, f, o, n);
            |r| == |indexes| && forall k | 0 <= k < |indexes| :: TermsRenamed(indexes[k], r[k], f, o, n)
  {
  }

  /** Renaming a field goes through exactly when the table has the column and no other of the new
      name. */
  lemma RenameFieldLaw(e: Storage, cat: Catalog, table: string, o: string, n: string, choice: Choice)
    ensures var r := OpChosen(e, cat, table, RenameField(o, n), choice);
            && (r.Some? <==> RenameFieldGoes(cat, table, o, n))
            && (r.Some? ==> FieldRenamed(cat, r.value, table, o, n, choice))
  {
    if NulFree(table) && NulFree(o) && NulFree(n) {
      if Fold(table) in cat.tables {
        NamedIsFound(cat.tables[Fold(table)], o);
        NamedIsFound(cat.tables[Fold(table)], n);
      }
      if c1: Catalog :| RenameColumnStep(cat, table, o, n) == Some(c1) {
        ColumnRenamed(cat, table, o, n, c1, choice);
      }
    }
  }

  // ---- Redefining a field, and several operations ----

  /** A field can be redefined only when the introspection delivered a column of exactly its name, and
      only to a type that has a keyword. */
  lemma ModifyNeedsColumn(e: Storage, cat: Catalog, table: string, n: string, d: FieldDef, choice: Choice)
    requires OpChosen(e, cat, table, ModifyField(n, d), choice).Some?
    ensures exists i | 0 <= i < |Delivered(cat, table, choice)| :: Delivered(cat, table, choice)[i].name == n
    ensures d.typ != Null && d.typ != Unknown
  {
    RewriteNeedsColumn(e, cat, table, n, d, Delivered(cat, table, choice));
  }

  lemma RewriteNeedsColumn(e: Storage, cat: Catalog, table: string, n: string, d: FieldDef, seen: seq<Column>)
    requires RewriteSeeing(e, cat, table, n, d, seen).Some?
    ensures exists i | 0 <= i < |seen| :: seen[i].name == n
    ensures d.typ != Null && d.typ != Unknown
  {
    var i :| 0 <= i < |seen| && seen[i].name == n;
    RedefinedIsTyped(table, n, d, seen, i);
  }

  lemma RedefinedIsTyped(table: string, n: string, d: FieldDef, seen: seq<Column>, i: nat)
    requires i < |seen| && seen[i].name == n && CreateTableStatement(Rewritten(table, n, d, seen), NO_OPTIONS).Some?
    ensures d.typ != Null && d.typ != Unknown
  {
    assert RewrittenFields(seen, n, d)[i].typ == d.typ;
    assert Typed(RewrittenFields(seen, n, d)[i]);
  }

  /** One operation more, on what the ones before left. */
  function Then(e: Storage, before: Option<Catalog>, table: string, op: AlterOp): Option<Catalog> {
    match before case None => None case Some(c) => OpMeaning(e, c, table, op)
  }

  lemma AlterLast(e: Storage, cat: Catalog, table: string, init: seq<AlterOp>, op: AlterOp)
    ensures AlterMeaning(e, cat, table, init + [op]) == Then(e, AlterMeaning(e, cat, table, init), table, op)
  {
    assert (init + [op])[..|init|] == init;
  }

  /** A list of operations after what the ones before left. */
  function ThenAll(e: Storage, before: Option<Catalog>, table: string, ops: seq<AlterOp>): Option<Catalog> {
    match before case None => None case Some(c) => AlterMeaning(e, c, table, ops)
  }

  lemma ThenLast(e: Storage, before: Option<Catalog>, table: string, init: seq<AlterOp>, op: AlterOp)
    ensures ThenAll(e, before, table, init + [op]) == Then(e, ThenAll(e, before, table, init), table, op)
  {
    if before.Some? { AlterLast(e, before.value, table, init, op); }
  }

  /** The operations of one call are carried out in order, each on what the ones before left. */
  lemma {:induction false} AlterInOrder(e: Storage, cat: Catalog, table: string, first: seq<AlterOp>,
                                        rest: seq<AlterOp>)
    ensures AlterMeaning(e, cat, table, first + rest) == ThenAll(e, AlterMeaning(e, cat, table, first), table, rest)
    decreases |rest|
  {
    if rest == [] {
      NothingThen(e, cat, table, first);
    } else {
      var init, op := AllButLast(rest);
      AlterInOrder(e, cat, table, first, init);
      LastInOrder(e, cat, table, first, init, op);
    }
  }

  lemma AllButLast(ops: seq<AlterOp>) returns (init: seq<AlterOp>, op: AlterOp)
    requires ops != []
    ensures ops == init + [op]
  {
    init, op := ops[..|ops| - 1], ops[|ops| - 1];
  }

  lemma NothingThen(e: Storage, cat: Catalog, table: string, first: seq<AlterOp>)
    ensures AlterMeaning(e, cat, table, first + []) == ThenAll(e, AlterMeaning(e, cat, table, first), table, [])
  {
    assert first + [] == first;
  }

  lemma LastInOrder(e: Storage, cat: Catalog, table: string, first: seq<AlterOp>, init: seq<AlterOp>, op: AlterOp)
    requires AlterMeaning(e, cat, table, first + init) == ThenAll(e, AlterMeaning(e, cat, table, first), table, init)
    ensures AlterMeaning(e, cat, table, first + (init + [op]))
            == ThenAll(e, AlterMeaning(e, cat, table, first), table, init + [op])
  {
    AlterLast(e, cat, table, first + init, op);
    ThenLast(e, AlterMeaning(e, cat, table, first), table, init, op);
    assert first + (init + [op]) == (first + init) + [op];
  }

  lemma AlterOne(e: Storage, cat: Catalog, table: string, op: AlterOp)
    ensures AlterMeaning(e, cat, table, [op]) == OpChosen(e, cat, table, op, Whole)
  {
    assert [op][..0] == [];
    assert AlterMeaning(e, cat, table, [op][..0]) == Some(cat);
  }

  // ---- Dropping a collection ----

  /** Dropping a collection goes through exactly when there is one of that name that is not SQLite's
      own, or none and IfExists was given. The table and its indexes are then gone, the other
      indexes keep their order, and unless the cleanup was skipped so are the markers of exactly
      that name. */
  lemma DropLaw(e: Storage, cat: Catalog, name: string, o: Options, choice: Choice)
    ensures var r, f := DropChosen(e, cat, name, o, choice), Fold(name);
            && (r.Some? <==> NulFree(name) && if f in cat.tables then !Reserved(name) else o.ifExists)
            && (r.Some? ==>
                  && r.value.tables == cat.tables - {f} && r.value.sidecar == cat.sidecar
                  && r.value.indexes == (if f in cat.tables then KeepIndexes(cat.indexes, f) else cat.indexes)
                  && r.value.markers == if choice != MarkerSkipped && cat.sidecar
                                        then set m | m in cat.markers && m.0 != name else cat.markers)
  {
  }

  /** The indexes of other tables, and no others. */
  lemma {:induction false} KeptAreOthers(indexes: seq<Index>, f: string, x: Index)
    ensures x in KeepIndexes(indexes, f) <==> x in indexes && x.table != f
    decreases |indexes|
  {
    if indexes != [] {
      KeptAreOthers(indexes[1..], f, x);
      assert indexes == [indexes[0]] + indexes[1..];
    }
  }
}
