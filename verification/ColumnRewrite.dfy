/** What the create/copy/drop/rename rewrite of one column keeps, and what it loses. */
module ColumnRewrite {
  import opened Text
  import opened DbSchema
  import opened SqlText
  import opened TypeMapping
  import opened SqlGen
  import opened KeyOrder
  import opened Catalog
  import opened SchemaModifier

  // ---- Keys ----

  predicate HasEntry(cols: seq<Column>, x: PkEntry) {
    exists j :: 0 <= j < |cols| && cols[j].pk > 0 && x == PkEntry(cols[j].name, cols[j].pk)
  }

  lemma HasEntryStep(cols: seq<Column>, x: PkEntry)
    requires cols != []
    ensures var n := |cols| - 1;
            HasEntry(cols, x) <==> HasEntry(cols[..n], x) || (cols[n].pk > 0 && x == PkEntry(cols[n].name, cols[n].pk))
  {
    var n := |cols| - 1;
    if HasEntry(cols[..n], x) {
      var j :| 0 <= j < n && cols[..n][j].pk > 0 && x == PkEntry(cols[..n][j].name, cols[..n][j].pk);
      assert cols[j] == cols[..n][j];
    }
    if HasEntry(cols, x) {
      var j :| 0 <= j < |cols| && cols[j].pk > 0 && x == PkEntry(cols[j].name, cols[j].pk);
      if j < n { assert cols[..n][j] == cols[j]; }
    }
  }

  lemma {:induction false} KeyEntriesMembers(cols: seq<Column>, x: PkEntry)
    ensures x in KeyEntries(cols) <==> HasEntry(cols, x)
    decreases |cols|
  {
    if cols != [] {
      KeyEntriesMembers(cols[..|cols| - 1], x);
      HasEntryStep(cols, x);
    }
  }

  /** The key positions of the columns are 1..k, each once. */
  ghost predicate NumberedKey(cols: seq<Column>) { Numbered(KeyEntries(cols), |KeyEntries(cols)|) }

  lemma HasEntryAt(cols: seq<Column>, j: nat)
    requires j < |cols| && cols[j].pk > 0
    ensures PkEntry(cols[j].name, cols[j].pk) in KeyEntries(cols)
  {
    var x := PkEntry(cols[j].name, cols[j].pk);
    assert HasEntry(cols, x);
    KeyEntriesMembers(cols, x);
  }

  lemma KeyPlace(s: seq<PkEntry>, x: PkEntry)
    requires Numbered(s, |s|) && x in s
    ensures 1 <= x.pkOrder <= |s| == |KeyNames(SortByOrder(s))| && KeyNames(SortByOrder(s))[x.pkOrder - 1] == x.colName
  {
    SortedPlace(s, |s|, x);
    KeyNameAt(SortByOrder(s), x.pkOrder - 1);
  }

  /** The name at place p-1 of the key is that of the column at position p. */
  lemma KeyOfPlace(cols: seq<Column>, j: nat)
    requires NumberedKey(cols) && j < |cols| && cols[j].pk > 0
    ensures cols[j].pk <= |KeyOf(cols)| == |KeyEntries(cols)| && KeyOf(cols)[cols[j].pk - 1] == cols[j].name
  {
    var s, x := KeyEntries(cols), PkEntry(cols[j].name, cols[j].pk);
    HasEntryAt(cols, j);
    KeyPlace(s, x);
  }

  lemma KeyOfColumn(cols: seq<Column>, i: nat) returns (j: nat)
    requires NumberedKey(cols) && i < |KeyOf(cols)|
    ensures j < |cols| && cols[j].pk == i + 1 && KeyOf(cols)[i] == cols[j].name
  {
    var s := KeyEntries(cols);
    SortMembers(s);
    SortedIsNumbered(s, |s|);
    var x := SortByOrder(s)[i];
    assert x in SortByOrder(s);
    KeyEntriesMembers(cols, x);
    j :| 0 <= j < |cols| && cols[j].pk > 0 && x == PkEntry(cols[j].name, cols[j].pk);
  }

  lemma {:induction false} KeyPositionAt(key: seq<string>, name: string, p: nat)
    requires p < |key| && Fold(key[p]) == Fold(name)
    requires forall i | 0 <= i < p :: Fold(key[i]) != Fold(name)
    ensures KeyPosition(key, name) == p + 1
    decreases p
  {
    if p > 0 {
      assert key[1..][p - 1] == key[p];
      KeyPositionAt(key[1..], name, p - 1);
    }
  }

  lemma {:induction false} KeyPositionNone(key: seq<string>, name: string)
    requires forall i | 0 <= i < |key| :: Fold(key[i]) != Fold(name)
    ensures KeyPosition(key, name) == 0
    decreases |key|
  {
    if key != [] { KeyPositionNone(key[1..], name); }
  }

  /** A key place other than the column's own holds another name. */
  lemma OtherPlace(cols: seq<Column>, i: nat, j: nat)
    requires DistinctColumns(cols) && NumberedKey(cols) && j < |cols| && i < |KeyOf(cols)| && i + 1 != cols[j].pk
    ensures Fold(KeyOf(cols)[i]) != Fold(cols[j].name)
  {
    var k := KeyOfColumn(cols, i);
    assert k != j;
    if k < j { assert Fold(cols[k].name) != Fold(cols[j].name); }
    else { assert Fold(cols[j].name) != Fold(cols[k].name); }
  }

  /** Writing the key of a table and reading it back gives every column its position again. */
  lemma KeyPositionsKept(cols: seq<Column>, j: nat)
    requires DistinctColumns(cols) && NumberedKey(cols) && j < |cols|
    ensures KeyPosition(KeyOf(cols), cols[j].name) == cols[j].pk
  {
    var key := KeyOf(cols);
    forall i | 0 <= i < |key| && i + 1 != cols[j].pk ensures Fold(key[i]) != Fold(cols[j].name) {
      OtherPlace(cols, i, j);
    }
    if cols[j].pk > 0 {
      KeyOfPlace(cols, j);
      KeyPositionAt(key, cols[j].name, cols[j].pk - 1);
    } else {
      KeyPositionNone(key, cols[j].name);
    }
  }

  /** The key names exactly the columns that have a position in it. */
  lemma KeyMember(cols: seq<Column>, j: nat)
    requires DistinctColumns(cols) && NumberedKey(cols) && j < |cols|
    ensures cols[j].name in KeyOf(cols) <==> cols[j].pk > 0
  {
    if cols[j].pk > 0 {
      KeyOfPlace(cols, j);
      assert KeyOf(cols)[cols[j].pk - 1] in KeyOf(cols);
    } else if cols[j].name in KeyOf(cols) {
      var i :| 0 <= i < |KeyOf(cols)| && KeyOf(cols)[i] == cols[j].name;
      OtherPlace(cols, i, j);
    }
  }

  // ---- Rows ----

  /** A stored row is the offered one converted, except that a rowid may have been chosen. */
  ghost predicate StoredAs(e: Storage, cols: seq<Column>, alias: Option<nat>, raw: seq<Value>, row: seq<Value>)
    requires |raw| == |cols|
  {
    && |row| == |cols|
    && forall j | 0 <= j < |cols| ::
         row[j] == e.coerce(AffinityOf(cols[j].decl), raw[j])
         || (alias == Some(j) && e.coerce(AffinityOf(cols[j].decl), raw[j]) == VNull)
  }

  ghost predicate StoredFrom(e: Storage, t: TableData, raw: seq<Value>, row: seq<Value>)
    requires |raw| == |t.cols|
  {
    StoredAs(e, t.cols, AliasColumn(t), raw, row)
  }

  lemma InsertRowLaw(e: Storage, t: Table, raw: seq<Value>)
    requires |raw| == |t.cols| && InsertRow(e, t, raw).Some?
    ensures var t1 := InsertRow(e, t, raw).value;
            && t1 == t.(rows := t1.rows) && |t1.rows| == |t.rows| + 1 && t1.rows[..|t.rows|] == t.rows
            && StoredAs(e, t.cols, AliasColumn(t), raw, t1.rows[|t.rows|])
  {
  }

  /** All the rows after the old ones, each as offered. */
  ghost predicate RowsStored(e: Storage, cols: seq<Column>, alias: Option<nat>, raws: seq<seq<Value>>,
                            before: seq<seq<Value>>, after: seq<seq<Value>>)
    requires forall i | 0 <= i < |raws| :: |raws[i]| == |cols|
  {
    && |after| == |before| + |raws| && after[..|before|] == before
    && forall i | 0 <= i < |raws| :: StoredAs(e, cols, alias, raws[i], after[|before| + i])
  }

  lemma OneMoreStored(e: Storage, cols: seq<Column>, alias: Option<nat>, raws: seq<seq<Value>>,
                      before: seq<seq<Value>>, next: seq<seq<Value>>, after: seq<seq<Value>>)
    requires raws != [] && forall i | 0 <= i < |raws| :: |raws[i]| == |cols|
    requires |next| == |before| + 1 && next[..|before|] == before && StoredAs(e, cols, alias, raws[0], next[|before|])
    requires RowsStored(e, cols, alias, raws[1..], next, after)
    ensures RowsStored(e, cols, alias, raws, before, after)
  {
    assert after[..|next|] == next;
    assert after[..|before|] == next[..|before|];
    forall i | 0 <= i < |raws| ensures StoredAs(e, cols, alias, raws[i], after[|before| + i]) {
      if i == 0 {
        assert after[|before|] == after[..|next|][|before|];
      } else {
        assert raws[1..][i - 1] == raws[i];
        assert StoredAs(e, cols, alias, raws[1..][i - 1], after[|next| + (i - 1)]);
      }
    }
  }

  lemma {:induction false} InsertRowsLaw(e: Storage, t: Table, raws: seq<seq<Value>>)
    requires forall i | 0 <= i < |raws| :: |raws[i]| == |t.cols|
    requires InsertRows(e, t, raws).Some?
    ensures var r := InsertRows(e, t, raws).value;
            r == t.(rows := r.rows) && RowsStored(e, t.cols, AliasColumn(t), raws, t.rows, r.rows)
    decreases |raws|
  {
    if raws != [] {
      var t1 := InsertRow(e, t, raws[0]).value;
      InsertRowLaw(e, t, raws[0]);
      InsertRowsLaw(e, t1, raws[1..]);
      OneMoreStored(e, t.cols, AliasColumn(t), raws, t.rows, t1.rows, InsertRows(e, t1, raws[1..]).value.rows);
    }
  }

  lemma {:induction false} NamesPosition(names: seq<string>, j: nat)
    requires DistinctNames(names) && j < |names|
    ensures KeyPosition(names, names[j]) == j + 1
  {
    KeyPositionAt(names, names[j], j);
  }

  /** The names of the columns seen are distinct, and stand as in the source. */
  lemma SeenNames(source: seq<Column>, seen: seq<Column>)
    requires seen <= source && DistinctColumns(source)
    ensures DistinctNames(NamesOf(seen)) && forall j | 0 <= j < |seen| :: NamesOf(seen)[j] == source[j].name
  {
    var names := NamesOf(seen);
    forall i, k | 0 <= i < k < |names| ensures Fold(names[i]) != Fold(names[k]) {
      assert names[i] == source[i].name && names[k] == source[k].name;
    }
  }

  lemma PlacedInOrder(source: seq<Column>, names: seq<string>, places: seq<nat>, j: nat)
    requires DistinctColumns(source) && j < |names| <= |source| && Resolve(source, names) == Some(places)
    requires names[j] == source[j].name
    ensures places[j] == j
  {
    FindDistinct(source, names[j], j);
  }

  /** Copying by name between tables that spell their columns alike offers each value to its
      own column. */
  lemma OfferedInOrder(target: seq<Column>, source: seq<Column>, seen: seq<Column>, places: seq<nat>, row: seq<Value>)
    requires seen <= source && DistinctColumns(source) && |row| == |source|
    requires NamesOf(target) == NamesOf(seen)
    requires Resolve(source, NamesOf(seen)) == Some(places)
    ensures forall k | 0 <= k < |places| :: places[k] < |row|
    ensures |seen| == |target| <= |row| && Offered(target, NamesOf(seen), places, row) == row[..|target|]
  {
    var names := NamesOf(seen);
    assert |target| == |NamesOf(target)| == |seen|;
    SeenNames(source, seen);
    forall j | 0 <= j < |target|
      ensures places[j] == j && KeyPosition(names, target[j].name) == j + 1
    {
      assert target[j].name == NamesOf(target)[j] == names[j];
      PlacedInOrder(source, names, places, j);
      NamesPosition(names, j);
    }
    OfferedRow(target, names, places, row);
  }

  lemma OfferedRow(target: seq<Column>, names: seq<string>, places: seq<nat>, row: seq<Value>)
    requires |places| == |names| == |target| <= |row|
    requires forall j | 0 <= j < |target| :: places[j] == j && KeyPosition(names, target[j].name) == j + 1
    ensures Offered(target, names, places, row) == row[..|target|]
  {
  }

  // ---- The catalog around the rewritten table ----

  /** What SQLite itself keeps: tables under their folded names, indexes of existing tables. */
  ghost predicate WellKept(cat: Catalog) {
    && (forall f | f in cat.tables :: Fold(cat.tables[f].name) == f && DistinctColumns(cat.tables[f].cols))
    && (forall i | 0 <= i < |cat.indexes| :: cat.indexes[i].table in cat.tables)
  }

  lemma {:induction false} KeptTables(indexes: seq<Index>, f: string)
    ensures forall i | 0 <= i < |KeepIndexes(indexes, f)| ::
              KeepIndexes(indexes, f)[i] in indexes && KeepIndexes(indexes, f)[i].table != f
    decreases |indexes|
  {
    if indexes != [] {
      KeptTables(indexes[1..], f);
      forall i | 0 <= i < |KeepIndexes(indexes, f)|
        ensures KeepIndexes(indexes, f)[i] in indexes && KeepIndexes(indexes, f)[i].table != f
      {
        var rest := KeepIndexes(indexes[1..], f);
        var k := if indexes[0].table == f then i else i - 1;
        if k >= 0 {
          assert KeepIndexes(indexes, f)[i] == rest[k];
          assert rest[k] in indexes[1..];
        }
      }
    }
  }

  lemma NothingMoves(indexes: seq<Index>, f: string, g: string)
    requires forall i | 0 <= i < |indexes| :: indexes[i].table != f
    ensures MovedIndexes(indexes, f, g) == indexes
  {
  }

  lemma NewNameDiffers(table: string)
    ensures Fold(table + "_new") != Fold(table)
  {
    assert |Fold(table + "_new")| == |table| + 4;
  }

  /** The four statements one after another. */
  lemma FourSteps(e: Storage, cat: Catalog, sts: seq<Statement>)
    returns (c1: Catalog, c2: Catalog, c3: Catalog, c4: Catalog)
    requires |sts| == 4 && Statements(e, cat, sts).Some?
    ensures Emitted(e, cat, sts[0]) == Some(c1) && Emitted(e, c1, sts[1]) == Some(c2)
    ensures Emitted(e, c2, sts[2]) == Some(c3) && Emitted(e, c3, sts[3]) == Some(c4)
    ensures Statements(e, cat, sts) == Some(c4)
  {
    assert sts[..4] == sts && sts[..0] == [];
    StatementsStep(e, cat, sts, 3);
    StatementsStep(e, cat, sts, 2);
    StatementsStep(e, cat, sts, 1);
    StatementsStep(e, cat, sts, 0);
    c1 := Statements(e, cat, sts[..1]).value;
    c2 := Statements(e, cat, sts[..2]).value;
    c3 := Statements(e, cat, sts[..3]).value;
    c4 := Statements(e, cat, sts[..4]).value;
  }

  function NewColumns(table: string, name: string, newDef: FieldDef, seen: seq<Column>): seq<Column>
    requires AllTyped(RewrittenFields(seen, name, newDef))
  {
    var def := Rewritten(table, name, newDef, seen);
    ColumnsOf(FieldDecls(def), if InlineKey(def) then [] else def.primaryKey)
  }

  predicate Builds(name: string, newDef: FieldDef, seen: seq<Column>) {
    AllTyped(RewrittenFields(seen, name, newDef))
  }

  lemma NewColumnNames(table: string, name: string, newDef: FieldDef, seen: seq<Column>)
    requires Builds(name, newDef, seen)
    ensures NamesOf(NewColumns(table, name, newDef, seen)) == NamesOf(seen)
  {
    var cols := NewColumns(table, name, newDef, seen);
    forall i | 0 <= i < |seen| ensures cols[i].name == seen[i].name {
      assert RewrittenFields(seen, name, newDef)[i].name == seen[i].name;
    }
  }

  /** The net effect of a successful rewrite of the columns its introspection delivered. */
  ghost predicate RewriteEffect(e: Storage, cat: Catalog, cat': Catalog, table: string, name: string, newDef: FieldDef,
                                seen: seq<Column>) {
    var f := Fold(table);
    && f in cat.tables && Builds(name, newDef, seen)
    && cat'.tables.Keys == cat.tables.Keys
    && Fold(table + "_new") !in cat'.tables
    && (forall g | g in cat.tables && g != f :: cat'.tables[g] == cat.tables[g])
    && cat'.indexes == KeepIndexes(cat.indexes, f)
    && cat'.sidecar == cat.sidecar && cat'.markers == cat.markers
    && var t, t' := cat.tables[f], cat'.tables[f];
    && t'.name == table && t'.cols == NewColumns(table, name, newDef, seen)
    && t'.auto == HasAuto(FieldDecls(Rewritten(table, name, newDef, seen)))
    && Ordinary(t')
    && |seen| <= |t.cols| && |t'.rows| == |t.rows|
    && forall i | 0 <= i < |t.rows| :: |t.rows[i]| >= |t'.cols| && StoredFrom(e, t', t.rows[i][..|t'.cols|], t'.rows[i])
  }

  lemma CopyStored(e: Storage, t: Table, s: Table, seen: seq<Column>, st: Statement, t1: Table)
    requires seen <= s.cols && DistinctColumns(s.cols) && NamesOf(t.cols) == NamesOf(seen) && t.rows == []
    requires Resolve(s.cols, NamesOf(seen)).Some?
    requires var places := Resolve(s.cols, NamesOf(seen)).value;
             var raws := seq(|s.rows|, i requires 0 <= i < |s.rows| =>
                             Offered(t.cols, NamesOf(seen), places, s.rows[i]));
             InsertRows(e, t, raws) == Some(t1)
    ensures t1 == t.(rows := t1.rows) && |t1.rows| == |s.rows| && |t.cols| == |seen|
    ensures forall i | 0 <= i < |s.rows| ::
              |s.rows[i]| >= |t.cols| && StoredFrom(e, t, s.rows[i][..|t.cols|], t1.rows[i])
  {
    var places := Resolve(s.cols, NamesOf(seen)).value;
    var raws := seq(|s.rows|, i requires 0 <= i < |s.rows| => Offered(t.cols, NamesOf(seen), places, s.rows[i]));
    assert |t.cols| == |NamesOf(t.cols)| == |seen|;
    InsertRowsLaw(e, t, raws);
    forall i | 0 <= i < |s.rows|
      ensures |s.rows[i]| >= |t.cols| && StoredFrom(e, t, s.rows[i][..|t.cols|], t1.rows[i])
    {
      OfferedInOrder(t.cols, s.cols, seen, places, s.rows[i]);
      assert StoredAs(e, t.cols, AliasColumn(t), raws[i], t1.rows[|t.rows| + i]);
    }
  }

  lemma CreateEffect(e: Storage, cat: Catalog, st: Statement, c1: Catalog)
    requires st.CreateTable? && !st.ifNotExists && Emitted(e, cat, st) == Some(c1)
    ensures Fold(st.name) !in cat.tables
    ensures c1 == cat.(tables := cat.tables[Fold(st.name) := NewTable(st.name, st.decls, st.key)])
  {
  }

  lemma CopyRuns(e: Storage, c1: Catalog, st: Statement, c2: Catalog)
    requires st.CopyRows? && Emitted(e, c1, st) == Some(c2)
    ensures CopyStep(e, c1, st) == Some(c2)
  {
    assert Step(e, c1, st) == Some(c2);
    assert Step(e, c1, st) == CopyStep(e, c1, st);
  }

  lemma CopyEffect(e: Storage, c1: Catalog, st: Statement, seen: seq<Column>, c2: Catalog)
    requires st.CopyRows? && st.into == st.cols == NamesOf(seen) && CopyStep(e, c1, st) == Some(c2)
    requires Fold(st.target) in c1.tables && Fold(st.source) in c1.tables
    requires var t, s := c1.tables[Fold(st.target)], c1.tables[Fold(st.source)];
             seen <= s.cols && DistinctColumns(s.cols) && NamesOf(t.cols) == NamesOf(seen) && t.rows == []
    ensures Fold(st.target) in c2.tables
    ensures var t, s, t1 := c1.tables[Fold(st.target)], c1.tables[Fold(st.source)], c2.tables[Fold(st.target)];
            && c2 == c1.(tables := c1.tables[Fold(st.target) := t1])
            && t1 == t.(rows := t1.rows) && |t1.rows| == |s.rows| && |t.cols| == |seen|
            && forall i | 0 <= i < |s.rows| ::
               |s.rows[i]| >= |t.cols| && StoredFrom(e, t, s.rows[i][..|t.cols|], t1.rows[i])
  {
    var t, s := c1.tables[Fold(st.target)], c1.tables[Fold(st.source)];
    CopyStored(e, t, s, seen, st, c2.tables[Fold(st.target)]);
  }

  lemma DropAndRenameEffect(e: Storage, c2: Catalog, table: string, c3: Catalog, c4: Catalog)
    requires Emitted(e, c2, SqlText.DropTable(false, table)) == Some(c3)
    requires Emitted(e, c3, SqlText.RenameTable(table + "_new", table)) == Some(c4)
    requires forall i | 0 <= i < |c2.indexes| :: c2.indexes[i].table != Fold(table + "_new")
    ensures Fold(table) in c2.tables && Fold(table + "_new") in c2.tables
    ensures var f, g := Fold(table), Fold(table + "_new");
            && Fold(table) in c4.tables
            && var t1, t2 := c2.tables[g], c4.tables[f];
            && t2 == t1.(name := table, sql := t2.sql)
            && c4 == c2.(tables := (c2.tables - {f} - {g})[f := t2], indexes := KeepIndexes(c2.indexes, f))
  {
    var f, g := Fold(table), Fold(table + "_new");
    NewNameDiffers(table);
    KeptTables(c2.indexes, f);
    NothingMoves(c3.indexes, g, f);
  }

  /** The first two statements: the new table beside the old one, then the copy into it. */
  lemma CreateAndCopy(e: Storage, cat: Catalog, table: string, name: string, newDef: FieldDef, seen: seq<Column>,
                      c1: Catalog, c2: Catalog)
    requires WellKept(cat) && Builds(name, newDef, seen) && Fold(table) in cat.tables
             && seen <= cat.tables[Fold(table)].cols
    requires Emitted(e, cat, CreateTableStatement(Rewritten(table, name, newDef, seen), NO_OPTIONS).value) == Some(c1)
    requires Emitted(e, c1, CopyRows(table + "_new", NamesOf(seen), NamesOf(seen), table)) == Some(c2)
    ensures Fold(table + "_new") !in cat.tables
    ensures Fold(table + "_new") in c1.tables
            && c1 == cat.(tables := cat.tables[Fold(table + "_new") := c1.tables[Fold(table + "_new")]])
    ensures Fold(table + "_new") in c2.tables
            && c2 == c1.(tables := c1.tables[Fold(table + "_new") := c2.tables[Fold(table + "_new")]])
    ensures var t, t1, s := c1.tables[Fold(table + "_new")], c2.tables[Fold(table + "_new")], cat.tables[Fold(table)];
            && t.cols == NewColumns(table, name, newDef, seen) && t1 == t.(rows := t1.rows) && |t1.rows| == |s.rows|
            && t.auto == HasAuto(FieldDecls(Rewritten(table, name, newDef, seen)))
            && Ordinary(t)
            && forall i | 0 <= i < |s.rows| ::
               |s.rows[i]| >= |t.cols| && StoredFrom(e, t, s.rows[i][..|t.cols|], t1.rows[i])
  {
    var create := CreateTableStatement(Rewritten(table, name, newDef, seen), NO_OPTIONS).value;
    NewNameDiffers(table);
    CreateEffect(e, cat, create, c1);
    NewColumnNames(table, name, newDef, seen);
    var t := c1.tables[Fold(table + "_new")];
    assert t.cols == NewColumns(table, name, newDef, seen) && t.rows == [];
    CopyRuns(e, c1, CopyRows(table + "_new", NamesOf(seen), NamesOf(seen), table), c2);
    CopyEffect(e, c1, CopyRows(table + "_new", NamesOf(seen), NamesOf(seen), table), seen, c2);
  }

  /** Every successful rewrite has that effect: no "_new" table is left, every other table,
      the markers and every other table's indexes are untouched, the table's own secondary
      indexes are gone, and each row is the old row's values converted to the new columns. */
  lemma RewriteHasEffect(e: Storage, cat: Catalog, table: string, name: string, newDef: FieldDef, seen: seq<Column>)
    requires WellKept(cat) && seen <= TableInfo(cat, table)
    requires RewriteSeeing(e, cat, table, name, newDef, seen).Some?
    ensures RewriteEffect(e, cat, RewriteSeeing(e, cat, table, name, newDef, seen).value, table, name, newDef, seen)
  {
    var create := CreateTableStatement(Rewritten(table, name, newDef, seen), NO_OPTIONS).value;
    var c1, c2, c3, c4 := FourSteps(e, cat, RewriteStatements(table, create, NamesOf(seen)));
    CreateAndCopy(e, cat, table, name, newDef, seen, c1, c2);
    DropAndRenameEffect(e, c2, table, c3, c4);
    RewriteAssembled(e, cat, c1, c2, c4, table, name, newDef, seen);
  }

  lemma RewriteAssembled(e: Storage, cat: Catalog, c1: Catalog, c2: Catalog, c4: Catalog,
                         table: string, name: string, newDef: FieldDef, seen: seq<Column>)
    requires Builds(name, newDef, seen)
    requires Fold(table) in cat.tables && Fold(table + "_new") !in cat.tables && seen <= cat.tables[Fold(table)].cols
    requires c1.tables.Keys == cat.tables.Keys + {Fold(table + "_new")}
    requires c1 == cat.(tables := cat.tables[Fold(table + "_new") := c1.tables[Fold(table + "_new")]])
    requires Fold(table + "_new") in c2.tables
             && c2 == c1.(tables := c1.tables[Fold(table + "_new") := c2.tables[Fold(table + "_new")]])
    requires Fold(table) in c4.tables
    requires c4 == c2.(tables := (c2.tables - {Fold(table)}
                                  - {Fold(table + "_new")})[Fold(table) := c4.tables[Fold(table)]],
                       indexes := KeepIndexes(c2.indexes, Fold(table)))
    requires var t, t1, t2 := c1.tables[Fold(table + "_new")], c2.tables[Fold(table + "_new")], c4.tables[Fold(table)];
             && t.cols == NewColumns(table, name, newDef, seen) && t1 == t.(rows := t1.rows)
             && t.auto == HasAuto(FieldDecls(Rewritten(table, name, newDef, seen)))
             && t2 == t1.(name := table, sql := t2.sql)
             && Ordinary(t) && |t1.rows| == |cat.tables[Fold(table)].rows|
             && forall i | 0 <= i < |t1.rows| ::
                  |cat.tables[Fold(table)].rows[i]| >= |t.cols|
                    && StoredFrom(e, t, cat.tables[Fold(table)].rows[i][..|t.cols|], t1.rows[i])
    ensures RewriteEffect(e, cat, c4, table, name, newDef, seen)
  {
    var f, g := Fold(table), Fold(table + "_new");
    NewNameDiffers(table);
    var t, t2, s := c1.tables[g], c4.tables[f], cat.tables[f];
    assert AliasColumn(t2) == AliasColumn(t);
    forall i | 0 <= i < |s.rows|
      ensures |s.rows[i]| >= |t2.cols| && StoredFrom(e, t2, s.rows[i][..|t2.cols|], t2.rows[i]) {
      assert StoredFrom(e, t, s.rows[i][..|t.cols|], c2.tables[g].rows[i]);
    }
    assert cat.tables.Keys == c4.tables.Keys;
    forall h | h in cat.tables && h != f ensures c4.tables[h] == cat.tables[h] {
      assert h != g;
    }
  }

  // ---- What that means for data, keys and flags ----

  lemma {:induction false} FirstNamed(fields: seq<FieldDef>, name: string, i: nat)
    requires i < |fields| && fields[i].name == name
    requires forall k | 0 <= k < i :: fields[k].name != name
    ensures HasAutoIncIntPK(fields, name) <==> fields[i].typ == Int && fields[i].autoIncrement
    decreases i
  {
    if i > 0 {
      assert fields[1..][i - 1] == fields[i];
      FirstNamed(fields[1..], name, i - 1);
    }
  }

  lemma OtherName(cols: seq<Column>, i: nat, j: nat)
    requires DistinctColumns(cols) && i < |cols| && j < |cols| && i != j
    ensures cols[i].name != cols[j].name
  {
    assert Fold(cols[i].name) != Fold(cols[j].name);
  }

  /** The rewrite writes the key inline exactly when the changed column is the whole key and
      is redefined as an auto-incremented Int. */
  lemma InlineRewritten(table: string, name: string, newDef: FieldDef, cols: seq<Column>)
    requires DistinctColumns(cols) && NumberedKey(cols)
    ensures InlineKey(Rewritten(table, name, newDef, cols))
            <==> KeyOf(cols) == [name] && newDef.typ == Int && newDef.autoIncrement
  {
    var def := Rewritten(table, name, newDef, cols);
    if |KeyOf(cols)| == 1 {
      var j := KeyOfColumn(cols, 0);
      forall k | 0 <= k < j ensures def.fields[k].name != cols[j].name {
        OtherName(cols, k, j);
      }
      FirstNamed(def.fields, cols[j].name, j);
      assert def.fields[j] == RewrittenField(cols[j], name, newDef);
      assert KeyOf(cols) == [KeyOf(cols)[0]];
    }
  }

  /** AUTOINCREMENT after a rewrite: only where the rewrite itself asks for it. In particular
      a rewrite of any other column loses it, whatever the table had before. */
  lemma AutoIncrementAfter(table: string, name: string, newDef: FieldDef, cols: seq<Column>)
    requires DistinctColumns(cols) && NumberedKey(cols) && Builds(name, newDef, cols)
    ensures HasAuto(FieldDecls(Rewritten(table, name, newDef, cols)))
            <==> KeyOf(cols) == [name] && newDef.typ == Int && newDef.autoIncrement
  {
    var def := Rewritten(table, name, newDef, cols);
    var decls := FieldDecls(def);
    InlineRewritten(table, name, newDef, cols);
    if InlineKey(def) {
      var j := KeyOfColumn(cols, 0);
      assert def.fields[j] == RewrittenField(cols[j], name, newDef);
      assert decls[j] == FieldDecl(def, def.fields[j]);
      assert decls[j].suffix == AutoRowidKey;
    }
  }

  /** A column of the rewritten table is what its field is written as. */
  lemma NewColumnIs(table: string, name: string, newDef: FieldDef, cols: seq<Column>, j: nat)
    requires Builds(name, newDef, cols) && j < |cols|
    ensures var def, f := Rewritten(table, name, newDef, cols), RewrittenField(cols[j], name, newDef);
            && Typed(f) && f.name == cols[j].name
            && NewColumns(table, name, newDef, cols)[j]
               == ColumnOf(FieldDecl(def, f), if InlineKey(def) then [] else KeyOf(cols))
  {
    var def := Rewritten(table, name, newDef, cols);
    assert def.fields[j] == RewrittenField(cols[j], name, newDef);
    assert Typed(def.fields[j]);
    assert FieldDecls(def)[j] == FieldDecl(def, def.fields[j]);
  }

  lemma NewPosition(table: string, name: string, newDef: FieldDef, cols: seq<Column>, j: nat)
    requires DistinctColumns(cols) && NumberedKey(cols) && Builds(name, newDef, cols) && j < |cols|
    ensures NewColumns(table, name, newDef, cols)[j].pk == cols[j].pk
  {
    NewColumnIs(table, name, newDef, cols, j);
    InlineRewritten(table, name, newDef, cols);
    KeyMember(cols, j);
    if cols[j].pk > 0 { KeyOfPlace(cols, j); }
    KeyPositionsKept(cols, j);
    KeyPositionNone([], cols[j].name);
  }

  lemma NewType(table: string, name: string, newDef: FieldDef, cols: seq<Column>, j: nat)
    requires Builds(name, newDef, cols) && j < |cols|
    ensures var c := NewColumns(table, name, newDef, cols)[j];
            && (cols[j].name != name && IsEmitted(cols[j].decl) ==> c.decl == cols[j].decl)
            && (cols[j].name == name ==> SqliteTypeFor(newDef.typ) == Some(c.decl))
  {
    NewColumnIs(table, name, newDef, cols, j);
    if cols[j].name != name && IsEmitted(cols[j].decl) { KeywordFixedPoint(cols[j].decl); }
  }

  /** NOT NULL by the emission rule, which outside the key looks at how many columns the key has. */
  lemma NewNotNull(table: string, name: string, newDef: FieldDef, cols: seq<Column>, j: nat)
    requires DistinctColumns(cols) && NumberedKey(cols) && Builds(name, newDef, cols) && j < |cols|
    ensures var f := RewrittenField(cols[j], name, newDef);
            NewColumns(table, name, newDef, cols)[j].notNull
            == (!f.nullable && (|KeyOf(cols)| <= 1 || cols[j].pk > 0)
                && !(cols[j].name == name && KeyOf(cols) == [name] && newDef.typ == Int && newDef.autoIncrement))
  {
    NewColumnIs(table, name, newDef, cols, j);
    InlineRewritten(table, name, newDef, cols);
    KeyMember(cols, j);
  }

  /** One column of the rewritten table: its key position is kept; outside the changed column
      an emitted type keyword is kept, and NOT NULL is kept on a column outside the key exactly
      when the key has at most one column. */
  lemma RewrittenColumn(table: string, name: string, newDef: FieldDef, cols: seq<Column>, j: nat)
    requires DistinctColumns(cols) && NumberedKey(cols) && Builds(name, newDef, cols) && j < |cols|
    ensures var c := NewColumns(table, name, newDef, cols)[j];
            && c.name == cols[j].name && c.pk == cols[j].pk
            && (cols[j].name != name && IsEmitted(cols[j].decl) ==> c.decl == cols[j].decl)
            && (cols[j].name == name ==> c.decl == SqliteTypeFor(newDef.typ).value)
            && (cols[j].name != name && cols[j].pk == 0 ==> c.notNull == (cols[j].notNull && |KeyOf(cols)| <= 1))
            && (cols[j].name != name && cols[j].pk > 0 ==> c.notNull)
            && (cols[j].name == name ==>
                  c.notNull == (!newDef.nullable && (|KeyOf(cols)| <= 1 || cols[j].pk > 0)
                                && !(KeyOf(cols) == [name] && newDef.typ == Int && newDef.autoIncrement)))
  {
    NewColumnIs(table, name, newDef, cols, j);
    NewPosition(table, name, newDef, cols, j);
    NewType(table, name, newDef, cols, j);
    NewNotNull(table, name, newDef, cols, j);
  }

  /** The type a column that is not redefined is written with again: its affinity's own keyword, the
      INTEGER of a Boolean, the NUMERIC of a decimal, and TEXT for a date or time and for everything
      that stands for no type. */
  lemma RewrittenType(table: string, name: string, newDef: FieldDef, cols: seq<Column>, j: nat)
    requires Builds(name, newDef, cols) && j < |cols| && cols[j].name != name
    ensures var declared, written := cols[j].decl, NewColumns(table, name, newDef, cols)[j].decl;
            && (written == "INTEGER" <==> AffinityOf(declared) == INTEGER || BoolSpelled(declared))
            && (written == "REAL" <==> AffinityOf(declared) == REAL)
            && (written == "BLOB" <==> AffinityOf(declared) == BLOB && TrimSpace(declared) != "")
            && (written == "NUMERIC" <==> exists p :: DecimalSpelled(declared, p))
            && (written in {"INTEGER", "REAL", "BLOB", "NUMERIC", "TEXT"})
  {
    var r := DbschemaTypeFromSQLite(cols[j].decl);
    NewColumnIs(table, name, newDef, cols, j);
    assert RewrittenFields(cols, name, newDef)[j] == FieldRead(cols[j]);
    WordLaw(cols[j].decl);
    RecognitionRefinesAffinity(cols[j].decl);
    KnownTypes(Upper(TrimSpace(cols[j].decl)));
    KeywordsApart();
    if r.ok && r.typ == Decimal { assert DecimalSpelled(cols[j].decl, r.precision); }
  }

  lemma KnownTypes(u: string)
    ensures RecogniseUpper(u).ok ==> RecogniseUpper(u).typ in {Time, Bool, Decimal, Int, String, Float, Bytes}
  {
  }

  lemma KeywordsApart()
    ensures "INTEGER" != "REAL" && "INTEGER" != "BLOB" && "INTEGER" != "NUMERIC" && "INTEGER" != "TEXT"
    ensures "REAL" != "BLOB" && "REAL" != "NUMERIC" && "REAL" != "TEXT"
    ensures "BLOB" != "NUMERIC" && "BLOB" != "TEXT" && "NUMERIC" != "TEXT"
  {
    assert "INTEGER"[0] == 'I' && "REAL"[0] == 'R' && "BLOB"[0] == 'B' && "NUMERIC"[0] == 'N' && "TEXT"[0] == 'T';
  }

  /** The value is as the column's affinity stores it. */
  ghost predicate Settled(e: Storage, c: Column, v: Value) { e.coerce(AffinityOf(c.decl), v) == v }

  /** The column is the whole key, of declared type INTEGER. */
  predicate SoleInteger(cols: seq<Column>, j: nat)
    requires j < |cols|
  {
    |KeyEntries(cols)| == 1 && cols[j].pk == 1 && Fold(cols[j].decl) == "integer"
  }

  /** A row as SQLite keeps it: values are as their column's affinity stores them, and a sole
      INTEGER key is not NULL. */
  ghost predicate StoredRow(e: Storage, cols: seq<Column>, row: seq<Value>) {
    && |row| == |cols|
    && forall j: nat | j < |cols| :: Settled(e, cols[j], row[j]) && (SoleInteger(cols, j) ==> row[j] != VNull)
  }

  ghost predicate StoredRows(e: Storage, t: Table) {
    forall i | 0 <= i < |t.rows| :: StoredRow(e, t.cols, t.rows[i])
  }

  predicate AllEmitted(cols: seq<Column>) { forall j | 0 <= j < |cols| :: IsEmitted(cols[j].decl) }

  lemma SameEntries(a: seq<Column>, b: seq<Column>)
    requires |a| == |b| && forall j | 0 <= j < |a| :: a[j].name == b[j].name && a[j].pk == b[j].pk
    ensures KeyEntries(a) == KeyEntries(b)
    decreases |a|
  {
    if a != [] { SameEntries(a[..|a| - 1], b[..|b| - 1]); }
  }

  function ConvertedTo(e: Storage, typ: Type, v: Value): Value
    requires SqliteTypeFor(typ).Some?
  {
    e.coerce(AffinityOf(SqliteTypeFor(typ).value), v)
  }

  ghost predicate ValueAfter(e: Storage, t: Table, t': Table, name: string, typ: Type, i: nat, j: nat)
    requires SqliteTypeFor(typ).Some? && i < |t.rows| == |t'.rows| && j < |t.cols| == |t'.cols|
  {
    if t.cols[j].name != name then t'.rows[i][j] == t.rows[i][j]
    else t'.rows[i][j] == ConvertedTo(e, typ, t.rows[i][j])
         || (AliasColumn(t') == Some(j) && ConvertedTo(e, typ, t.rows[i][j]) == VNull)
  }

  /** Same shape and rows; every value outside the changed column kept, the changed column's
      values converted to its new type (or, for a rowid that would be NULL, chosen anew). */
  ghost predicate DataKept(e: Storage, t: Table, t': Table, name: string, typ: Type)
    requires SqliteTypeFor(typ).Some?
  {
    && |t'.cols| == |t.cols| && |t'.rows| == |t.rows|
    && forall i, j | 0 <= i < |t.rows| && 0 <= j < |t.cols| :: ValueAfter(e, t, t', name, typ, i, j)
  }

  lemma ValueKept(e: Storage, t: Table, t': Table, table: string, name: string, newDef: FieldDef, i: nat, j: nat)
    requires DistinctColumns(t.cols) && NumberedKey(t.cols) && AllEmitted(t.cols) && StoredRows(e, t)
    requires Builds(name, newDef, t.cols) && t'.cols == NewColumns(table, name, newDef, t.cols)
    requires i < |t.rows| == |t'.rows| && j < |t.cols| == |t'.cols|
    requires |t.rows[i]| == |t'.cols| && StoredFrom(e, t', t.rows[i], t'.rows[i])
    requires SameKey(t, t') && SqliteTypeFor(newDef.typ).Some?
    ensures ValueAfter(e, t, t', name, newDef.typ, i, j)
  {
    RewrittenColumn(table, name, newDef, t.cols, j);
    assert StoredRow(e, t.cols, t.rows[i]);
    assert Settled(e, t.cols[j], t.rows[i][j]) && (SoleInteger(t.cols, j) ==> t.rows[i][j] != VNull);
    assert t'.rows[i][j] == e.coerce(AffinityOf(t'.cols[j].decl), t.rows[i][j])
           || (AliasColumn(t') == Some(j) && e.coerce(AffinityOf(t'.cols[j].decl), t.rows[i][j]) == VNull);
  }

  predicate SameKey(t: Table, t': Table) { KeyEntries(t'.cols) == KeyEntries(t.cols) }

  lemma TypeBuilds(name: string, newDef: FieldDef, cols: seq<Column>)
    requires Sees(cols, name) && Builds(name, newDef, cols)
    ensures SqliteTypeFor(newDef.typ).Some?
  {
    var j :| 0 <= j < |cols| && cols[j].name == name;
    assert RewrittenField(cols[j], name, newDef) == RewrittenFields(cols, name, newDef)[j];
  }

  lemma ColumnsKept(table: string, name: string, newDef: FieldDef, cols: seq<Column>)
    requires DistinctColumns(cols) && NumberedKey(cols) && Builds(name, newDef, cols)
    ensures var cols' := NewColumns(table, name, newDef, cols);
            |cols'| == |cols| && NamesOf(cols') == NamesOf(cols) && KeyEntries(cols') == KeyEntries(cols)
  {
    var cols' := NewColumns(table, name, newDef, cols);
    NewColumnNames(table, name, newDef, cols);
    forall j | 0 <= j < |cols| ensures cols'[j].name == cols[j].name && cols'[j].pk == cols[j].pk {
      RewrittenColumn(table, name, newDef, cols, j);
    }
    SameEntries(cols', cols);
  }

  lemma RowsKept(e: Storage, t: Table, t': Table, table: string, name: string, newDef: FieldDef)
    requires DistinctColumns(t.cols) && NumberedKey(t.cols) && AllEmitted(t.cols) && StoredRows(e, t)
    requires Builds(name, newDef, t.cols) && t'.cols == NewColumns(table, name, newDef, t.cols) && SameKey(t, t')
    requires |t'.cols| == |t.cols| && |t'.rows| == |t.rows| && SqliteTypeFor(newDef.typ).Some?
    requires forall i | 0 <= i < |t.rows| :: StoredFrom(e, t', t.rows[i][..|t'.cols|], t'.rows[i])
    ensures DataKept(e, t, t', name, newDef.typ)
  {
    forall i, j | 0 <= i < |t.rows| && 0 <= j < |t.cols| ensures ValueAfter(e, t, t', name, newDef.typ, i, j) {
      assert t.rows[i][..|t'.cols|] == t.rows[i];
      assert StoredFrom(e, t', t.rows[i][..|t'.cols|], t'.rows[i]);
      ValueKept(e, t, t', table, name, newDef, i, j);
    }
  }

  lemma EffectKeepsData(e: Storage, cat: Catalog, cat': Catalog, table: string, name: string, newDef: FieldDef)
    requires WellKept(cat) && Fold(table) in cat.tables
    requires var t := cat.tables[Fold(table)];
             && NumberedKey(t.cols) && AllEmitted(t.cols) && StoredRows(e, t)
             && RewriteEffect(e, cat, cat', table, name, newDef, t.cols) && Sees(t.cols, name)
    ensures SqliteTypeFor(newDef.typ).Some?
    ensures var t, t' := cat.tables[Fold(table)], cat'.tables[Fold(table)];
            NamesOf(t'.cols) == NamesOf(t.cols) && KeyOf(t'.cols) == KeyOf(t.cols)
              && DataKept(e, t, t', name, newDef.typ)
  {
    var t, t' := cat.tables[Fold(table)], cat'.tables[Fold(table)];
    TypeBuilds(name, newDef, t.cols);
    ColumnsKept(table, name, newDef, t.cols);
    RowsKept(e, t, t', table, name, newDef);
  }

  /** On a table of emitted types, a successful rewrite that saw the whole table keeps the
      columns and their order, the key and its order, the number of rows, and every value
      outside the changed column; the changed column's values are converted to its new type. */
  lemma RewritePreservesData(e: Storage, cat: Catalog, table: string, name: string, newDef: FieldDef)
    requires WellKept(cat) && Fold(table) in cat.tables
    requires var t := cat.tables[Fold(table)]; NumberedKey(t.cols) && AllEmitted(t.cols) && StoredRows(e, t)
    requires RewriteSeeing(e, cat, table, name, newDef, cat.tables[Fold(table)].cols).Some?
    ensures SqliteTypeFor(newDef.typ).Some?
    ensures var cat' := RewriteSeeing(e, cat, table, name, newDef, cat.tables[Fold(table)].cols).value;
            && Fold(table) in cat'.tables
            && var t, t' := cat.tables[Fold(table)], cat'.tables[Fold(table)];
            NamesOf(t'.cols) == NamesOf(t.cols) && KeyOf(t'.cols) == KeyOf(t.cols)
              && DataKept(e, t, t', name, newDef.typ)
  {
    var cols := cat.tables[Fold(table)].cols;
    assert TableInfo(cat, table) == cols;
    RewriteHasEffect(e, cat, table, name, newDef, cols);
    EffectKeepsData(e, cat, RewriteSeeing(e, cat, table, name, newDef, cols).value, table, name, newDef);
  }

  /** A rewrite whose introspection was cut short keeps only the columns it saw: the column
      names survive exactly when the rows of the introspection were complete. */
  lemma ColumnsKeptIffSeen(e: Storage, cat: Catalog, table: string, name: string, newDef: FieldDef, seen: seq<Column>)
    requires WellKept(cat) && seen <= TableInfo(cat, table)
    requires RewriteSeeing(e, cat, table, name, newDef, seen).Some?
    ensures var cat' := RewriteSeeing(e, cat, table, name, newDef, seen).value;
            && Fold(table) in cat'.tables
            && NamesOf(cat'.tables[Fold(table)].cols) == NamesOf(seen)
            && (NamesOf(cat'.tables[Fold(table)].cols) == NamesOf(TableInfo(cat, table))
                <==> seen == TableInfo(cat, table))
  {
    RewriteHasEffect(e, cat, table, name, newDef, seen);
    NewColumnNames(table, name, newDef, seen);
    if NamesOf(seen) == NamesOf(TableInfo(cat, table)) {
      assert |seen| == |NamesOf(seen)| == |TableInfo(cat, table)|;
    }
  }
}
