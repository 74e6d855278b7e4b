/** The operations of AlterCollection against the logical schema: each one that succeeds is
    followed by the catalog and its Time markers exactly under a condition the caller can
    check beforehand. */
module AlterFollows {
  import opened Text
  import opened DbSchema
  import opened SqlText
  import opened TypeMapping
  import opened SqlGen
  import opened KeyOrder
  import opened Catalog
  import opened SchemaModifier
  import opened ColumnRewrite
  import opened LogicalSchema

  // ---- The alter operations ----

  lemma {:induction false} FindSame(lcols: seq<LogicalColumn>, cols: seq<Column>, name: string)
    requires |lcols| == |cols| && forall j | 0 <= j < |lcols| :: lcols[j].name == cols[j].name
    ensures FindLogical(lcols, name) == FindColumn(cols, name)
    decreases |cols|
  {
    if cols != [] { FindSame(lcols[1..], cols[1..], name); }
  }

  lemma AddedColumns(lcols: seq<LogicalColumn>, cols: seq<Column>, f: FieldDef)
    requires ColumnsFollow(lcols, cols) && SqliteTypeFor(f.typ).Some?
    requires FindColumn(cols, f.name).None?
    ensures ColumnsFollow(lcols + [LogicalColumn(f.name, f.typ, !f.nullable, 0)],
                          cols + [Column(f.name, SqliteTypeFor(f.typ).value, !f.nullable, 0)])
  {
    var c := Column(f.name, SqliteTypeFor(f.typ).value, !f.nullable, 0);
    AppendedKey(cols, c);
  }

  lemma RemovedColumns(lcols: seq<LogicalColumn>, cols: seq<Column>, i: nat)
    requires ColumnsFollow(lcols, cols) && i < |cols| && cols[i].pk == 0
    ensures ColumnsFollow(Without(lcols, i), Without(cols, i))
  {
    RemovedKey(cols, i);
    var l', c' := Without(lcols, i), Without(cols, i);
    forall j | 0 <= j < |c'|
      ensures c'[j] == cols[if j < i then j else j + 1] && l'[j] == lcols[if j < i then j else j + 1]
    {
    }
  }

  lemma RenamedColumns(lcols: seq<LogicalColumn>, cols: seq<Column>, i: nat, n: string)
    requires ColumnsFollow(lcols, cols) && i < |cols|
    requires forall j | 0 <= j < |cols| && j != i :: Fold(cols[j].name) != Fold(n)
    ensures ColumnsFollow(lcols[i := lcols[i].(name := n)], cols[i := cols[i].(name := n)])
  {
    SamePositions(cols, cols[i := cols[i].(name := n)]);
  }

  /** The rowid column stays one under changes that keep the key's positions and types. */
  lemma AliasKept(t: Table, t': Table, i: nat)
    requires AliasColumn(t).Some? && !t'.withoutRowid && NumberedKey(t.cols) && NumberedKey(t'.cols)
    requires |KeyEntries(t'.cols)| == |KeyEntries(t.cols)|
    requires i < |t'.cols| && t'.cols[i].pk == 1 && t'.cols[i].decl == t.cols[AliasColumn(t).value].decl
    ensures AliasColumn(t').Some?
  {
    ColumnsFromNumbered(t'.cols);
    var k := FindPosition(t'.cols, 1).value;
    assert k == i;
  }

  lemma TimeAdded(lcols: seq<LogicalColumn>, c: LogicalColumn, x: string)
    ensures HasTime(lcols + [c], x) <==> HasTime(lcols, x) || (c.typ == Time && c.name == x)
  {
    var all := lcols + [c];
    if HasTime(lcols, x) {
      var j :| 0 <= j < |lcols| && lcols[j].typ == Time && lcols[j].name == x;
      assert all[j] == lcols[j];
    }
    if c.typ == Time && c.name == x { assert all[|lcols|] == c; }
  }

  predicate DistinctLogical(lcols: seq<LogicalColumn>) {
    forall i, j | 0 <= i < j < |lcols| :: Fold(lcols[i].name) != Fold(lcols[j].name)
  }

  lemma TimeRemoved(lcols: seq<LogicalColumn>, i: nat, x: string)
    requires i < |lcols| && DistinctLogical(lcols)
    ensures HasTime(Without(lcols, i), x) <==> HasTime(lcols, x) && x != lcols[i].name
  {
    var rest := Without(lcols, i);
    if HasTime(rest, x) {
      var j :| 0 <= j < |rest| && rest[j].typ == Time && rest[j].name == x;
      var k := if j < i then j else j + 1;
      assert lcols[k] == rest[j] && Fold(lcols[k].name) != Fold(lcols[i].name);
    }
    if HasTime(lcols, x) && x != lcols[i].name {
      var j :| 0 <= j < |lcols| && lcols[j].typ == Time && lcols[j].name == x;
      var k := if j < i then j else j - 1;
      assert rest[k] == lcols[j];
    }
  }

  lemma TimeRenamed(lcols: seq<LogicalColumn>, i: nat, n: string, x: string)
    requires i < |lcols| && DistinctLogical(lcols)
    requires forall j | 0 <= j < |lcols| && j != i :: Fold(lcols[j].name) != Fold(n)
    ensures HasTime(lcols[i := lcols[i].(name := n)], x)
            <==> (HasTime(lcols, x) && x != lcols[i].name) || (lcols[i].typ == Time && x == n)
  {
    var all := lcols[i := lcols[i].(name := n)];
    if HasTime(all, x) {
      var j :| 0 <= j < |all| && all[j].typ == Time && all[j].name == x;
      if j != i { assert lcols[j] == all[j] && Fold(lcols[j].name) != Fold(lcols[i].name); }
    }
    if HasTime(lcols, x) && x != lcols[i].name {
      var j :| 0 <= j < |lcols| && lcols[j].typ == Time && lcols[j].name == x;
      assert all[j] == lcols[j];
    }
    if lcols[i].typ == Time && x == n { assert all[i].name == n && all[i].typ == Time; }
  }

  lemma FollowDistinct(lcols: seq<LogicalColumn>, cols: seq<Column>)
    requires ColumnsFollow(lcols, cols)
    ensures DistinctLogical(lcols)
  {
    forall i, j | 0 <= i < j < |lcols| ensures Fold(lcols[i].name) != Fold(lcols[j].name) {
      assert cols[i].name == lcols[i].name && cols[j].name == lcols[j].name;
    }
  }

  /** Only the markers of one collection changed, and they are those of its new columns. */
  ghost predicate MarkersOf(before: set<(string, string)>, coll: string, lcols: seq<LogicalColumn>,
                            after: set<(string, string)>, sidecar: bool) {
    && (forall t, x | t != coll :: (t, x) in after <==> (t, x) in before)
    && (forall x :: (coll, x) in after <==> HasTime(lcols, x))
    && (after != {} ==> sidecar)
  }

  lemma AlteredMarkers(s: Schema, before: set<(string, string)>, sidecar: bool, k: string, c': Collection,
                       after: set<(string, string)>, sidecar': bool)
    requires MarkersFollow(s, before, sidecar) && k in s && Fold(s[k].name) == k && c'.name == s[k].name
    ensures MarkersFollow(s[k := c'], after, sidecar') <==> MarkersOf(before, c'.name, c'.cols, after, sidecar')
  {
    var s' := s[k := c'];
    forall t, x ensures IsTimeColumn(s', t, x) <==> if t == c'.name then HasTime(c'.cols, x) else (t, x) in before {
      assert (t, x) in before <==> IsTimeColumn(s, t, x);
    }
  }

  lemma MarkersBefore(s: Schema, markers: set<(string, string)>, sidecar: bool, k: string)
    requires MarkersFollow(s, markers, sidecar) && k in s && Fold(s[k].name) == k
    ensures MarkersOf(markers, s[k].name, s[k].cols, markers, sidecar)
  {
    forall x ensures (s[k].name, x) in markers <==> HasTime(s[k].cols, x) {
      assert (s[k].name, x) in markers <==> IsTimeColumn(s, s[k].name, x);
    }
  }

  /** A table whose columns changed without touching its key still follows; `at` is where its
      rowid column then stands, if it has one. */
  lemma ReshapedFollows(c: Collection, t: Table, c': Collection, t': Table, at: nat)
    requires TableFollows(c, t) && c'.name == c.name && c'.auto == c.auto
    requires t'.name == t.name && t'.auto == t.auto && Ordinary(t')
    requires ColumnsFollow(c'.cols, t'.cols) && |KeyEntries(t'.cols)| == |KeyEntries(t.cols)|
    requires t.auto && AliasColumn(t).Some? ==>
               at < |t'.cols| && t'.cols[at].pk == 1 && t'.cols[at].decl == t.cols[AliasColumn(t).value].decl
    ensures TableFollows(c', t')
  {
    if t.auto { AliasKept(t, t', at); }
  }

  /** Where the rowid column of a table stands. */
  function AliasAt(t: Table): nat { if AliasColumn(t).Some? then AliasColumn(t).value else 0 }

  /** An operation that replaced one table and its columns follows exactly when its markers do. */
  lemma AlteredFollows(s: Schema, cat: Catalog, cat': Catalog, k: string, c': Collection)
    requires Follows(s, cat) && k in s && c'.name == s[k].name
    requires k in cat'.tables && cat'.tables == cat.tables[k := cat'.tables[k]]
    requires TableFollows(c', cat'.tables[k]) && IndexesFollow(cat'.indexes, cat'.tables)
    ensures Follows(s[k := c'], cat') <==> MarkersOf(cat.markers, c'.name, c'.cols, cat'.markers, cat'.sidecar)
  {
    OneTableChanged(s, cat.tables, c', cat'.tables[k]);
    AlteredMarkers(s, cat.markers, cat.sidecar, k, c', cat'.markers, cat'.sidecar);
  }

  lemma TableOf(s: Schema, cat: Catalog, k: string)
    requires Follows(s, cat) && k in cat.tables
    ensures k in s && Fold(s[k].name) == k && TableFollows(s[k], cat.tables[k])
    ensures MarkersOf(cat.markers, s[k].name, s[k].cols, cat.markers, cat.sidecar)
    ensures DistinctLogical(s[k].cols)
  {
    assert TableFollows(s[k], cat.tables[k]);
    MarkersBefore(s, cat.markers, cat.sidecar, k);
    FollowDistinct(s[k].cols, cat.tables[k].cols);
  }

  /** A field to be dropped: a Time needs both exact names, and its marker's cleanup. */
  predicate FieldDropSound(c: Collection, table: string, n: string, choice: Choice) {
    forall i | 0 <= i < |c.cols| && Fold(c.cols[i].name) == Fold(n) && c.cols[i].typ == Time ::
      choice != MarkerSkipped && c.name == table && c.cols[i].name == n
  }

  /** A field to be renamed: a Time that really changes its name needs both exact names, and its
      marker's move. */
  predicate RenameSound(c: Collection, table: string, o: string, n: string, choice: Choice) {
    forall i | 0 <= i < |c.cols| && Fold(c.cols[i].name) == Fold(o) && c.cols[i].typ == Time ::
      c.cols[i].name == n || (choice != MarkerSkipped && c.name == table && c.cols[i].name == o)
  }

  /** No marker names another spelling of the collection. */
  ghost predicate OneSpelling(markers: set<(string, string)>, coll: string) {
    forall t, x :: Fold(t) == Fold(coll) && t != coll ==> (t, x) !in markers
  }

  /** What the caller can check before the operation, and what the environment must not spoil. An
      added Time field needs the collection's exact name; so does dropping or really renaming a
      Time field, with the field's exact name and a marker statement that is not refused; a rewrite
      needs the collection's exact name, keeps whether its field is a Time, and must have seen
      every column. Everything else is free. */
  predicate OpSound(s: Schema, table: string, op: AlterOp, choice: Choice) {
    Fold(table) in s ==>
      var c := s[Fold(table)];
      match op
      case AddField(f) => f.typ == Time ==> c.name == table
      case DropField(n) => FieldDropSound(c, table, n, choice)
      case RenameField(o, n) => RenameSound(c, table, o, n, choice)
      case ModifyField(n, d) =>
        c.name == table && SameTimeness(c.cols, n, d) && (choice.CutTo? ==> |c.cols| <= choice.seen)
      case _ => true
  }

  predicate SameTimeness(cols: seq<LogicalColumn>, n: string, d: FieldDef) {
    forall i | 0 <= i < |cols| :: cols[i].name == n ==> (cols[i].typ == Time <==> d.typ == Time)
  }

  predicate OpsSound(s: Schema, table: string, ops: seq<AlterOp>, choices: seq<Choice>)
    requires |choices| == |ops|
  {
    ops == []
    || (var n := |ops| - 1;
        OpsSound(s, table, ops[..n], choices[..n]) && OpSound(ApplyOps(s, table, ops[..n]), table, ops[n], choices[n]))
  }

  /** The statement replaced one table, keeping its name and flags. */
  ghost predicate Reshapes(cat: Catalog, c1: Catalog, table: string) {
    var k := Fold(table);
    && k in cat.tables && k in c1.tables
    && c1 == cat.(tables := cat.tables[k := c1.tables[k]], indexes := c1.indexes)
    && var t, t' := cat.tables[k], c1.tables[k];
    t'.name == t.name && t'.auto == t.auto && SameKind(t', t)
  }

  // ---- Adding a field ----

  lemma AddEffect(e: Storage, cat: Catalog, table: string, f: FieldDef) returns (c1: Catalog)
    requires AddFieldMeaning(e, cat, table, f).Some?
    ensures SqliteTypeFor(f.typ).Some? && Reshapes(cat, c1, table) && c1.indexes == cat.indexes
    ensures var t, t' := cat.tables[Fold(table)], c1.tables[Fold(table)];
            && FindColumn(t.cols, f.name).None?
            && t'.cols == t.cols + [Column(f.name, SqliteTypeFor(f.typ).value, !f.nullable, 0)]
    ensures AddFieldMeaning(e, cat, table, f) == Some(WithMarkers(c1, table, if f.typ == Time then [f.name] else []))
  {
    c1 := Emitted(e, cat, AddColumnStatement(table, f).value).value;
  }

  lemma AddedTable(c: Collection, t: Table, t': Table, f: FieldDef)
    requires TableFollows(c, t) && SqliteTypeFor(f.typ).Some? && FindColumn(t.cols, f.name).None?
    requires t'.name == t.name && t'.auto == t.auto && Ordinary(t')
    requires t'.cols == t.cols + [Column(f.name, SqliteTypeFor(f.typ).value, !f.nullable, 0)]
    ensures TableFollows(ApplyToColumns(c, AddField(f)), t')
  {
    AddedColumns(c.cols, t.cols, f);
    AppendedKey(t.cols, Column(f.name, SqliteTypeFor(f.typ).value, !f.nullable, 0));
    ReshapedFollows(c, t, ApplyToColumns(c, AddField(f)), t', AliasAt(t));
  }

  lemma NoTimeUnfound(lcols: seq<LogicalColumn>, cols: seq<Column>, x: string)
    requires ColumnsFollow(lcols, cols) && FindColumn(cols, x).None?
    ensures !HasTime(lcols, x)
  {
    forall j | 0 <= j < |lcols| ensures lcols[j].name != x {
      assert cols[j].name == lcols[j].name;
    }
  }

  lemma AddedMarkers(before: set<(string, string)>, coll: string, table: string, lcols: seq<LogicalColumn>,
                     c1: Catalog, f: FieldDef)
    requires c1.markers == before && MarkersOf(before, coll, lcols, before, c1.sidecar) && !HasTime(lcols, f.name)
    ensures var c2 := WithMarkers(c1, table, if f.typ == Time then [f.name] else []);
            MarkersOf(before, coll, lcols + [LogicalColumn(f.name, f.typ, !f.nullable, 0)], c2.markers, c2.sidecar)
            <==> (f.typ == Time ==> coll == table)
  {
    var c2 := WithMarkers(c1, table, if f.typ == Time then [f.name] else []);
    var l := LogicalColumn(f.name, f.typ, !f.nullable, 0);
    forall t, x ensures (t, x) in c2.markers <==> (t, x) in before || (f.typ == Time && t == table && x == f.name) {
      assert x in [f.name] <==> x == f.name;
    }
    forall x ensures HasTime(lcols + [l], x) <==> (coll, x) in before || (f.typ == Time && x == f.name) {
      TimeAdded(lcols, l, x);
    }
    if f.typ == Time && coll != table {
      assert (coll, f.name) !in c2.markers && HasTime(lcols + [l], f.name);
    }
  }

  lemma AddFollows(s: Schema, cat: Catalog, table: string, f: FieldDef, c1: Catalog)
    requires Follows(s, cat) && SqliteTypeFor(f.typ).Some?
    requires Reshapes(cat, c1, table) && c1.indexes == cat.indexes
    requires var t, t' := cat.tables[Fold(table)], c1.tables[Fold(table)];
             && FindColumn(t.cols, f.name).None?
             && t'.cols == t.cols + [Column(f.name, SqliteTypeFor(f.typ).value, !f.nullable, 0)]
    ensures Follows(ApplyOp(s, table, AddField(f)), WithMarkers(c1, table, if f.typ == Time then [f.name] else []))
            <==> OpSound(s, table, AddField(f), Whole)
  {
    var k := Fold(table);
    TableOf(s, cat, k);
    AddedTable(s[k], cat.tables[k], c1.tables[k], f);
    NoTimeUnfound(s[k].cols, cat.tables[k].cols, f.name);
    AddedMarkers(cat.markers, s[k].name, table, s[k].cols, c1, f);
    AlteredFollows(s, cat, WithMarkers(c1, table, if f.typ == Time then [f.name] else []), k,
                   ApplyToColumns(s[k], AddField(f)));
  }

  // ---- Dropping a field ----

  lemma DropColumnEffect(e: Storage, cat: Catalog, table: string, n: string, choice: Choice)
    returns (c1: Catalog, i: nat)
    requires DropFieldMeaning(e, cat, table, n, choice).Some?
    ensures Reshapes(cat, c1, table) && c1.indexes == cat.indexes
    ensures var t, t' := cat.tables[Fold(table)], c1.tables[Fold(table)];
            FindColumn(t.cols, n) == Some(i) && t.cols[i].pk == 0 && t'.cols == Without(t.cols, i)
    ensures DropFieldMeaning(e, cat, table, n, choice) == Some(AfterMarker(c1, DeleteMarker(table, n), choice))
  {
    c1 := Emitted(e, cat, SqlText.DropColumn(table, n)).value;
    i := FindColumn(cat.tables[Fold(table)].cols, n).value;
  }

  lemma DropFound(c: Collection, t: Table, n: string, i: nat)
    requires TableFollows(c, t) && FindColumn(t.cols, n) == Some(i)
    ensures i < |c.cols| && FindLogical(c.cols, n) == Some(i)
    ensures ApplyToColumns(c, DropField(n)) == c.(cols := Without(c.cols, i))
  {
    FindSame(c.cols, t.cols, n);
  }

  lemma AliasMoved(t: Table, i: nat)
    requires i < |t.cols| && t.cols[i].pk == 0 && AliasColumn(t).Some?
    ensures var a := AliasColumn(t).value; Without(t.cols, i)[if a < i then a else a - 1] == t.cols[a]
  {
  }

  lemma DroppedTable(c: Collection, t: Table, t': Table, n: string, i: nat)
    requires TableFollows(c, t) && FindColumn(t.cols, n) == Some(i) && t.cols[i].pk == 0
    requires t'.name == t.name && t'.auto == t.auto && Ordinary(t')
    requires t'.cols == Without(t.cols, i)
    ensures FindLogical(c.cols, n) == Some(i)
    ensures TableFollows(ApplyToColumns(c, DropField(n)), t')
  {
    DropFound(c, t, n, i);
    RemovedColumns(c.cols, t.cols, i);
    RemovedKey(t.cols, i);
    if AliasColumn(t).Some? { AliasMoved(t, i); }
    var a := AliasAt(t);
    ReshapedFollows(c, t, c.(cols := Without(c.cols, i)), t', if a < i then a else if a > 0 then a - 1 else 0);
  }

  /** Among columns of distinct names, a Time column of a name is the one that name finds. */
  lemma TimeIsFound(lcols: seq<LogicalColumn>, i: nat, x: string)
    requires DistinctLogical(lcols) && i < |lcols| && Fold(lcols[i].name) == Fold(x)
    ensures HasTime(lcols, x) <==> lcols[i].typ == Time && lcols[i].name == x
    ensures forall j | 0 <= j < |lcols| :: Fold(lcols[j].name) == Fold(x) ==> j == i
  {
  }

  lemma DroppedFieldMarkers(before: set<(string, string)>, coll: string, table: string, lcols: seq<LogicalColumn>,
                            c1: Catalog, i: nat, n: string)
    requires c1.markers == before && MarkersOf(before, coll, lcols, before, c1.sidecar)
    requires DistinctLogical(lcols) && i < |lcols| && Fold(lcols[i].name) == Fold(n)
    requires Fold(table) == Fold(coll) && OneSpelling(before, coll)
    ensures var c2 := BestEffort(c1, DeleteMarker(table, n));
            MarkersOf(before, coll, Without(lcols, i), c2.markers, c2.sidecar)
            <==> (lcols[i].typ == Time ==> coll == table && lcols[i].name == n)
  {
    var c2 := BestEffort(c1, DeleteMarker(table, n));
    TimeIsFound(lcols, i, n);
    TimeIsFound(lcols, i, lcols[i].name);
    forall x ensures HasTime(Without(lcols, i), x) <==> (coll, x) in before && x != lcols[i].name {
      TimeRemoved(lcols, i, x);
    }
    assert c2.markers == before - {(table, n)};
    if lcols[i].typ == Time && !(coll == table && lcols[i].name == n) {
      assert (coll, lcols[i].name) in c2.markers;
    }
  }

  /** Without the cleanup the markers stay as they were. */
  lemma UncleanedMarkers(before: set<(string, string)>, coll: string, lcols: seq<LogicalColumn>, sidecar: bool, i: nat)
    requires MarkersOf(before, coll, lcols, before, sidecar) && DistinctLogical(lcols) && i < |lcols|
    ensures MarkersOf(before, coll, Without(lcols, i), before, sidecar) <==> lcols[i].typ != Time
  {
    TimeIsFound(lcols, i, lcols[i].name);
    forall x ensures HasTime(Without(lcols, i), x) <==> (coll, x) in before && x != lcols[i].name {
      TimeRemoved(lcols, i, x);
    }
  }

  lemma DroppedMarks(c: Collection, before: set<(string, string)>, table: string, n: string, c1: Catalog, i: nat,
                     choice: Choice)
    requires c1.markers == before && DistinctLogical(c.cols) && MarkersOf(before, c.name, c.cols, before, c1.sidecar)
    requires Fold(table) == Fold(c.name) && OneSpelling(before, c.name) && FindLogical(c.cols, n) == Some(i)
    ensures var c2 := AfterMarker(c1, DeleteMarker(table, n), choice);
            && c2 == c1.(markers := c2.markers)
            && (MarkersOf(before, c.name, ApplyToColumns(c, DropField(n)).cols, c2.markers, c2.sidecar)
                <==> FieldDropSound(c, table, n, choice))
  {
    TimeIsFound(c.cols, i, n);
    if choice == MarkerSkipped { UncleanedMarkers(before, c.name, c.cols, c1.sidecar, i); }
    else { DroppedFieldMarkers(before, c.name, table, c.cols, c1, i, n); }
  }

  lemma DropFieldFollows(s: Schema, cat: Catalog, table: string, n: string, c1: Catalog, i: nat, choice: Choice)
    requires Follows(s, cat) && Reshapes(cat, c1, table) && c1.indexes == cat.indexes
    requires var t, t' := cat.tables[Fold(table)], c1.tables[Fold(table)];
             FindColumn(t.cols, n) == Some(i) && t.cols[i].pk == 0 && t'.cols == Without(t.cols, i)
    ensures Follows(ApplyOp(s, table, DropField(n)), AfterMarker(c1, DeleteMarker(table, n), choice))
            <==> OpSound(s, table, DropField(n), choice)
  {
    var k := Fold(table);
    TableOf(s, cat, k);
    OtherSpellingsUnmarked(s, cat, k);
    DroppedTable(s[k], cat.tables[k], c1.tables[k], n, i);
    DroppedMarks(s[k], cat.markers, table, n, c1, i, choice);
    AlteredFollows(s, cat, AfterMarker(c1, DeleteMarker(table, n), choice), k, ApplyToColumns(s[k], DropField(n)));
  }

  lemma OtherSpellingsUnmarked(s: Schema, cat: Catalog, k: string)
    requires Follows(s, cat) && k in s
    ensures OneSpelling(cat.markers, s[k].name)
  {
    assert TablesFollow(s, cat.tables);
    forall t, x | Fold(t) == Fold(s[k].name) && t != s[k].name ensures (t, x) !in cat.markers {
      assert (t, x) in cat.markers <==> IsTimeColumn(s, t, x);
    }
  }

  // ---- Renaming a field ----

  lemma RenameColumnEffect(e: Storage, cat: Catalog, table: string, o: string, n: string, choice: Choice)
    returns (c1: Catalog, i: nat)
    requires RenameFieldMeaning(e, cat, table, o, n, choice).Some?
    ensures Reshapes(cat, c1, table) && c1.indexes == RenamedIndexes(cat.indexes, Fold(table), o, n)
    ensures var t, t' := cat.tables[Fold(table)], c1.tables[Fold(table)];
            && FindColumn(t.cols, o) == Some(i) && (FindColumn(t.cols, n).Some? ==> Fold(n) == Fold(o))
            && t'.cols == t.cols[i := t.cols[i].(name := n)]
    ensures Emitted(e, cat, SqlText.RenameColumn(table, o, n)) == Some(c1)
    ensures RenameFieldMeaning(e, cat, table, o, n, choice) == Some(AfterMarker(c1, UpdateMarker(table, o, n), choice))
  {
    c1 := Emitted(e, cat, SqlText.RenameColumn(table, o, n)).value;
    i := FindColumn(cat.tables[Fold(table)].cols, o).value;
  }

  lemma RenamedTable(c: Collection, t: Table, t': Table, o: string, n: string, i: nat)
    requires TableFollows(c, t) && FindColumn(t.cols, o) == Some(i)
    requires FindColumn(t.cols, n).Some? ==> Fold(n) == Fold(o)
    requires t'.name == t.name && t'.auto == t.auto && Ordinary(t')
    requires t'.cols == t.cols[i := t.cols[i].(name := n)]
    ensures FindLogical(c.cols, o) == Some(i)
    ensures forall j | 0 <= j < |c.cols| && j != i :: Fold(c.cols[j].name) != Fold(n)
    ensures TableFollows(ApplyToColumns(c, RenameField(o, n)), t')
  {
    FindSame(c.cols, t.cols, o);
    forall j | 0 <= j < |t.cols| && j != i ensures Fold(t.cols[j].name) != Fold(n) && Fold(c.cols[j].name) != Fold(n) {
      assert Fold(t.cols[j].name) != Fold(t.cols[i].name);
      assert c.cols[j].name == t.cols[j].name;
    }
    RenamedColumns(c.cols, t.cols, i, n);
    SamePositions(t.cols, t'.cols);
    ReshapedFollows(c, t, ApplyToColumns(c, RenameField(o, n)), t', AliasAt(t));
  }

  /** The marker UPDATE of a rename never meets another marker of the new name, and without a
      sidecar there is no marker to move: ignoring its error loses nothing. */
  lemma RenameMovesFreely(coll: string, table: string, lcols: seq<LogicalColumn>, c1: Catalog, i: nat, o: string,
                          n: string)
    requires MarkersOf(c1.markers, coll, lcols, c1.markers, c1.sidecar) && DistinctLogical(lcols)
    requires i < |lcols| && Fold(lcols[i].name) == Fold(o)
    requires forall j | 0 <= j < |lcols| && j != i :: Fold(lcols[j].name) != Fold(n)
    requires Fold(table) == Fold(coll) && OneSpelling(c1.markers, coll)
    ensures c1.sidecar ==> MarkerStep(c1, UpdateMarker(table, o, n)).Some?
    ensures !c1.sidecar ==> c1.markers == {}
    ensures BestEffort(c1, UpdateMarker(table, o, n))
            == if (table, o) in c1.markers then c1.(markers := c1.markers - {(table, o)} + {(table, n)}) else c1
  {
    TimeIsFound(lcols, i, o);
    if (table, o) in c1.markers && (table, n) in c1.markers {
      assert HasTime(lcols, o) && HasTime(lcols, n);
      var j :| 0 <= j < |lcols| && lcols[j].typ == Time && lcols[j].name == n;
      assert j == i;
    }
  }

  lemma RenamedMarkers(before: set<(string, string)>, coll: string, table: string, lcols: seq<LogicalColumn>,
                       c1: Catalog, i: nat, o: string, n: string)
    requires c1.markers == before && MarkersOf(before, coll, lcols, before, c1.sidecar) && DistinctLogical(lcols)
    requires i < |lcols| && Fold(lcols[i].name) == Fold(o)
    requires forall j | 0 <= j < |lcols| && j != i :: Fold(lcols[j].name) != Fold(n)
    requires Fold(table) == Fold(coll) && OneSpelling(before, coll)
    ensures var c2 := BestEffort(c1, UpdateMarker(table, o, n));
            MarkersOf(before, coll, lcols[i := lcols[i].(name := n)], c2.markers, c2.sidecar)
            <==> (lcols[i].typ == Time ==> lcols[i].name == n || (coll == table && lcols[i].name == o))
  {
    RenameMovesFreely(coll, table, lcols, c1, i, o, n);
    TimeIsFound(lcols, i, o);
    TimeIsFound(lcols, i, lcols[i].name);
    var was, now := lcols[i].name, lcols[i := lcols[i].(name := n)];
    forall x ensures HasTime(now, x) <==> ((coll, x) in before && x != was) || (lcols[i].typ == Time && x == n) {
      TimeRenamed(lcols, i, n, x);
    }
    assert (table, o) in before <==> coll == table && lcols[i].typ == Time && was == o;
    if lcols[i].typ == Time && was != n && !(coll == table && was == o) {
      assert (coll, was) in before && !HasTime(now, was);
    }
  }

  /** Without the move the markers stay as they were. */
  lemma UnmovedMarkers(before: set<(string, string)>, coll: string, lcols: seq<LogicalColumn>, sidecar: bool, i: nat,
                       n: string)
    requires MarkersOf(before, coll, lcols, before, sidecar) && DistinctLogical(lcols) && i < |lcols|
    requires forall j | 0 <= j < |lcols| && j != i :: Fold(lcols[j].name) != Fold(n)
    ensures MarkersOf(before, coll, lcols[i := lcols[i].(name := n)], before, sidecar)
            <==> (lcols[i].typ == Time ==> lcols[i].name == n)
  {
    var was, now := lcols[i].name, lcols[i := lcols[i].(name := n)];
    TimeIsFound(lcols, i, was);
    forall x ensures HasTime(now, x) <==> ((coll, x) in before && x != was) || (lcols[i].typ == Time && x == n) {
      TimeRenamed(lcols, i, n, x);
    }
    if lcols[i].typ == Time && was != n { assert (coll, was) in before && !HasTime(now, was); }
  }

  lemma RenamedMarks(c: Collection, before: set<(string, string)>, table: string, o: string, n: string, c1: Catalog,
                     i: nat, choice: Choice)
    requires c1.markers == before && DistinctLogical(c.cols) && MarkersOf(before, c.name, c.cols, before, c1.sidecar)
    requires Fold(table) == Fold(c.name) && OneSpelling(before, c.name) && FindLogical(c.cols, o) == Some(i)
    requires forall j | 0 <= j < |c.cols| && j != i :: Fold(c.cols[j].name) != Fold(n)
    ensures var c2 := AfterMarker(c1, UpdateMarker(table, o, n), choice);
            && c2 == c1.(markers := c2.markers)
            && (MarkersOf(before, c.name, ApplyToColumns(c, RenameField(o, n)).cols, c2.markers, c2.sidecar)
                <==> RenameSound(c, table, o, n, choice))
  {
    TimeIsFound(c.cols, i, o);
    if choice == MarkerSkipped { UnmovedMarkers(before, c.name, c.cols, c1.sidecar, i, n); }
    else { RenamedMarkers(before, c.name, table, c.cols, c1, i, o, n); }
  }

  lemma RenameFieldFollows(s: Schema, cat: Catalog, table: string, o: string, n: string, c1: Catalog, i: nat,
                           choice: Choice)
    requires Follows(s, cat) && Reshapes(cat, c1, table) && c1.indexes == RenamedIndexes(cat.indexes, Fold(table), o, n)
    requires var t, t' := cat.tables[Fold(table)], c1.tables[Fold(table)];
             && FindColumn(t.cols, o) == Some(i) && (FindColumn(t.cols, n).Some? ==> Fold(n) == Fold(o))
             && t'.cols == t.cols[i := t.cols[i].(name := n)]
    ensures Follows(ApplyOp(s, table, RenameField(o, n)), AfterMarker(c1, UpdateMarker(table, o, n), choice))
            <==> OpSound(s, table, RenameField(o, n), choice)
  {
    var k := Fold(table);
    TableOf(s, cat, k);
    OtherSpellingsUnmarked(s, cat, k);
    RenamedTable(s[k], cat.tables[k], c1.tables[k], o, n, i);
    RenamedMarks(s[k], cat.markers, table, o, n, c1, i, choice);
    assert IndexesFollow(c1.indexes, c1.tables);
    AlteredFollows(s, cat, AfterMarker(c1, UpdateMarker(table, o, n), choice), k,
                   ApplyToColumns(s[k], RenameField(o, n)));
  }

  /** The same for a rename in a catalog that follows its schema. */
  lemma RenameNeverClashes(e: Storage, s: Schema, cat: Catalog, table: string, o: string, n: string)
    requires Follows(s, cat) && RenameFieldMeaning(e, cat, table, o, n, Whole).Some?
    ensures Emitted(e, cat, SqlText.RenameColumn(table, o, n)).Some?
    ensures var c1 := Emitted(e, cat, SqlText.RenameColumn(table, o, n)).value;
            if c1.sidecar then MarkerStep(c1, UpdateMarker(table, o, n)).Some? else c1.markers == {}
  {
    var c1, i := RenameColumnEffect(e, cat, table, o, n, Whole);
    var k := Fold(table);
    TableOf(s, cat, k);
    OtherSpellingsUnmarked(s, cat, k);
    RenamedTable(s[k], cat.tables[k], c1.tables[k], o, n, i);
    RenameMovesFreely(s[k].name, table, s[k].cols, c1, i, o, n);
  }

  // ---- Index operations ----

  lemma AddIndexEffect(e: Storage, cat: Catalog, table: string, idx: IndexDef, opts: Options)
    requires AddIndexMeaning(e, cat, table, idx, opts).Some? && IndexesFollow(cat.indexes, cat.tables)
    ensures var c1 := AddIndexMeaning(e, cat, table, idx, opts).value;
            c1 == cat.(indexes := c1.indexes) && IndexesFollow(c1.indexes, c1.tables)
  {
  }

  lemma RemoveIndexEffect(e: Storage, cat: Catalog, n: string, ifExists: bool)
    requires Emitted(e, cat, SqlText.DropIndex(ifExists, n)).Some? && IndexesFollow(cat.indexes, cat.tables)
    ensures var c1 := Emitted(e, cat, SqlText.DropIndex(ifExists, n)).value;
            c1 == cat.(indexes := c1.indexes) && IndexesFollow(c1.indexes, c1.tables)
  {
  }

  lemma IndexOpFollows(s: Schema, cat: Catalog, table: string, op: AlterOp, c1: Catalog)
    requires Follows(s, cat) && (op.AddIndex? || op.RemoveIndex?)
    requires c1 == cat.(indexes := c1.indexes) && IndexesFollow(c1.indexes, c1.tables)
    ensures Follows(ApplyOp(s, table, op), c1)
  {
    IndexOpKeeps(s, table, op);
    assert c1.tables == cat.tables && c1.markers == cat.markers && c1.sidecar == cat.sidecar;
  }

  lemma IndexOpKeeps(s: Schema, table: string, op: AlterOp)
    requires op.AddIndex? || op.RemoveIndex?
    ensures ApplyOp(s, table, op) == s
  {
  }

  // ---- Rewriting a field ----

  lemma ModifiedFollow(table: string, lcols: seq<LogicalColumn>, cols: seq<Column>, n: string, d: FieldDef)
    requires ColumnsFollow(lcols, cols) && Builds(n, d, cols) && Sees(cols, n)
    ensures SqliteTypeFor(d.typ).Some?
    ensures ColumnsFollow(ModifiedColumns(lcols, n, d), NewColumns(table, n, d, cols))
  {
    TypeBuilds(n, d, cols);
    ColumnsKept(table, n, d, cols);
    KeyWidthIs(lcols, cols);
    SoleKeyIs(lcols, cols, n);
    var l', c' := ModifiedColumns(lcols, n, d), NewColumns(table, n, d, cols);
    forall j | 0 <= j < |l'| ensures SqliteTypeFor(l'[j].typ).Some? && c'[j] == PhysicalColumn(l'[j]) {
      RewrittenColumn(table, n, d, cols, j);
      EmittedIsKeyword(lcols[j].typ);
    }
    forall i, j | 0 <= i < j < |c'| ensures Fold(c'[i].name) != Fold(c'[j].name) {
      assert NamesOf(c')[i] == NamesOf(cols)[i] && NamesOf(c')[j] == NamesOf(cols)[j];
    }
  }

  lemma AliasFrom(t: Table, j: nat)
    requires !t.withoutRowid && NumberedKey(t.cols) && |KeyEntries(t.cols)| == 1
    requires j < |t.cols| && t.cols[j].pk == 1 && t.cols[j].decl == "INTEGER"
    ensures AliasColumn(t).Some?
  {
    ColumnsFromNumbered(t.cols);
    assert Fold("INTEGER") == "integer";
    var k := FindPosition(t.cols, 1).value;
    assert k == j;
  }

  lemma ModifiedAlias(table: string, n: string, d: FieldDef, cols: seq<Column>, t': Table)
    requires DistinctColumns(cols) && NumberedKey(cols) && Builds(n, d, cols)
    requires KeyOf(cols) == [n] && d.typ == Int && t'.cols == NewColumns(table, n, d, cols) && !t'.withoutRowid
    ensures AliasColumn(t').Some?
  {
    ColumnsKept(table, n, d, cols);
    SortMembers(KeyEntries(cols));
    var j := KeyOfColumn(cols, 0);
    RewrittenColumn(table, n, d, cols, j);
    AliasFrom(t', j);
  }

  lemma ModifiedTime(lcols: seq<LogicalColumn>, n: string, d: FieldDef)
    requires DistinctLogical(lcols)
    ensures (forall x :: HasTime(ModifiedColumns(lcols, n, d), x) <==> HasTime(lcols, x)) <==> SameTimeness(lcols, n, d)
  {
    var l' := ModifiedColumns(lcols, n, d);
    forall j | 0 <= j < |lcols|
      ensures l'[j].name == lcols[j].name && l'[j].typ == if lcols[j].name == n then d.typ else lcols[j].typ {}
    if SameTimeness(lcols, n, d) {
      forall x ensures HasTime(l', x) <==> HasTime(lcols, x) {
        if HasTime(lcols, x) {
          var j :| 0 <= j < |lcols| && lcols[j].typ == Time && lcols[j].name == x;
          assert l'[j].typ == Time && l'[j].name == x;
        }
      }
    } else {
      var i :| 0 <= i < |lcols| && lcols[i].name == n && !(lcols[i].typ == Time <==> d.typ == Time);
      TimeIsFound(lcols, i, n);
      assert HasTime(l', n) <==> d.typ == Time by { if d.typ == Time { assert l'[i].typ == Time && l'[i].name == n; } }
      assert HasTime(lcols, n) <==> lcols[i].typ == Time;
    }
  }

  lemma ModifiedTable(c: Collection, t: Table, t': Table, n: string, d: FieldDef)
    requires TableFollows(c, t) && Builds(n, d, t.cols) && Sees(t.cols, n)
    requires t'.name == t.name && t'.cols == NewColumns(t.name, n, d, t.cols) && Ordinary(t')
    requires t'.auto == HasAuto(FieldDecls(Rewritten(t.name, n, d, t.cols)))
    ensures TableFollows(ApplyToColumns(c, ModifyField(n, d)), t')
  {
    ModifiedFollow(t.name, c.cols, t.cols, n, d);
    AutoIncrementAfter(t.name, n, d, t.cols);
    SoleKeyIs(c.cols, t.cols, n);
    if t'.auto { ModifiedAlias(t.name, n, d, t.cols, t'); }
  }

  lemma ModifyEffect(e: Storage, cat: Catalog, table: string, n: string, d: FieldDef, seen: seq<Column>)
    returns (cat': Catalog)
    requires WellKept(cat) && seen <= TableInfo(cat, table) && RewriteSeeing(e, cat, table, n, d, seen).Some?
    ensures RewriteSeeing(e, cat, table, n, d, seen) == Some(cat') && Fold(table) in cat.tables
    ensures Sees(seen, n) && RewriteEffect(e, cat, cat', table, n, d, seen)
  {
    RewriteHasEffect(e, cat, table, n, d, seen);
    cat' := RewriteSeeing(e, cat, table, n, d, seen).value;
  }

  lemma ModifiedRest(e: Storage, cat: Catalog, table: string, n: string, d: FieldDef, cat': Catalog, seen: seq<Column>)
    requires RewriteEffect(e, cat, cat', table, n, d, seen) && IndexesFollow(cat.indexes, cat.tables)
    ensures Fold(table) in cat'.tables && cat'.tables == cat.tables[Fold(table) := cat'.tables[Fold(table)]]
    ensures IndexesFollow(cat'.indexes, cat'.tables)
  {
    DroppedIndexes(cat.indexes, cat.tables, Fold(table));
  }

  lemma ModifiedParts(e: Storage, c: Collection, cat: Catalog, table: string, n: string, d: FieldDef, cat': Catalog)
    requires Fold(table) in cat.tables && TableFollows(c, cat.tables[Fold(table)]) && DistinctLogical(c.cols)
    requires MarkersOf(cat.markers, c.name, c.cols, cat.markers, cat.sidecar)
    requires Sees(cat.tables[Fold(table)].cols, n)
             && RewriteEffect(e, cat, cat', table, n, d, cat.tables[Fold(table)].cols)
    ensures Fold(table) in cat'.tables
    ensures var c' := ApplyToColumns(c, ModifyField(n, d));
            && c'.name == c.name && (TableFollows(c', cat'.tables[Fold(table)]) <==> c.name == table)
            && (MarkersOf(cat.markers, c.name, c'.cols, cat'.markers, cat'.sidecar) <==> SameTimeness(c.cols, n, d))
  {
    if c.name == table { ModifiedTable(c, cat.tables[Fold(table)], cat'.tables[Fold(table)], n, d); }
    assert cat'.markers == cat.markers && cat'.sidecar == cat.sidecar;
    ModifiedMarks(c, cat.markers, cat.sidecar, n, d);
  }

  lemma ModifiedMarks(c: Collection, markers: set<(string, string)>, sidecar: bool, n: string, d: FieldDef)
    requires DistinctLogical(c.cols) && MarkersOf(markers, c.name, c.cols, markers, sidecar)
    ensures MarkersOf(markers, c.name, ApplyToColumns(c, ModifyField(n, d)).cols, markers, sidecar)
            <==> SameTimeness(c.cols, n, d)
  {
    ModifiedTime(c.cols, n, d);
    ModifiedMarkers(markers, c.name, c.cols, ModifiedColumns(c.cols, n, d), sidecar);
  }

  lemma ModifiedMarkers(before: set<(string, string)>, coll: string, lcols: seq<LogicalColumn>,
                        now: seq<LogicalColumn>, sidecar: bool)
    requires MarkersOf(before, coll, lcols, before, sidecar)
    ensures MarkersOf(before, coll, now, before, sidecar) <==> forall x :: HasTime(now, x) <==> HasTime(lcols, x)
  {
    forall x ensures (coll, x) in before <==> HasTime(lcols, x) {}
    if MarkersOf(before, coll, now, before, sidecar) {
      forall x ensures HasTime(now, x) <==> HasTime(lcols, x) { assert (coll, x) in before <==> HasTime(now, x); }
    }
  }

  lemma OtherNameFails(s: Schema, cat': Catalog, k: string, c': Collection)
    requires k in cat'.tables && !TableFollows(c', cat'.tables[k])
    ensures !Follows(s[k := c'], cat')
  {
    assert k in s[k := c'] && s[k := c'][k] == c';
  }

  lemma ModifyDecided(s: Schema, cat: Catalog, table: string, n: string, d: FieldDef, cat': Catalog)
    requires Follows(s, cat) && Fold(table) in s && Fold(table) in cat'.tables
    requires cat'.tables == cat.tables[Fold(table) := cat'.tables[Fold(table)]]
             && IndexesFollow(cat'.indexes, cat'.tables)
    requires var c, c' := s[Fold(table)], ApplyToColumns(s[Fold(table)], ModifyField(n, d));
             && c'.name == c.name && (TableFollows(c', cat'.tables[Fold(table)]) <==> c.name == table)
             && (MarkersOf(cat.markers, c.name, c'.cols, cat'.markers, cat'.sidecar) <==> SameTimeness(c.cols, n, d))
    ensures Follows(ApplyOp(s, table, ModifyField(n, d)), cat')
            <==> s[Fold(table)].name == table && SameTimeness(s[Fold(table)].cols, n, d)
  {
    var c' := ApplyToColumns(s[Fold(table)], ModifyField(n, d));
    if s[Fold(table)].name == table {
      AlteredFollows(s, cat, cat', Fold(table), c');
    } else {
      OtherNameFails(s, cat', Fold(table), c');
    }
  }

  lemma ModifyFollows(e: Storage, s: Schema, cat: Catalog, table: string, n: string, d: FieldDef, cat': Catalog)
    requires Follows(s, cat) && Fold(table) in cat.tables
    requires Sees(cat.tables[Fold(table)].cols, n)
             && RewriteEffect(e, cat, cat', table, n, d, cat.tables[Fold(table)].cols)
    ensures Fold(table) in s
    ensures Follows(ApplyOp(s, table, ModifyField(n, d)), cat')
            <==> s[Fold(table)].name == table && SameTimeness(s[Fold(table)].cols, n, d)
  {
    TableOf(s, cat, Fold(table));
    ModifiedParts(e, s[Fold(table)], cat, table, n, d, cat');
    ModifiedRest(e, cat, table, n, d, cat', cat.tables[Fold(table)].cols);
    ModifyDecided(s, cat, table, n, d, cat');
  }

  lemma CutWidth(e: Storage, cat: Catalog, table: string, n: string, d: FieldDef, seen: seq<Column>, cat': Catalog)
    requires RewriteEffect(e, cat, cat', table, n, d, seen)
    ensures Fold(table) in cat'.tables && |cat'.tables[Fold(table)].cols| == |seen|
  {
    NewColumnNames(table, n, d, seen);
    var cols := cat'.tables[Fold(table)].cols;
    assert |cols| == |NamesOf(cols)| == |NamesOf(seen)| == |seen|;
  }

  lemma WidthsDiffer(c: Collection, t: Table)
    requires |t.cols| != |c.cols|
    ensures !TableFollows(c, t)
  {
  }

  lemma ModifiedWidth(c: Collection, n: string, d: FieldDef)
    ensures |ApplyToColumns(c, ModifyField(n, d)).cols| == |c.cols|
  {
  }

  /** A rewrite that saw fewer columns leaves fewer. */
  lemma CutFails(e: Storage, s: Schema, cat: Catalog, table: string, n: string, d: FieldDef, seen: seq<Column>,
                 cat': Catalog)
    requires Follows(s, cat) && Fold(table) in cat.tables && |seen| < |cat.tables[Fold(table)].cols|
    requires RewriteEffect(e, cat, cat', table, n, d, seen)
    ensures !Follows(ApplyOp(s, table, ModifyField(n, d)), cat')
  {
    var k := Fold(table);
    WidthIs(s, cat, k);
    CutWidth(e, cat, table, n, d, seen, cat');
    var c' := ApplyToColumns(s[k], ModifyField(n, d));
    ModifiedWidth(s[k], n, d);
    WidthsDiffer(c', cat'.tables[k]);
    OtherNameFails(s, cat', k, c');
  }

  lemma WidthIs(s: Schema, cat: Catalog, k: string)
    requires Follows(s, cat) && k in cat.tables
    ensures k in s && |s[k].cols| == |cat.tables[k].cols|
  {
    TableOf(s, cat, k);
  }

  lemma CutUnsound(s: Schema, cat: Catalog, table: string, n: string, d: FieldDef, choice: Choice)
    requires Follows(s, cat) && Fold(table) in cat.tables
    ensures |Delivered(cat, table, choice)| < |cat.tables[Fold(table)].cols| ==>
              !OpSound(s, table, ModifyField(n, d), choice)
    ensures |Delivered(cat, table, choice)| >= |cat.tables[Fold(table)].cols| ==>
              && Delivered(cat, table, choice) == cat.tables[Fold(table)].cols
              && (OpSound(s, table, ModifyField(n, d), choice)
                  <==> s[Fold(table)].name == table && SameTimeness(s[Fold(table)].cols, n, d))
  {
    WidthIs(s, cat, Fold(table));
  }

  lemma ModifyChosenFollows(e: Storage, s: Schema, cat: Catalog, table: string, n: string, d: FieldDef, choice: Choice)
    requires Follows(s, cat) && RewriteSeeing(e, cat, table, n, d, Delivered(cat, table, choice)).Some?
    ensures Follows(ApplyOp(s, table, ModifyField(n, d)),
                    RewriteSeeing(e, cat, table, n, d, Delivered(cat, table, choice)).value)
            <==> OpSound(s, table, ModifyField(n, d), choice)
  {
    FollowsKept(s, cat);
    var cat' := ModifyEffect(e, cat, table, n, d, Delivered(cat, table, choice));
    CutUnsound(s, cat, table, n, d, choice);
    if |Delivered(cat, table, choice)| < |cat.tables[Fold(table)].cols| {
      CutFails(e, s, cat, table, n, d, Delivered(cat, table, choice), cat');
    } else {
      ModifyFollows(e, s, cat, table, n, d, cat');
    }
  }

  /** An operation that succeeded, however far it was carried out, is followed by the catalog,
      markers included, if and only if it was sound. */
  lemma OpFollows(e: Storage, s: Schema, cat: Catalog, table: string, op: AlterOp, choice: Choice)
    requires Follows(s, cat) && OpChosen(e, cat, table, op, choice).Some?
    ensures Follows(ApplyOp(s, table, op), OpChosen(e, cat, table, op, choice).value) <==> OpSound(s, table, op, choice)
  {
    match op {
      case AddField(f) =>
        var c1 := AddEffect(e, cat, table, f);
        AddFollows(s, cat, table, f, c1);
      case DropField(n) =>
        var c1, i := DropColumnEffect(e, cat, table, n, choice);
        DropFieldFollows(s, cat, table, n, c1, i, choice);
      case RenameField(o, n) =>
        var c1, i := RenameColumnEffect(e, cat, table, o, n, choice);
        RenameFieldFollows(s, cat, table, o, n, c1, i, choice);
      case ModifyField(n, d) => ModifyChosenFollows(e, s, cat, table, n, d, choice);
      case AddIndex(idx, opts) =>
        AddIndexEffect(e, cat, table, idx, opts);
        IndexOpFollows(s, cat, table, op, AddIndexMeaning(e, cat, table, idx, opts).value);
      case RemoveIndex(n, opts) =>
        RemoveIndexEffect(e, cat, n, opts.ifExists);
        IndexOpFollows(s, cat, table, op, Emitted(e, cat, SqlText.DropIndex(opts.ifExists, n)).value);
    }
  }

  /** So a whole call of sound operations is followed. */
  lemma {:induction false} OpsFollow(e: Storage, s: Schema, cat: Catalog, table: string, ops: seq<AlterOp>,
                                     choices: seq<Choice>)
    requires |choices| == |ops| && Follows(s, cat) && OpsSound(s, table, ops, choices)
    requires AlterChosen(e, cat, table, ops, choices).Some?
    ensures Follows(ApplyOps(s, table, ops), AlterChosen(e, cat, table, ops, choices).value)
    decreases |ops|
  {
    if ops != [] {
      var n := |ops| - 1;
      OpsFollow(e, s, cat, table, ops[..n], choices[..n]);
      var before := AlterChosen(e, cat, table, ops[..n], choices[..n]).value;
      OpFollows(e, ApplyOps(s, table, ops[..n]), before, table, ops[n], choices[n]);
    }
  }
}
