/** The schema the caller thinks in, and creation and dropping against it: the catalog and its
    Time markers follow it exactly under conditions the caller can check. */
module LogicalSchema {
  import opened Text
  import opened DbSchema
  import opened SqlText
  import opened TypeMapping
  import opened SqlGen
  import opened KeyOrder
  import opened Catalog
  import opened SchemaModifier
  import opened ColumnRewrite

  datatype LogicalColumn = LogicalColumn(name: string, typ: Type, notNull: bool, pk: nat)

  datatype Collection = Collection(name: string, cols: seq<LogicalColumn>, auto: bool)

  /** Collections by folded name. */
  type Schema = map<string, Collection>

  // ---- What each operation does to the logical schema when it succeeds ----

  function CreatedColumn(c: CollectionDef, f: FieldDef): LogicalColumn {
    LogicalColumn(f.name, f.typ, FieldSuffix(c, f) == NotNull, KeyPosition(c.primaryKey, f.name))
  }

  function CreatedCollection(c: CollectionDef): Collection {
    Collection(c.name, seq(|c.fields|, i requires 0 <= i < |c.fields| => CreatedColumn(c, c.fields[i])), InlineKey(c))
  }

  function FindLogical(cols: seq<LogicalColumn>, name: string): (r: Option<nat>)
    ensures r.Some? ==> r.value < |cols| && Fold(cols[r.value].name) == Fold(name)
    ensures r.None? ==> forall i | 0 <= i < |cols| :: Fold(cols[i].name) != Fold(name)
  {
    if cols == [] then None
    else if Fold(cols[0].name) == Fold(name) then Some(0)
    else match FindLogical(cols[1..], name) case None => None case Some(i) => Some(i + 1)
  }

  function KeyWidth(cols: seq<LogicalColumn>): nat {
    if cols == [] then 0 else KeyWidth(cols[..|cols| - 1]) + (if cols[|cols| - 1].pk > 0 then 1 else 0)
  }

  predicate SoleKey(cols: seq<LogicalColumn>, name: string) {
    KeyWidth(cols) == 1 && exists j | 0 <= j < |cols| :: cols[j].pk == 1 && cols[j].name == name
  }

  /** A column after a rewrite: the redefined one takes the new type; NOT NULL is imposed on
      the key and lost outside the key of a composite-key table. */
  function ModifiedColumn(cols: seq<LogicalColumn>, c: LogicalColumn, name: string, newDef: FieldDef): LogicalColumn {
    if c.name == name then
      LogicalColumn(name, newDef.typ,
                    !newDef.nullable && (KeyWidth(cols) <= 1 || c.pk > 0)
                      && !(SoleKey(cols, name) && newDef.typ == Int && newDef.autoIncrement),
                    c.pk)
    else c.(notNull := if c.pk > 0 then true else c.notNull && KeyWidth(cols) <= 1)
  }

  function ModifiedColumns(cols: seq<LogicalColumn>, name: string, newDef: FieldDef): (r: seq<LogicalColumn>)
    ensures |r| == |cols|
  {
    seq(|cols|, i requires 0 <= i < |cols| => ModifiedColumn(cols, cols[i], name, newDef))
  }

  function ApplyToColumns(c: Collection, op: AlterOp): Collection {
    match op
    case AddField(f) => c.(cols := c.cols + [LogicalColumn(f.name, f.typ, !f.nullable, 0)])
    case DropField(n) => (match FindLogical(c.cols, n) case None => c case Some(i) => c.(cols := Without(c.cols, i)))
    case RenameField(o, n) =>
      (match FindLogical(c.cols, o) case None => c case Some(i) => c.(cols := c.cols[i := c.cols[i].(name := n)]))
    case ModifyField(n, d) =>
      c.(cols := ModifiedColumns(c.cols, n, d), auto := SoleKey(c.cols, n) && d.typ == Int && d.autoIncrement)
    case _ => c
  }

  function ApplyOp(s: Schema, table: string, op: AlterOp): Schema {
    if Fold(table) in s then s[Fold(table) := ApplyToColumns(s[Fold(table)], op)] else s
  }

  function ApplyOps(s: Schema, table: string, ops: seq<AlterOp>): Schema {
    if ops == [] then s else ApplyOp(ApplyOps(s, table, ops[..|ops| - 1]), table, ops[|ops| - 1])
  }

  predicate FieldNamed(fields: seq<FieldDef>, name: string) { exists i | 0 <= i < |fields| :: fields[i].name == name }

  /** A name as the first field it means, in any letter case, spells it. */
  function FieldSpelling(fields: seq<FieldDef>, name: string): string {
    if fields == [] then name
    else if Fold(fields[0].name) == Fold(name) then fields[0].name
    else FieldSpelling(fields[1..], name)
  }

  /** The key as the fields spell it. */
  function SpelledKey(c: CollectionDef): (r: seq<string>)
    ensures |r| == |c.primaryKey|
  {
    seq(|c.primaryKey|, k requires 0 <= k < |c.primaryKey| => FieldSpelling(c.fields, c.primaryKey[k]))
  }

  /** The same names in the same order, but for letter case. */
  predicate Alike(a: seq<string>, b: seq<string>) {
    |a| == |b| && forall i | 0 <= i < |a| :: Fold(a[i]) == Fold(b[i])
  }

  // ---- The relation between the logical schema and the catalog ----

  predicate HasTime(cols: seq<LogicalColumn>, column: string) {
    exists j | 0 <= j < |cols| :: cols[j].typ == Time && cols[j].name == column
  }

  /** The collection has a Time column of that name. */
  predicate IsTimeColumn(s: Schema, t: string, column: string) {
    Fold(t) in s && s[Fold(t)].name == t && HasTime(s[Fold(t)].cols, column)
  }

  function PhysicalColumn(c: LogicalColumn): Column
    requires SqliteTypeFor(c.typ).Some?
  {
    Column(c.name, SqliteTypeFor(c.typ).value, c.notNull, c.pk)
  }

  ghost predicate ColumnsFollow(lcols: seq<LogicalColumn>, cols: seq<Column>) {
    && |cols| == |lcols| && DistinctColumns(cols) && NumberedKey(cols)
    && forall j | 0 <= j < |lcols| :: SqliteTypeFor(lcols[j].typ).Some? && cols[j] == PhysicalColumn(lcols[j])
  }

  ghost predicate TableFollows(c: Collection, t: Table) {
    && t.name == c.name && t.auto == c.auto && Ordinary(t)
    && ColumnsFollow(c.cols, t.cols)
    && (t.auto ==> AliasColumn(t).Some?)
  }

  ghost predicate TablesFollow(s: Schema, tables: map<string, Table>) {
    && tables.Keys == s.Keys
    && forall f | f in s :: Fold(s[f].name) == f && TableFollows(s[f], tables[f])
  }

  ghost predicate MarkersFollow(s: Schema, markers: set<(string, string)>, sidecar: bool) {
    && (forall t, c :: (t, c) in markers <==> IsTimeColumn(s, t, c))
    && (markers != {} ==> sidecar)
  }

  predicate IndexesFollow(indexes: seq<Index>, tables: map<string, Table>) {
    forall i | 0 <= i < |indexes| :: indexes[i].table in tables
  }

  /** The tables are the collections with the types their fields are written as, and the
      markers are exactly the Time columns: none is missing, none is stale. */
  ghost predicate Follows(s: Schema, cat: Catalog) {
    && TablesFollow(s, cat.tables)
    && MarkersFollow(s, cat.markers, cat.sidecar)
    && IndexesFollow(cat.indexes, cat.tables)
  }

  lemma FollowsKept(s: Schema, cat: Catalog)
    requires Follows(s, cat)
    ensures WellKept(cat)
  {
    forall f | f in cat.tables ensures Fold(cat.tables[f].name) == f && DistinctColumns(cat.tables[f].cols) {
      assert TableFollows(s[f], cat.tables[f]);
    }
  }

  lemma EmptyFollows()
    ensures Follows(map[], EMPTY)
  {
  }

  // ---- Facts about keys ----

  lemma {:induction false} KeyEntriesIndexed(cols: seq<Column>, i: nat, j: nat) returns (a: nat, b: nat)
    requires i < j < |KeyEntries(cols)|
    ensures a < b < |cols|
    ensures cols[a].pk > 0 && cols[b].pk > 0
    ensures KeyEntries(cols)[i].pkOrder == cols[a].pk && KeyEntries(cols)[j].pkOrder == cols[b].pk
    decreases |cols|
  {
    var n := |cols| - 1;
    var init := cols[..n];
    var tail := if cols[n].pk > 0 then [PkEntry(cols[n].name, cols[n].pk)] else [];
    assert KeyEntries(cols) == KeyEntries(init) + tail;
    if j < |KeyEntries(init)| {
      a, b := KeyEntriesIndexed(init, i, j);
    } else {
      b := n;
      var x := KeyEntries(init)[i];
      assert x in KeyEntries(init);
      KeyEntriesMembers(init, x);
      a :| 0 <= a < |init| && init[a].pk > 0 && x == PkEntry(init[a].name, init[a].pk);
    }
  }

  ghost predicate PositionsAre(cols: seq<Column>, n: nat) {
    && (forall a | 0 <= a < |cols| :: cols[a].pk <= n)
    && (forall a, b | 0 <= a < b < |cols| :: cols[a].pk > 0 ==> cols[a].pk != cols[b].pk)
    && (forall p: nat | 1 <= p <= n :: FindPosition(cols, p).Some?)
  }

  lemma NumberedFromColumns(cols: seq<Column>, n: nat)
    requires PositionsAre(cols, n)
    ensures NumberedKey(cols) && |KeyEntries(cols)| == n
  {
    var s := KeyEntries(cols);
    forall i | 0 <= i < |s| ensures 1 <= s[i].pkOrder <= n {
      assert s[i] in s;
      KeyEntriesMembers(cols, s[i]);
    }
    forall i, j | 0 <= i < j < |s| ensures s[i].pkOrder != s[j].pkOrder {
      var a, b := KeyEntriesIndexed(cols, i, j);
    }
    forall p | 1 <= p <= n ensures HasOrder(s, p) {
      var a := FindPosition(cols, p).value;
      KeyEntriesMembers(cols, PkEntry(cols[a].name, cols[a].pk));
      assert PkEntry(cols[a].name, cols[a].pk) in s;
    }
    assert Numbered(s, n);
    SortedIsNumbered(s, n);
  }

  lemma ColumnsFromNumbered(cols: seq<Column>)
    requires NumberedKey(cols)
    ensures PositionsAre(cols, |KeyEntries(cols)|)
  {
    var s := KeyEntries(cols);
    SortMembers(s);
    forall a | 0 <= a < |cols| ensures cols[a].pk <= |s| {
      if cols[a].pk > 0 { KeyOfPlace(cols, a); }
    }
    forall p: nat | 1 <= p <= |s| ensures FindPosition(cols, p).Some? {
      var j := KeyOfColumn(cols, p - 1);
    }
    forall a, b | 0 <= a < b < |cols| && cols[a].pk > 0 ensures cols[a].pk != cols[b].pk {
      if cols[a].pk == cols[b].pk {
        var i, j := EntryOf(cols, a, b);
      }
    }
  }

  /** Two key columns give two entries. */
  lemma {:induction false} EntryOf(cols: seq<Column>, a: nat, b: nat) returns (i: nat, j: nat)
    requires a < b < |cols| && cols[a].pk > 0 && cols[b].pk > 0
    ensures i < j < |KeyEntries(cols)|
    ensures KeyEntries(cols)[i].pkOrder == cols[a].pk && KeyEntries(cols)[j].pkOrder == cols[b].pk
    decreases |cols|
  {
    var n := |cols| - 1;
    var init := cols[..n];
    var tail := if cols[n].pk > 0 then [PkEntry(cols[n].name, cols[n].pk)] else [];
    assert KeyEntries(cols) == KeyEntries(init) + tail;
    if b < n {
      i, j := EntryOf(init, a, b);
    } else {
      var x := PkEntry(init[a].name, init[a].pk);
      KeyEntriesMembers(init, x);
      assert x in KeyEntries(init);
      i :| 0 <= i < |KeyEntries(init)| && KeyEntries(init)[i] == x;
      j := |KeyEntries(init)|;
    }
  }

  lemma SamePositions(a: seq<Column>, b: seq<Column>)
    requires NumberedKey(a) && |a| == |b| && forall j | 0 <= j < |a| :: a[j].pk == b[j].pk
    ensures NumberedKey(b) && |KeyEntries(b)| == |KeyEntries(a)|
  {
    ColumnsFromNumbered(a);
    var n := |KeyEntries(a)|;
    forall p: nat | 1 <= p <= n ensures FindPosition(b, p).Some? {
      var j := FindPosition(a, p).value;
      assert b[j].pk == p;
    }
    NumberedFromColumns(b, n);
  }

  lemma KeyEntriesLast(init: seq<Column>, c: Column)
    ensures KeyEntries(init + [c]) == KeyEntries(init) + if c.pk > 0 then [PkEntry(c.name, c.pk)] else []
  {
    assert (init + [c])[..|init|] == init;
  }

  lemma AppendedKey(cols: seq<Column>, c: Column)
    requires c.pk == 0
    ensures KeyEntries(cols + [c]) == KeyEntries(cols)
  {
    KeyEntriesLast(cols, c);
  }

  lemma {:induction false} RemovedKey(cols: seq<Column>, i: nat)
    requires i < |cols| && cols[i].pk == 0
    ensures KeyEntries(Without(cols, i)) == KeyEntries(cols)
    decreases |cols|
  {
    var n := |cols| - 1;
    var init, last := cols[..n], cols[n];
    assert cols == init + [last];
    KeyEntriesLast(init, last);
    if i == n {
      assert Without(cols, i) == init;
    } else {
      RemovedKey(init, i);
      assert Without(cols, i) == Without(init, i) + [last];
      KeyEntriesLast(Without(init, i), last);
    }
  }

  lemma {:induction false} WidthIsKey(lcols: seq<LogicalColumn>, cols: seq<Column>)
    requires |cols| == |lcols| && forall j | 0 <= j < |lcols| :: cols[j].pk == lcols[j].pk
    ensures KeyWidth(lcols) == |KeyEntries(cols)|
    decreases |cols|
  {
    if cols != [] { WidthIsKey(lcols[..|lcols| - 1], cols[..|cols| - 1]); }
  }

  lemma KeyWidthIs(lcols: seq<LogicalColumn>, cols: seq<Column>)
    requires ColumnsFollow(lcols, cols)
    ensures KeyWidth(lcols) == |KeyEntries(cols)| == |KeyOf(cols)|
  {
    WidthIsKey(lcols, cols);
    SortMembers(KeyEntries(cols));
  }

  lemma SoleKeyIs(lcols: seq<LogicalColumn>, cols: seq<Column>, name: string)
    requires ColumnsFollow(lcols, cols)
    ensures SoleKey(lcols, name) <==> KeyOf(cols) == [name]
  {
    KeyWidthIs(lcols, cols);
    if KeyWidth(lcols) == 1 {
      var j := KeyOfColumn(cols, 0);
      assert lcols[j].name == cols[j].name && lcols[j].pk == 1;
      assert KeyOf(cols) == [cols[j].name];
      if SoleKey(lcols, name) {
        var k :| 0 <= k < |lcols| && lcols[k].pk == 1 && lcols[k].name == name;
        ColumnsFromNumbered(cols);
        assert cols[k].pk == 1;
        assert k == j;
      }
    }
  }

  // ---- Create ----

  lemma {:induction false} TimeColumnsMember(fields: seq<FieldDef>, x: string)
    ensures x in TimeColumns(fields) <==> exists i :: 0 <= i < |fields| && fields[i].typ == Time && fields[i].name == x
    decreases |fields|
  {
    if fields != [] {
      var n := |fields| - 1;
      TimeColumnsMember(fields[..n], x);
      if x in TimeColumns(fields[..n]) {
        var i :| 0 <= i < n && fields[..n][i].typ == Time && fields[..n][i].name == x;
        assert fields[i].name == x;
      }
      if exists i :: 0 <= i < |fields| && fields[i].typ == Time && fields[i].name == x {
        var i :| 0 <= i < |fields| && fields[i].typ == Time && fields[i].name == x;
        if i < n { assert fields[..n][i] == fields[i]; }
      }
    }
  }

  lemma CreatedHasTime(c: CollectionDef, x: string)
    ensures HasTime(CreatedCollection(c).cols, x) <==> x in TimeColumns(c.fields)
  {
    TimeColumnsMember(c.fields, x);
    var cols := CreatedCollection(c).cols;
    if x in TimeColumns(c.fields) {
      var i :| 0 <= i < |c.fields| && c.fields[i].typ == Time && c.fields[i].name == x;
      assert cols[i].typ == Time && cols[i].name == x;
    }
  }

  /** The columns a definition creates. */
  function TableColumns(c: CollectionDef): seq<Column>
    requires AllTyped(c.fields)
  {
    ColumnsOf(FieldDecls(c), if InlineKey(c) then [] else c.primaryKey)
  }

  /** A definition whose table SQLite accepts: every key name is that of a field, in any letter
      case, and no two fields, nor two key names, are alike. */
  predicate WellKeyed(c: CollectionDef) {
    && AllTyped(c.fields) && DistinctNames(c.primaryKey) && DistinctColumns(TableColumns(c))
    && Resolve(TableColumns(c), c.primaryKey).Some?
  }

  lemma InlineFound(c: CollectionDef)
    requires AllTyped(c.fields) && InlineKey(c)
    ensures Resolve(TableColumns(c), c.primaryKey).Some?
  {
    var i := FirstAuto(c.fields, c.primaryKey[0]);
    assert TableColumns(c)[i].name == c.primaryKey[0];
  }

  lemma ValidIsWellKeyed(c: CollectionDef)
    requires AllTyped(c.fields) && ValidBody(FieldDecls(c), if InlineKey(c) then [] else c.primaryKey)
    ensures WellKeyed(c)
  {
    if InlineKey(c) { InlineFound(c); }
  }

  /** The field a key name means. */
  lemma KeyField(c: CollectionDef, k: nat) returns (i: nat)
    requires WellKeyed(c) && k < |c.primaryKey|
    ensures i < |c.fields| && c.fields[i].name == TableColumns(c)[i].name == SpelledKey(c)[k]
    ensures Fold(c.fields[i].name) == Fold(c.primaryKey[k])
    ensures forall j | 0 <= j < |c.fields| :: Fold(c.fields[j].name) == Fold(c.primaryKey[k]) ==> j == i
  {
    var cols := TableColumns(c);
    i := Resolve(cols, c.primaryKey).value[k];
    assert FindColumn(cols, c.primaryKey[k]) == Some(i);
    forall j | 0 <= j < |c.fields| && Fold(c.fields[j].name) == Fold(c.primaryKey[k]) ensures j == i {
      assert cols[j].name == c.fields[j].name && cols[i].name == c.fields[i].name;
    }
    SpellingIs(c.fields, c.primaryKey[k], i);
  }

  lemma {:induction false} SpellingIs(fields: seq<FieldDef>, name: string, i: nat)
    requires i < |fields| && forall j | 0 <= j < |fields| :: Fold(fields[j].name) == Fold(name) <==> j == i
    ensures FieldSpelling(fields, name) == fields[i].name
    decreases |fields|
  {
    if i > 0 {
      assert Fold(fields[0].name) != Fold(name);
      SpellingIs(fields[1..], name, i - 1);
    }
  }

  lemma CreatedPosition(c: CollectionDef, j: nat)
    requires WellKeyed(c) && j < |c.fields|
    ensures TableColumns(c)[j].pk == KeyPosition(c.primaryKey, c.fields[j].name)
    ensures TableColumns(c)[j].pk <= |c.primaryKey|
    ensures TableColumns(c)[j].pk > 0 ==> Fold(c.primaryKey[TableColumns(c)[j].pk - 1]) == Fold(c.fields[j].name)
  {
    var p := KeyPosition(c.primaryKey, c.fields[j].name);
    KeyPositionBound(c.primaryKey, c.fields[j].name);
    if InlineKey(c) {
      KeyPositionNone([], c.fields[j].name);
      var i := KeyField(c, 0);
      var a := FirstAuto(c.fields, c.primaryKey[0]);
      assert a == i && p <= 1;
      assert Fold(c.primaryKey[0]) == Fold(c.fields[j].name) <==> p == 1;
      assert FieldDecls(c)[j] == FieldDecl(c, c.fields[j]);
    }
  }

  lemma {:induction false} KeyPositionBound(key: seq<string>, name: string)
    ensures KeyPosition(key, name) <= |key|
    ensures KeyPosition(key, name) > 0 ==> Fold(key[KeyPosition(key, name) - 1]) == Fold(name)
    decreases |key|
  {
    if key != [] { KeyPositionBound(key[1..], name); }
  }

  /** The column at each place of the key. */
  lemma CreatedPlace(c: CollectionDef, p: nat) returns (i: nat)
    requires WellKeyed(c)
    requires 1 <= p <= |c.primaryKey|
    ensures i < |TableColumns(c)| && TableColumns(c)[i].pk == p
  {
    i := KeyField(c, p - 1);
    CreatedPosition(c, i);
    forall q | 0 <= q < p - 1 ensures Fold(c.primaryKey[q]) != Fold(c.fields[i].name) {}
    KeyPositionAt(c.primaryKey, c.fields[i].name, p - 1);
  }

  lemma CreatedApart(c: CollectionDef, a: nat, b: nat)
    requires WellKeyed(c)
    requires a < b < |TableColumns(c)| && TableColumns(c)[a].pk > 0
    ensures TableColumns(c)[a].pk != TableColumns(c)[b].pk
  {
    var cols := TableColumns(c);
    CreatedPosition(c, a);
    CreatedPosition(c, b);
    assert cols[a].name == c.fields[a].name && cols[b].name == c.fields[b].name;
    assert Fold(cols[a].name) != Fold(cols[b].name);
  }

  lemma CreatedNumbered(c: CollectionDef)
    requires WellKeyed(c)
    ensures NumberedKey(TableColumns(c)) && |KeyEntries(TableColumns(c))| == |c.primaryKey|
  {
    var cols, n := TableColumns(c), |c.primaryKey|;
    forall a | 0 <= a < |cols| ensures cols[a].pk <= n { CreatedPosition(c, a); }
    forall a, b | 0 <= a < b < |cols| && cols[a].pk > 0 ensures cols[a].pk != cols[b].pk {
      CreatedApart(c, a, b);
    }
    forall p: nat | 1 <= p <= n ensures FindPosition(cols, p).Some? {
      var i := CreatedPlace(c, p);
    }
    NumberedFromColumns(cols, n);
  }

  lemma CreatedKeyAt(c: CollectionDef, i: nat)
    requires WellKeyed(c)
    requires NumberedKey(TableColumns(c)) && i < |KeyOf(TableColumns(c))| == |c.primaryKey|
    ensures KeyOf(TableColumns(c))[i] == SpelledKey(c)[i]
  {
    var j := KeyOfColumn(TableColumns(c), i);
    CreatedPosition(c, j);
    var k := KeyField(c, i);
    assert TableColumns(c)[j].name == c.fields[j].name;
  }

  lemma SameStrings(a: seq<string>, b: seq<string>)
    requires |a| == |b| && forall i | 0 <= i < |a| :: a[i] == b[i]
    ensures a == b
  {
  }

  /** The key of a created table reads back as the key of its definition, in order, as the fields
      spell it. */
  lemma CreatedKey(c: CollectionDef)
    requires WellKeyed(c)
    ensures NumberedKey(TableColumns(c)) && KeyOf(TableColumns(c)) == SpelledKey(c)
  {
    CreatedNumbered(c);
    SortMembers(KeyEntries(TableColumns(c)));
    forall i | 0 <= i < |c.primaryKey| ensures KeyOf(TableColumns(c))[i] == SpelledKey(c)[i] {
      CreatedKeyAt(c, i);
    }
    SameStrings(KeyOf(TableColumns(c)), SpelledKey(c));
  }

  lemma KeyAlike(c: CollectionDef)
    requires WellKeyed(c)
    ensures Alike(c.primaryKey, SpelledKey(c))
  {
    forall k | 0 <= k < |c.primaryKey| ensures Fold(c.primaryKey[k]) == Fold(SpelledKey(c)[k]) {
      var i := KeyField(c, k);
    }
  }

  /** A key spelled as its fields is that very key. */
  lemma SpelledAsIs(c: CollectionDef, k: nat)
    requires WellKeyed(c) && k < |c.primaryKey|
    ensures SpelledKey(c)[k] == c.primaryKey[k] <==> FieldNamed(c.fields, c.primaryKey[k])
  {
    var i := KeyField(c, k);
    if FieldNamed(c.fields, c.primaryKey[k]) {
      var j :| 0 <= j < |c.fields| && c.fields[j].name == c.primaryKey[k];
      assert j == i;
    }
  }

  lemma ExactlyOneInline(c: CollectionDef)
    requires AllTyped(c.fields)
    ensures HasAuto(FieldDecls(c)) <==> InlineKey(c)
  {
    var decls := FieldDecls(c);
    if HasAuto(decls) {
      var i :| 0 <= i < |decls| && decls[i].suffix == AutoRowidKey;
      assert decls[i] == FieldDecl(c, c.fields[i]);
    }
    if InlineKey(c) {
      var i := FirstAuto(c.fields, c.primaryKey[0]);
      assert decls[i] == FieldDecl(c, c.fields[i]);
      assert decls[i].suffix == AutoRowidKey;
    }
  }

  lemma {:induction false} FirstAuto(fields: seq<FieldDef>, name: string) returns (i: nat)
    requires HasAutoIncIntPK(fields, name)
    ensures i < |fields| && fields[i].name == name && fields[i].typ == Int && fields[i].autoIncrement
    decreases |fields|
  {
    if fields[0].name == name { i := 0; }
    else {
      var k := FirstAuto(fields[1..], name);
      i := k + 1;
      assert fields[1..][k] == fields[i];
    }
  }

  /** The declarations of a created table are those its shape is written as. */
  lemma CreatedDecls(c: CollectionDef)
    requires WellKeyed(c)
    ensures DeclsOf(TableColumns(c), InlineKey(c)) == FieldDecls(c)
  {
    var cols, decls := TableColumns(c), FieldDecls(c);
    forall j | 0 <= j < |cols| ensures DeclOf(cols[j], InlineKey(c)) == decls[j] {
      assert decls[j] == FieldDecl(c, c.fields[j]);
      CreatedPosition(c, j);
      if InlineKey(c) {
        var i := FirstAuto(c.fields, c.primaryKey[0]);
        assert cols[i].name == c.fields[i].name && cols[j].name == c.fields[j].name;
        KeyPositionBound(c.primaryKey, c.fields[j].name);
        if c.fields[j].name == c.primaryKey[0] {
          assert i == j;
        }
      }
    }
  }

  lemma CreatedColumns(c: CollectionDef)
    requires WellKeyed(c)
    ensures ColumnsFollow(CreatedCollection(c).cols, TableColumns(c))
  {
    CreatedKey(c);
    var cols, lcols := TableColumns(c), CreatedCollection(c).cols;
    forall j | 0 <= j < |lcols| ensures SqliteTypeFor(lcols[j].typ).Some? && cols[j] == PhysicalColumn(lcols[j]) {
      CreatedPosition(c, j);
      assert FieldDecls(c)[j] == FieldDecl(c, c.fields[j]);
    }
  }

  lemma InlineIsAlias(c: CollectionDef, t: Table)
    requires WellKeyed(c)
    requires InlineKey(c) && t.cols == TableColumns(c) && !t.withoutRowid
    ensures AliasColumn(t).Some?
  {
    CreatedKey(c);
    SortMembers(KeyEntries(t.cols));
    assert |KeyOf(t.cols)| == 1;
    var j := KeyOfColumn(t.cols, 0);
    var i := FirstAuto(c.fields, c.primaryKey[0]);
    CreatedPosition(c, i);
    CreatedPosition(c, j);
    KeyPositionAt(c.primaryKey, c.fields[i].name, 0);
    ColumnsFromNumbered(t.cols);
    assert i == j;
    assert FieldDecls(c)[i] == FieldDecl(c, c.fields[i]);
    assert t.cols[i].decl == "INTEGER";
    assert Fold("INTEGER") == "integer";
    var k := FindPosition(t.cols, 1).value;
    assert k == i;
  }

  /** A created table follows the collection its definition describes. */
  lemma CreatedFollows(c: CollectionDef)
    requires AllTyped(c.fields)
    requires ValidBody(FieldDecls(c), if InlineKey(c) then [] else c.primaryKey)
    ensures TableFollows(CreatedCollection(c),
                         NewTable(c.name, FieldDecls(c), if InlineKey(c) then [] else c.primaryKey))
  {
    var t := NewTable(c.name, FieldDecls(c), if InlineKey(c) then [] else c.primaryKey);
    assert t.cols == TableColumns(c);
    ValidIsWellKeyed(c);
    ExactlyOneInline(c);
    CreatedColumns(c);
    if InlineKey(c) { InlineIsAlias(c, t); }
  }

  /** Index statements leave the tables and the markers alone. */
  lemma {:induction false} IndexesOnly(e: Storage, cat: Catalog, sts: seq<Statement>)
    requires forall i | 0 <= i < |sts| :: sts[i].CreateIndex?
    requires Statements(e, cat, sts).Some?
    requires IndexesFollow(cat.indexes, cat.tables)
    ensures var r := Statements(e, cat, sts).value;
            && r.tables == cat.tables && r.markers == cat.markers && r.sidecar == cat.sidecar
            && IndexesFollow(r.indexes, r.tables)
    decreases |sts|
  {
    if sts != [] {
      IndexesOnly(e, cat, sts[..|sts| - 1]);
    }
  }

  lemma StatementsLast(e: Storage, cat: Catalog, init: seq<Statement>, last: Statement)
    ensures Statements(e, cat, init + [last])
            == match Statements(e, cat, init) case None => None case Some(c) => Emitted(e, c, last)
  {
    assert (init + [last])[..|init|] == init;
  }

  /** The first statement, then the rest from where it led. */
  function Led(e: Storage, cat: Catalog, first: Statement, rest: seq<Statement>): Option<Catalog> {
    match Emitted(e, cat, first) case None => None case Some(c) => Statements(e, c, rest)
  }

  lemma LedLast(e: Storage, cat: Catalog, first: Statement, init: seq<Statement>, last: Statement)
    requires Statements(e, cat, [first] + init) == Led(e, cat, first, init)
    ensures Statements(e, cat, [first] + (init + [last])) == Led(e, cat, first, init + [last])
  {
    assert [first] + (init + [last]) == ([first] + init) + [last];
    StatementsLast(e, cat, [first] + init, last);
    if Emitted(e, cat, first).Some? { StatementsLast(e, Emitted(e, cat, first).value, init, last); }
  }

  lemma NothingLed(e: Storage, cat: Catalog, first: Statement)
    ensures Statements(e, cat, [first] + []) == Led(e, cat, first, [])
  {
    assert [first] + [] == [] + [first];
    StatementsLast(e, cat, [], first);
    assert Statements(e, cat, []) == Some(cat);
  }

  lemma {:induction false} StatementsFrom(e: Storage, cat: Catalog, first: Statement, rest: seq<Statement>)
    ensures Statements(e, cat, [first] + rest) == Led(e, cat, first, rest)
    decreases |rest|
  {
    if rest == [] {
      NothingLed(e, cat, first);
    } else {
      var n := |rest| - 1;
      assert rest == rest[..n] + [rest[n]];
      StatementsFrom(e, cat, first, rest[..n]);
      LedLast(e, cat, first, rest[..n], rest[n]);
    }
  }

  /** Replacing or adding one table and one collection that follow each other. */
  lemma OneTableChanged(s: Schema, tables: map<string, Table>, c: Collection, t: Table)
    requires TablesFollow(s, tables) && TableFollows(c, t)
    ensures TablesFollow(s[Fold(c.name) := c], tables[Fold(c.name) := t])
  {
    var s', tables' := s[Fold(c.name) := c], tables[Fold(c.name) := t];
    forall f | f in s' ensures Fold(s'[f].name) == f && TableFollows(s'[f], tables'[f]) {
      if f != Fold(c.name) { assert f in s && tables'[f] == tables[f] && s'[f] == s[f]; }
    }
  }

  /** A creation is its first statement, which makes the table, then those of its indexes. */
  lemma CreateParts(e: Storage, cat: Catalog, c: CollectionDef, o: Options) returns (c1: Catalog, c2: Catalog)
    requires CreateMeaning(e, cat, c, o).Some?
    ensures CreateTableStatement(c, o).Some? && IndexesBuild(c, o)
    ensures Emitted(e, cat, CreateTableStatement(c, o).value) == Some(c1)
    ensures Statements(e, c1, IndexStatements(c, o)) == Some(c2)
    ensures CreateMeaning(e, cat, c, o) == Some(WithMarkers(c2, c.name, TimeColumns(c.fields)))
  {
    var st := CreateTableStatement(c, o).value;
    StatementsFrom(e, cat, st, IndexStatements(c, o));
    c1 := Emitted(e, cat, st).value;
    c2 := Statements(e, c1, IndexStatements(c, o)).value;
  }

  lemma CreateSplit(e: Storage, cat: Catalog, c: CollectionDef, o: Options) returns (c2: Catalog)
    requires CreateMeaning(e, cat, c, o).Some? && IndexesFollow(cat.indexes, cat.tables)
    ensures c2.markers == cat.markers && c2.sidecar == cat.sidecar && IndexesFollow(c2.indexes, c2.tables)
    ensures CreateMeaning(e, cat, c, o) == Some(WithMarkers(c2, c.name, TimeColumns(c.fields)))
    ensures Fold(c.name) in cat.tables ==> o.ifNotExists && c2.tables == cat.tables
    ensures Fold(c.name) !in cat.tables ==>
              && AllTyped(c.fields) && ValidBody(FieldDecls(c), if InlineKey(c) then [] else c.primaryKey)
              && c2.tables == cat.tables[Fold(c.name) := NewTable(c.name, FieldDecls(c), if InlineKey(c) then []
                                                                  else c.primaryKey)]
  {
    var c1;
    c1, c2 := CreateParts(e, cat, c, o);
    CreateOne(e, cat, CreateTableStatement(c, o).value, c1);
    IndexesKeep(e, c1, c, o, c2);
  }

  lemma IndexesKeep(e: Storage, c1: Catalog, c: CollectionDef, o: Options, c2: Catalog)
    requires IndexesBuild(c, o) && Statements(e, c1, IndexStatements(c, o)) == Some(c2)
             && IndexesFollow(c1.indexes, c1.tables)
    ensures c2.tables == c1.tables && c2.markers == c1.markers && c2.sidecar == c1.sidecar
            && IndexesFollow(c2.indexes, c2.tables)
  {
    IndexesOnly(e, c1, IndexStatements(c, o));
  }

  lemma CreateOne(e: Storage, cat: Catalog, st: Statement, c1: Catalog)
    requires st.CreateTable? && Emitted(e, cat, st) == Some(c1) && IndexesFollow(cat.indexes, cat.tables)
    ensures Fold(st.name) in cat.tables ==> st.ifNotExists && c1 == cat
    ensures Fold(st.name) !in cat.tables ==>
              ValidBody(st.decls, st.key)
                && c1 == cat.(tables := cat.tables[Fold(st.name) := NewTable(st.name, st.decls, st.key)])
    ensures IndexesFollow(c1.indexes, c1.tables)
  {
  }

  /** A creation meets no collection of the name; or, with IfNotExists, one whose Time columns
      already include the definition's. */
  predicate CreateSound(s: Schema, c: CollectionDef) {
    Fold(c.name) in s ==> forall x | x in TimeColumns(c.fields) :: IsTimeColumn(s, c.name, x)
  }

  function AfterCreate(s: Schema, c: CollectionDef): Schema {
    if Fold(c.name) in s then s else s[Fold(c.name) := CreatedCollection(c)]
  }

  /** A creation that succeeded follows the logical schema exactly then. */
  lemma CreateFollows(e: Storage, s: Schema, cat: Catalog, c: CollectionDef, o: Options)
    requires Follows(s, cat) && CreateMeaning(e, cat, c, o).Some?
    ensures Follows(AfterCreate(s, c), CreateMeaning(e, cat, c, o).value) <==> CreateSound(s, c)
    ensures Fold(c.name) in s ==> o.ifNotExists
  {
    var c2 := CreateSplit(e, cat, c, o);
    if Fold(c.name) in s {
      RecreatedMarkers(s, c2, c);
    } else {
      CreatedFollows(c);
      CreatedMarkers(s, c2, c);
      OneTableChanged(s, cat.tables, CreatedCollection(c), c2.tables[Fold(c.name)]);
    }
  }

  lemma RecreatedMarkers(s: Schema, c2: Catalog, c: CollectionDef)
    requires Fold(c.name) in s && MarkersFollow(s, c2.markers, c2.sidecar)
    ensures var c3 := WithMarkers(c2, c.name, TimeColumns(c.fields));
            MarkersFollow(s, c3.markers, c3.sidecar) <==> CreateSound(s, c)
  {
    var c3 := WithMarkers(c2, c.name, TimeColumns(c.fields));
    forall t, x ensures (t, x) in c3.markers <==> (t, x) in c2.markers || (t == c.name && x in TimeColumns(c.fields)) {
      assert (t, x) in MarkersFor(c.name, TimeColumns(c.fields)) <==> t == c.name && x in TimeColumns(c.fields);
    }
    forall t, x ensures (t, x) in c2.markers <==> IsTimeColumn(s, t, x) {}
  }

  lemma CreatedMarkers(s: Schema, c2: Catalog, c: CollectionDef)
    requires Fold(c.name) !in s && MarkersFollow(s, c2.markers, c2.sidecar)
    ensures var c3 := WithMarkers(c2, c.name, TimeColumns(c.fields));
            MarkersFollow(s[Fold(c.name) := CreatedCollection(c)], c3.markers, c3.sidecar)
  {
    var c3 := WithMarkers(c2, c.name, TimeColumns(c.fields));
    var s' := s[Fold(c.name) := CreatedCollection(c)];
    forall t, x ensures (t, x) in c3.markers <==> IsTimeColumn(s', t, x) {
      CreatedHasTime(c, x);
      assert (t, x) in c2.markers <==> IsTimeColumn(s, t, x);
      if TimeColumns(c.fields) != [] {
        assert (t, x) in MarkersFor(c.name, TimeColumns(c.fields)) <==> t == c.name && x in TimeColumns(c.fields);
      }
      if Fold(t) == Fold(c.name) {
        assert !IsTimeColumn(s, t, x);
      } else {
        assert IsTimeColumn(s', t, x) <==> IsTimeColumn(s, t, x);
      }
    }
  }

  // ---- Drop ----

  /** The collection a drop finds has no Time column unless its name is spelled exactly. */
  predicate DropCallSound(s: Schema, name: string) {
    Fold(name) in s ==> s[Fold(name)].name == name || TimeFree(s[Fold(name)].cols)
  }

  predicate TimeFree(cols: seq<LogicalColumn>) { forall j | 0 <= j < |cols| :: cols[j].typ != Time }

  lemma DroppedMarkers(s: Schema, c1: Catalog, name: string)
    requires MarkersFollow(s, c1.markers, c1.sidecar)
    requires forall f | f in s :: Fold(s[f].name) == f
    ensures var c2 := BestEffort(c1, DeleteMarkers(name));
            MarkersFollow(s - {Fold(name)}, c2.markers, c2.sidecar) <==> DropCallSound(s, name)
  {
    var c2 := BestEffort(c1, DeleteMarkers(name));
    var f := Fold(name);
    forall t, x ensures (t, x) in c2.markers <==> (t, x) in c1.markers && t != name {
      assert (t, x) in c1.markers <==> IsTimeColumn(s, t, x);
    }
    if DropCallSound(s, name) {
      forall t, x ensures (t, x) in c2.markers <==> IsTimeColumn(s - {f}, t, x) {
        assert (t, x) in c1.markers <==> IsTimeColumn(s, t, x);
      }
    } else {
      var j :| 0 <= j < |s[f].cols| && s[f].cols[j].typ == Time;
      var t, x := s[f].name, s[f].cols[j].name;
      assert IsTimeColumn(s, t, x) && !IsTimeColumn(s - {f}, t, x);
      assert (t, x) in c2.markers;
    }
  }

  lemma DroppedIndexes(indexes: seq<Index>, tables: map<string, Table>, f: string)
    requires IndexesFollow(indexes, tables)
    ensures IndexesFollow(KeepIndexes(indexes, f), tables - {f})
  {
    KeptTables(indexes, f);
    forall i | 0 <= i < |KeepIndexes(indexes, f)| ensures KeepIndexes(indexes, f)[i].table in tables - {f} {
      var x := KeepIndexes(indexes, f)[i];
      assert x in indexes;
      var k :| 0 <= k < |indexes| && indexes[k] == x;
    }
  }

  lemma DropEffect(e: Storage, cat: Catalog, name: string, ifExists: bool, c1: Catalog)
    requires Emitted(e, cat, SqlText.DropTable(ifExists, name)) == Some(c1)
    ensures c1.tables == cat.tables - {Fold(name)} && c1.markers == cat.markers && c1.sidecar == cat.sidecar
    ensures c1.indexes == if Fold(name) in cat.tables then KeepIndexes(cat.indexes, Fold(name)) else cat.indexes
  {
    if Fold(name) !in cat.tables { assert cat.tables - {Fold(name)} == cat.tables; }
  }

  lemma OneTableDropped(s: Schema, tables: map<string, Table>, f: string)
    requires TablesFollow(s, tables)
    ensures TablesFollow(s - {f}, tables - {f})
  {
    forall g | g in s - {f} ensures Fold(s[g].name) == g && TableFollows(s[g], tables[g]) {}
    assert (tables - {f}).Keys == (s - {f}).Keys;
  }

  /** What the caller checks before a drop; without the cleanup only a collection without Time
      columns will do. */
  predicate DropSound(s: Schema, name: string, choice: Choice) {
    if choice == MarkerSkipped then Fold(name) in s ==> TimeFree(s[Fold(name)].cols) else DropCallSound(s, name)
  }

  lemma KeptMarkers(s: Schema, cat: Catalog, f: string)
    requires MarkersFollow(s, cat.markers, cat.sidecar) && forall g | g in s :: Fold(s[g].name) == g
    ensures MarkersFollow(s - {f}, cat.markers, cat.sidecar) <==> (f in s ==> TimeFree(s[f].cols))
  {
    forall t, x ensures (t, x) in cat.markers <==> IsTimeColumn(s, t, x) {}
    if f in s && !TimeFree(s[f].cols) {
      var j :| 0 <= j < |s[f].cols| && s[f].cols[j].typ == Time;
      assert IsTimeColumn(s, s[f].name, s[f].cols[j].name);
      assert !IsTimeColumn(s - {f}, s[f].name, s[f].cols[j].name);
    }
  }

  lemma DropSplit(e: Storage, cat: Catalog, name: string, o: Options, choice: Choice) returns (c1: Catalog)
    requires DropChosen(e, cat, name, o, choice).Some?
    ensures Emitted(e, cat, SqlText.DropTable(o.ifExists, name)) == Some(c1)
    ensures DropChosen(e, cat, name, o, choice) == Some(AfterMarker(c1, DeleteMarkers(name), choice))
  {
    c1 := Emitted(e, cat, SqlText.DropTable(o.ifExists, name)).value;
  }

  lemma DroppedFollows(s: Schema, cat: Catalog, name: string, c1: Catalog, choice: Choice)
    requires Follows(s, cat) && c1.tables == cat.tables - {Fold(name)} && c1.markers == cat.markers
             && c1.sidecar == cat.sidecar
    requires c1.indexes == if Fold(name) in cat.tables then KeepIndexes(cat.indexes, Fold(name)) else cat.indexes
    ensures Follows(s - {Fold(name)}, AfterMarker(c1, DeleteMarkers(name), choice))
            <==> DropSound(s, name, choice)
  {
    if choice == MarkerSkipped { KeptMarkers(s, c1, Fold(name)); } else { DroppedMarkers(s, c1, name); }
    DroppedIndexes(cat.indexes, cat.tables, Fold(name));
    OneTableDropped(s, cat.tables, Fold(name));
  }

  /** A drop that succeeded follows the logical schema, markers included, exactly when it was
      sound: it named the collection as it is spelled or the collection had no Time column, and
      the latter if the cleanup of markers was refused and ignored. */
  lemma DropFollows(e: Storage, s: Schema, cat: Catalog, name: string, o: Options, choice: Choice)
    requires Follows(s, cat) && DropChosen(e, cat, name, o, choice).Some?
    ensures Follows(s - {Fold(name)}, DropChosen(e, cat, name, o, choice).value) <==> DropSound(s, name, choice)
  {
    var c1 := DropSplit(e, cat, name, o, choice);
    DropEffect(e, cat, name, o.ifExists, c1);
    DroppedFollows(s, cat, name, c1, choice);
  }
}
