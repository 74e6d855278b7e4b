/** The database as an abstract catalog, and each emitted statement as a partial step on it.
    None is SQLite refusing the statement, which leaves the catalog as it was. */
module Catalog {
  import opened Text
  import opened SqlText
  import opened TypeMapping
  import opened KeyOrder
  import SqlParser

  datatype Value = VNull | VInteger(n: int) | VReal(bits: int) | VText(s: string) | VBlob(bytes: seq<bv8>)

  /** How SQLite stores and compares values: the conversion each affinity applies on
      storing, and equality of keys. Every result holds for every such pair. */
  datatype Storage = Storage(coerce: (Affinity, Value) -> Value, same: (Value, Value) -> bool)

  datatype Column = Column(name: string, decl: string, notNull: bool, pk: nat)

  datatype ForeignKeyRow = ForeignKeyRow(
    id: nat, place: nat, target: string, from: string, to: Option<string>, onUpdate: string, onDelete: string)

  datatype TableData = Table(
    name: string, cols: seq<Column>, rows: seq<seq<Value>>, auto: bool, withoutRowid: bool, hidden: seq<string>,
    sql: string, foreignKeys: seq<ForeignKeyRow>)

  /** A rowid table without foreign keys or hidden columns, as the engine creates them. */
  predicate Ordinary(t: TableData) { !t.withoutRowid && t.foreignKeys == [] && t.hidden == [] }

  predicate SameKind(t: TableData, u: TableData) {
    t.withoutRowid == u.withoutRowid && t.foreignKeys == u.foreignKeys && t.hidden == u.hidden
  }

  predicate Rectangular(t: TableData) {
    forall i | 0 <= i < |t.rows| :: |t.rows[i]| == |t.cols|
  }

  type Table = t: TableData | Rectangular(t) witness Table("", [], [], false, false, [], "", [])

  datatype Origin = Created | UniqueConstraint

  /** An index on the table with that folded name; a None column is an expression. */
  datatype Index = Index(name: string, table: string, cols: seq<Option<string>>, unique: bool, origin: Origin)

  /** Tables by folded name, indexes in order of creation, and the sidecar of Time markers. */
  datatype Catalog = Catalog(
    tables: map<string, Table>, indexes: seq<Index>, sidecar: bool, markers: set<(string, string)>)

  const EMPTY := Catalog(map[], [], false, {})

  // ---- Looking names up ----

  function FindColumn(cols: seq<Column>, name: string): (r: Option<nat>)
    ensures r.Some? ==> r.value < |cols| && Fold(cols[r.value].name) == Fold(name)
    ensures r.None? ==> forall i | 0 <= i < |cols| :: Fold(cols[i].name) != Fold(name)
  {
    if cols == [] then None
    else if Fold(cols[0].name) == Fold(name) then Some(0)
    else match FindColumn(cols[1..], name) case None => None case Some(i) => Some(i + 1)
  }

  predicate DistinctColumns(cols: seq<Column>) {
    forall i, j | 0 <= i < j < |cols| :: Fold(cols[i].name) != Fold(cols[j].name)
  }

  lemma FindDistinct(cols: seq<Column>, name: string, i: nat)
    requires DistinctColumns(cols) && i < |cols| && Fold(cols[i].name) == Fold(name)
    ensures FindColumn(cols, name) == Some(i)
  {
  }

  /** Every name found, as the table spells it; None when one is missing. */
  function Resolve(cols: seq<Column>, names: seq<string>): (r: Option<seq<nat>>)
    ensures r.Some? ==> |r.value| == |names|
    ensures r.Some? ==> forall i | 0 <= i < |names| :: FindColumn(cols, names[i]) == Some(r.value[i])
    ensures r.None? ==> exists i :: 0 <= i < |names| && FindColumn(cols, names[i]).None?
  {
    if names == [] then Some([])
    else match (FindColumn(cols, names[0]), Resolve(cols, names[1..]))
      case (Some(i), Some(rest)) => Some([i] + rest)
      case (None, _) => None
      case (_, None) => assert exists i ::
        0 <= i < |names[1..]| && FindColumn(cols, names[1..][i]).None? && names[1..][i] == names[i + 1]; None
  }

  predicate IndexNamed(indexes: seq<Index>, folded: string) {
    exists i | 0 <= i < |indexes| :: Fold(indexes[i].name) == folded
  }

  /** Names SQLite keeps for itself. */
  predicate Reserved(name: string) { "sqlite_" <= Fold(name) }

  function KeepIndexes(indexes: seq<Index>, dropped: string): seq<Index> {
    if indexes == [] then []
    else (if indexes[0].table == dropped then [] else [indexes[0]]) + KeepIndexes(indexes[1..], dropped)
  }

  /** The indexes of a table, newest first, as pragma_index_list orders them. */
  function TableIndexes(indexes: seq<Index>, f: string): seq<Index> {
    if indexes == [] then []
    else
      var last := indexes[|indexes| - 1];
      (if last.table == f then [last] else []) + TableIndexes(indexes[..|indexes| - 1], f)
  }

  lemma {:induction false} TableIndexesLaw(indexes: seq<Index>, f: string, x: Index)
    ensures x in TableIndexes(indexes, f) <==> x in indexes && x.table == f
    decreases |indexes|
  {
    if indexes != [] {
      var n := |indexes| - 1;
      TableIndexesLaw(indexes[..n], f, x);
      assert indexes == indexes[..n] + [indexes[n]];
    }
  }

  /** pragma_table_info: no rows for a table that does not exist. */
  function TableInfo(cat: Catalog, name: string): seq<Column> {
    if Fold(name) in cat.tables then cat.tables[Fold(name)].cols else []
  }

  // ---- Keys ----

  /** 1 + the first place of name in the key, or 0. */
  function KeyPosition(key: seq<string>, name: string): nat {
    if key == [] then 0
    else if Fold(key[0]) == Fold(name) then 1
    else var p := KeyPosition(key[1..], name); if p == 0 then 0 else p + 1
  }

  /** The key columns in column order, with their positions. */
  function KeyEntries(cols: seq<Column>): seq<PkEntry> {
    if cols == [] then []
    else KeyEntries(cols[..|cols| - 1])
         + (if cols[|cols| - 1].pk > 0 then [PkEntry(cols[|cols| - 1].name, cols[|cols| - 1].pk)] else [])
  }

  /** The key columns in key order. */
  function KeyOf(cols: seq<Column>): seq<string> { KeyNames(SortByOrder(KeyEntries(cols))) }

  function FindPosition(cols: seq<Column>, p: nat): (r: Option<nat>)
    ensures r.Some? ==> r.value < |cols| && cols[r.value].pk == p
    ensures r.None? ==> forall i | 0 <= i < |cols| :: cols[i].pk != p
  {
    if cols == [] then None
    else if cols[0].pk == p then Some(0)
    else match FindPosition(cols[1..], p) case None => None case Some(i) => Some(i + 1)
  }

  /** The column that is the rowid: the sole key column, of declared type INTEGER. */
  function AliasColumn(t: TableData): (r: Option<nat>)
    ensures r.Some? ==> r.value < |t.cols| && t.cols[r.value].pk == 1
  {
    if t.withoutRowid || |KeyEntries(t.cols)| != 1 then None
    else match FindPosition(t.cols, 1)
      case None => None
      case Some(i) => if Fold(t.cols[i].decl) == "integer" then Some(i) else None
  }

  /** Whether SQLite keeps an index of its own for the key. */
  predicate HasKeyIndex(t: TableData) { KeyEntries(t.cols) != [] && AliasColumn(t).None? }

  // ---- Rows ----

  function Coerced(e: Storage, cols: seq<Column>, raw: seq<Value>): (r: seq<Value>)
    requires |raw| == |cols|
    ensures |r| == |cols|
  {
    seq(|cols|, i requires 0 <= i < |cols| => e.coerce(AffinityOf(cols[i].decl), raw[i]))
  }

  function NextRowid(rows: seq<seq<Value>>, at: nat): int {
    if rows == [] then 1
    else
      var rest := NextRowid(rows[..|rows| - 1], at);
      var last := rows[|rows| - 1];
      if at < |last| && last[at].VInteger? && last[at].n >= rest then last[at].n + 1 else rest
  }

  predicate KeyClash(e: Storage, cols: seq<Column>, a: seq<Value>, b: seq<Value>)
    requires |a| == |b| == |cols|
  {
    && (exists i | 0 <= i < |cols| :: cols[i].pk > 0)
    && forall i | 0 <= i < |cols| :: cols[i].pk > 0 ==> a[i] != VNull && b[i] != VNull && e.same(a[i], b[i])
  }

  /** The row to store: values converted, a missing rowid chosen. */
  function RowToStore(e: Storage, t: Table, raw: seq<Value>): (r: seq<Value>)
    requires |raw| == |t.cols|
    ensures |r| == |t.cols|
  {
    var vals := Coerced(e, t.cols, raw);
    var alias := AliasColumn(t);
    if alias.Some? && vals[alias.value] == VNull
    then vals[alias.value := VInteger(NextRowid(t.rows, alias.value))] else vals
  }

  /** An integer for the rowid, and no NULL where none is allowed. */
  predicate RowAllowed(t: TableData, row: seq<Value>)
    requires |row| == |t.cols|
  {
    && (AliasColumn(t).Some? ==> row[AliasColumn(t).value].VInteger?)
    && forall i | 0 <= i < |row| :: (t.cols[i].notNull || (t.withoutRowid && t.cols[i].pk > 0)) ==> row[i] != VNull
  }

  /** Inserts one row, which must be allowed and have a key of its own. */
  function InsertRow(e: Storage, t: Table, raw: seq<Value>): (r: Option<Table>)
    requires |raw| == |t.cols|
    ensures r.Some? ==> r.value.cols == t.cols && AliasColumn(r.value) == AliasColumn(t)
  {
    var row := RowToStore(e, t, raw);
    if !RowAllowed(t, row) || exists k | 0 <= k < |t.rows| :: KeyClash(e, t.cols, t.rows[k], row) then None
    else Some(t.(rows := t.rows + [row]))
  }

  function InsertRows(e: Storage, t: Table, raws: seq<seq<Value>>): (r: Option<Table>)
    requires forall i | 0 <= i < |raws| :: |raws[i]| == |t.cols|
    decreases |raws|
  {
    if raws == [] then Some(t)
    else match InsertRow(e, t, raws[0]) case None => None case Some(t1) => InsertRows(e, t1, raws[1..])
  }

  /** The row a copy offers the target: named columns from the source, the others NULL. */
  function Offered(target: seq<Column>, into: seq<string>, places: seq<nat>, row: seq<Value>): (r: seq<Value>)
    requires |places| == |into| && forall k | 0 <= k < |places| :: places[k] < |row|
    ensures |r| == |target|
  {
    seq(|target|, j requires 0 <= j < |target| =>
      var p := KeyPosition(into, target[j].name);
      if 0 < p <= |places| then row[places[p - 1]] else VNull)
  }

  // ---- The text SQLite keeps for a table ----

  function DeclOf(c: Column, inlineKey: bool): ColumnDecl {
    ColumnDecl(c.name, c.decl, if inlineKey && c.pk == 1 then AutoRowidKey else if c.notNull then NotNull else Plain)
  }

  function DeclsOf(cols: seq<Column>, inlineKey: bool): (r: seq<ColumnDecl>)
    ensures |r| == |cols|
  {
    seq(|cols|, i requires 0 <= i < |cols| => DeclOf(cols[i], inlineKey))
  }

  /** The CREATE TABLE text of a table's present shape. */
  function TableText(name: string, cols: seq<Column>, auto: bool): string {
    StatementText(CreateTable(false, name, DeclsOf(cols, auto), if auto then [] else KeyOf(cols)))
  }

  // ---- Statements ----

  predicate InlineDecl(d: ColumnDecl) { d.suffix == RowidKey || d.suffix == AutoRowidKey }

  function CountInline(decls: seq<ColumnDecl>): nat {
    if decls == [] then 0 else (if InlineDecl(decls[0]) then 1 else 0) + CountInline(decls[1..])
  }

  function ColumnOf(d: ColumnDecl, key: seq<string>): Column {
    Column(d.name, d.decl, d.suffix == NotNull, if InlineDecl(d) then 1 else KeyPosition(key, d.name))
  }

  function ColumnsOf(decls: seq<ColumnDecl>, key: seq<string>): (r: seq<Column>)
    ensures |r| == |decls|
  {
    seq(|decls|, i requires 0 <= i < |decls| => ColumnOf(decls[i], key))
  }

  predicate DistinctNames(names: seq<string>) {
    forall i, j | 0 <= i < j < |names| :: Fold(names[i]) != Fold(names[j])
  }

  /** Distinct columns, at most one key, AUTOINCREMENT only on INTEGER, a key of columns. */
  predicate ValidBody(decls: seq<ColumnDecl>, key: seq<string>) {
    var cols := ColumnsOf(decls, key);
    && decls != [] && DistinctColumns(cols)
    && CountInline(decls) + (if key == [] then 0 else 1) <= 1
    && (forall i | 0 <= i < |decls| :: decls[i].suffix == AutoRowidKey ==> Fold(decls[i].decl) == "integer")
    && DistinctNames(key) && Resolve(cols, key).Some?
  }

  predicate HasAuto(decls: seq<ColumnDecl>) {
    exists i | 0 <= i < |decls| :: decls[i].suffix == AutoRowidKey
  }

  function NewTable(name: string, decls: seq<ColumnDecl>, key: seq<string>): Table {
    Table(name, ColumnsOf(decls, key), [], HasAuto(decls), false, [],
          StatementText(CreateTable(false, name, decls, key)), [])
  }

  function CreateTableStep(cat: Catalog, st: Statement): Option<Catalog>
    requires st.CreateTable?
  {
    var f := Fold(st.name);
    if Reserved(st.name) then None
    else if f in cat.tables then (if st.ifNotExists then Some(cat) else None)
    else if IndexNamed(cat.indexes, f) || !ValidBody(st.decls, st.key) then None
    else Some(cat.(tables := cat.tables[f := NewTable(st.name, st.decls, st.key)]))
  }

  function Spelled(cols: seq<Column>, places: seq<nat>): seq<Option<string>>
    requires forall i | 0 <= i < |places| :: places[i] < |cols|
  {
    seq(|places|, i requires 0 <= i < |places| => Some(cols[places[i]].name))
  }

  predicate Repeats(e: Storage, t: Table, places: seq<nat>)
    requires forall i | 0 <= i < |places| :: places[i] < |t.cols|
  {
    exists a, b | 0 <= a < |t.rows| && 0 <= b < |t.rows| ::
      a < b && forall i | 0 <= i < |places| ::
        t.rows[a][places[i]] != VNull && t.rows[b][places[i]] != VNull
          && e.same(t.rows[a][places[i]], t.rows[b][places[i]])
  }

  function CreateIndexStep(e: Storage, cat: Catalog, st: Statement): Option<Catalog>
    requires st.CreateIndex?
  {
    var f := Fold(st.table);
    if Reserved(st.name) || f !in cat.tables || Fold(st.name) in cat.tables then None
    else if IndexNamed(cat.indexes, Fold(st.name)) then (if st.ifNotExists then Some(cat) else None)
    else match Resolve(cat.tables[f].cols, st.cols)
      case None => None
      case Some(places) =>
        if st.unique && Repeats(e, cat.tables[f], places) then None
        else Some(cat.(indexes := cat.indexes
                       + [Index(st.name, f, Spelled(cat.tables[f].cols, places), st.unique, Created)]))
  }

  function DropTableStep(cat: Catalog, name: string, ifExists: bool): Option<Catalog> {
    var f := Fold(name);
    if f !in cat.tables then (if ifExists then Some(cat) else None)
    else if Reserved(name) then None
    else Some(cat.(tables := cat.tables - {f}, indexes := KeepIndexes(cat.indexes, f)))
  }

  function FindIndex(indexes: seq<Index>, folded: string): (r: Option<nat>)
    ensures r.Some? ==> r.value < |indexes| && Fold(indexes[r.value].name) == folded
    ensures r.None? ==> !IndexNamed(indexes, folded)
  {
    if indexes == [] then None
    else if Fold(indexes[0].name) == folded then Some(0)
    else match FindIndex(indexes[1..], folded) case None => None case Some(i) => Some(i + 1)
  }

  function DropIndexStep(cat: Catalog, name: string, ifExists: bool): Option<Catalog> {
    match FindIndex(cat.indexes, Fold(name))
    case None => if ifExists && !Reserved(name) then Some(cat) else None
    case Some(i) =>
      if cat.indexes[i].origin != Created then None
      else Some(cat.(indexes := cat.indexes[..i] + cat.indexes[i + 1..]))
  }

  function Reshaped(t: Table, cols: seq<Column>, rows: seq<seq<Value>>): Table
    requires forall i | 0 <= i < |rows| :: |rows[i]| == |cols|
  {
    t.(cols := cols, rows := rows, sql := TableText(t.name, cols, t.auto))
  }

  function AddColumnStep(cat: Catalog, name: string, d: ColumnDecl): Option<Catalog> {
    var f := Fold(name);
    if f !in cat.tables then None
    else
      var t := cat.tables[f];
      if FindColumn(t.cols, d.name).Some? || InlineDecl(d) || (d.suffix == NotNull && t.rows != []) then None
      else
        var rows := seq(|t.rows|, i requires 0 <= i < |t.rows| => t.rows[i] + [VNull]);
        Some(cat.(tables := cat.tables[f := Reshaped(t, t.cols + [Column(d.name, d.decl, d.suffix == NotNull, 0)],
                                                     rows)]))
  }

  /** Some index of the table uses the column. */
  predicate Indexed(indexes: seq<Index>, table: string, column: string) {
    exists i | 0 <= i < |indexes| :: indexes[i].table == table
      && exists k | 0 <= k < |indexes[i].cols| ::
         indexes[i].cols[k].Some? && Fold(indexes[i].cols[k].value) == Fold(column)
  }

  function Without<T>(s: seq<T>, i: nat): (r: seq<T>)
    requires i < |s|
    ensures |r| == |s| - 1
  {
    s[..i] + s[i + 1..]
  }

  function DropColumnStep(cat: Catalog, name: string, column: string): Option<Catalog> {
    var f := Fold(name);
    if f !in cat.tables then None
    else
      var t := cat.tables[f];
      match FindColumn(t.cols, column)
      case None => None
      case Some(i) =>
        if t.cols[i].pk > 0 || |t.cols| == 1 || Indexed(cat.indexes, f, column) then None
        else
          var rows := seq(|t.rows|, k requires 0 <= k < |t.rows| => Without(t.rows[k], i));
          Some(cat.(tables := cat.tables[f := Reshaped(t, Without(t.cols, i), rows)]))
  }

  function RenamedTerm(c: Option<string>, o: string, n: string): Option<string> {
    if c.Some? && Fold(c.value) == Fold(o) then Some(n) else c
  }

  function RenamedIndex(x: Index, table: string, o: string, n: string): Index {
    if x.table != table then x
    else x.(cols := seq(|x.cols|, k requires 0 <= k < |x.cols| => RenamedTerm(x.cols[k], o, n)))
  }

  function RenamedIndexes(indexes: seq<Index>, table: string, o: string, n: string): (r: seq<Index>)
    ensures |r| == |indexes|
  {
    seq(|indexes|, i requires 0 <= i < |indexes| => RenamedIndex(indexes[i], table, o, n))
  }

  function RenameColumnStep(cat: Catalog, name: string, o: string, n: string): Option<Catalog> {
    var f := Fold(name);
    if f !in cat.tables then None
    else
      var t := cat.tables[f];
      match FindColumn(t.cols, o)
      case None => None
      case Some(i) =>
        if FindColumn(t.cols, n).Some? && Fold(n) != Fold(o) then None
        else Some(cat.(tables := cat.tables[f := Reshaped(t, t.cols[i := t.cols[i].(name := n)], t.rows)],
                       indexes := RenamedIndexes(cat.indexes, f, o, n)))
  }

  function MovedIndexes(indexes: seq<Index>, f: string, g: string): (r: seq<Index>)
    ensures |r| == |indexes|
  {
    seq(|indexes|, i requires 0 <= i < |indexes| => if indexes[i].table == f then indexes[i].(table := g)
        else indexes[i])
  }

  function RenameTableStep(cat: Catalog, name: string, n: string): Option<Catalog> {
    var f, g := Fold(name), Fold(n);
    if f !in cat.tables || Reserved(n) || g in cat.tables || IndexNamed(cat.indexes, g) then None
    else
      var t := cat.tables[f];
      Some(cat.(tables := (cat.tables - {f})[g := t.(name := n, sql := TableText(n, t.cols, t.auto))],
                indexes := MovedIndexes(cat.indexes, f, g)))
  }

  function CopyStep(e: Storage, cat: Catalog, st: Statement): Option<Catalog>
    requires st.CopyRows?
  {
    var f, g := Fold(st.target), Fold(st.source);
    if f !in cat.tables || g !in cat.tables || |st.into| != |st.cols| then None
    else
      var t, s := cat.tables[f], cat.tables[g];
      match (Resolve(t.cols, st.into), Resolve(s.cols, st.cols))
      case (Some(_), Some(places)) =>
        (var raws := seq(|s.rows|, i requires 0 <= i < |s.rows| => Offered(t.cols, st.into, places, s.rows[i]));
         match InsertRows(e, t, raws) case None => None case Some(t1) => Some(cat.(tables := cat.tables[f := t1])))
      case _ => None
  }

  /** What a statement does. */
  function Step(e: Storage, cat: Catalog, st: Statement): Option<Catalog> {
    match st
    case CreateTable(_, _, _, _) => CreateTableStep(cat, st)
    case CreateIndex(_, _, _, _, _) => CreateIndexStep(e, cat, st)
    case DropTable(ie, name) => DropTableStep(cat, name, ie)
    case DropIndex(ie, name) => DropIndexStep(cat, name, ie)
    case AddColumn(table, d) => AddColumnStep(cat, table, d)
    case DropColumn(table, c) => DropColumnStep(cat, table, c)
    case RenameColumn(table, o, n) => RenameColumnStep(cat, table, o, n)
    case RenameTable(table, n) => RenameTableStep(cat, table, n)
    case CopyRows(_, _, _, _) => CopyStep(e, cat, st)
  }

  /** What SQLite does with a text: read it, then run what was read. */
  function RunText(e: Storage, cat: Catalog, sql: string): Option<Catalog> {
    match SqlParser.ParseStatement(sql) case None => None case Some(st) => Step(e, cat, st)
  }

  /** What an emitted statement does once written out and read back. */
  function Emitted(e: Storage, cat: Catalog, st: Statement): Option<Catalog> {
    if SqlParser.Readable(st) then Step(e, cat, st) else None
  }

  /** Running the text of a statement runs the statement. */
  lemma TextRunsStatement(e: Storage, cat: Catalog, st: Statement)
    requires SqlParser.Emittable(st)
    ensures RunText(e, cat, StatementText(st)) == Emitted(e, cat, st)
  {
    SqlParser.RoundTrip(st);
  }

  // ---- The sidecar of Time markers ----

  datatype MarkerStatement =
    | EnsureSidecar
    | InsertMarker(collection: string, column: string)
    | DeleteMarkers(collection: string)
    | DeleteMarker(collection: string, column: string)
    | UpdateMarker(collection: string, oldColumn: string, newColumn: string)

  /** Marker names are compared exactly; the pair is the sidecar's primary key. */
  function MarkerStep(cat: Catalog, st: MarkerStatement): Option<Catalog> {
    match st
    case EnsureSidecar => Some(cat.(sidecar := true))
    case InsertMarker(t, c) => if cat.sidecar then Some(cat.(markers := cat.markers + {(t, c)})) else None
    case DeleteMarkers(t) => if cat.sidecar then Some(cat.(markers := set m | m in cat.markers && m.0 != t)) else None
    case DeleteMarker(t, c) => if cat.sidecar then Some(cat.(markers := cat.markers - {(t, c)})) else None
    case UpdateMarker(t, o, n) =>
      if !cat.sidecar then None
      else if (t, o) !in cat.markers then Some(cat)
      else if n != o && (t, n) in cat.markers then None
      else Some(cat.(markers := cat.markers - {(t, o)} + {(t, n)}))
  }
}
