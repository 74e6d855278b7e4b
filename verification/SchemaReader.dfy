/** Describing a collection from the catalog: its fields, key, indexes and foreign keys, and the
    catalog details kept beside them. Every query waits for the connection of the one before. */
module SchemaReader {
  import opened Text
  import opened DbSchema
  import opened TypeMapping
  import opened KeyOrder
  import opened Catalog
  import opened ConnectionPool
  import opened ForeignKeys
  import opened Listing

  /** One row of pragma_index_list with the terms of its index. */
  datatype ListedIndex = ListedIndex(name: string, unique: bool, fromKey: bool, terms: seq<Option<string>>)

  datatype SourceDefinition = SourceDefinition(createSQL: string, columns: seq<Column>, indexes: seq<ListedIndex>)

  datatype Description = Description(
    name: string, fields: seq<FieldDef>, primaryKey: seq<string>, indexes: seq<IndexDef>,
    foreignKeys: seq<ForeignKeyDef>, source: SourceDefinition)

  /** NotFound: no table of exactly that name. Unsupported: a column of an unrecognised type.
      Hidden: a generated or hidden column, which no description can hold. */
  datatype Outcome =
    | NotFound
    | Unsupported(column: string)
    | Hidden(column: string)
    | Failed
    | Described(d: Description)

  // ---- What is described ----

  /** The table that sqlite_master lists under exactly that name. */
  predicate Exists(cat: Catalog, name: string) { Fold(name) in cat.tables && cat.tables[Fold(name)].name == name }

  function MarksOf(cat: Catalog, name: string): set<string> {
    if cat.sidecar then set m | m in cat.markers && m.0 == name :: m.1 else {}
  }

  predicate Recognisable(c: Column, marks: set<string>) { c.name in marks || DbschemaTypeFromSQLite(c.decl).ok }

  predicate AllRecognisable(cols: seq<Column>, marks: set<string>) {
    forall i | 0 <= i < |cols| :: Recognisable(cols[i], marks)
  }

  function FieldOf(c: Column, marks: set<string>): FieldDef {
    var r := DbschemaTypeFromSQLite(c.decl);
    if c.name in marks then FieldDef(c.name, Time, None, !c.notNull, false)
    else FieldDef(c.name, r.typ, r.precision, !c.notNull, false)
  }

  function FieldsOf(cols: seq<Column>, marks: set<string>): (r: seq<FieldDef>)
    ensures |r| == |cols|
  {
    seq(|cols|, i requires 0 <= i < |cols| => FieldOf(cols[i], marks))
  }

  /** The last Int field at key position 1: the one whose AUTOINCREMENT is asked for. */
  function AutoField(fields: seq<FieldDef>, cols: seq<Column>): (r: Option<nat>)
    requires |fields| == |cols|
    ensures r.Some? ==> r.value < |cols| && cols[r.value].pk == 1
  {
    if cols == [] then None
    else
      var n := |cols| - 1;
      if fields[n].typ == Int && cols[n].pk == 1 then Some(n) else AutoField(fields[..n], cols[..n])
  }

  function WithAuto(fields: seq<FieldDef>, at: Option<nat>, auto: bool): (r: seq<FieldDef>)
    requires at.Some? ==> at.value < |fields|
    ensures |r| == |fields|
  {
    if at.None? then fields else fields[at.value := fields[at.value].(autoIncrement := auto)]
  }

  /** A sole INTEGER key column without an index of its own is the rowid and cannot be NULL. */
  predicate IsRowid(c: Column, keyWidth: nat, source: SourceDefinition) {
    && keyWidth == 1 && c.pk == 1 && Fold(TrimSpace(c.decl)) == "integer"
    && (forall i | 0 <= i < |source.indexes| :: !source.indexes[i].fromKey)
    && !Contains(Upper(source.createSQL), "WITHOUT ROWID")
  }

  /** The catalog columns are the described ones, as far as there are any. */
  predicate SameColumns(fields: seq<FieldDef>, source: SourceDefinition) {
    |source.columns| <= |fields| && forall i | 0 <= i < |source.columns| :: source.columns[i].name == fields[i].name
  }

  function WithRowids(fields: seq<FieldDef>, keyWidth: nat, source: SourceDefinition): (r: seq<FieldDef>)
    requires |source.columns| <= |fields|
    ensures |r| == |fields|
  {
    seq(|fields|, i requires 0 <= i < |fields| =>
      if i < |source.columns| && IsRowid(source.columns[i], keyWidth, source) then fields[i].(nullable := false)
      else fields[i])
  }

  predicate HasExpression(terms: seq<Option<string>>) { exists i | 0 <= i < |terms| :: terms[i].None? }

  function NamedTerms(terms: seq<Option<string>>): seq<string> {
    if terms == [] then []
    else NamedTerms(terms[..|terms| - 1]) + if terms[|terms| - 1].Some? then [terms[|terms| - 1].value] else []
  }

  /** The fields of an index; none when one of its terms is an expression. */
  function IndexFields(terms: seq<Option<string>>): seq<string> {
    if HasExpression(terms) then [] else NamedTerms(terms)
  }

  function ListedOf(x: Index): ListedIndex { ListedIndex(x.name, x.unique, false, x.cols) }

  function Terms(names: seq<string>): (r: seq<Option<string>>)
    ensures |r| == |names|
  {
    seq(|names|, i requires 0 <= i < |names| => Some(names[i]))
  }

  /** pragma_index_list: newest first, the key's own index last. */
  function ListedIndexes(cat: Catalog, name: string): seq<ListedIndex> {
    var own := TableIndexes(cat.indexes, Fold(name));
    seq(|own|, i requires 0 <= i < |own| => ListedOf(own[i]))
    + if Fold(name) in cat.tables && HasKeyIndex(cat.tables[Fold(name)])
      then [ListedIndex("sqlite_autoindex_" + name + "_1", true, true, Terms(KeyOf(cat.tables[Fold(name)].cols)))]
        else []
  }

  /** The portable indexes: not the key's own, and only those on plain columns. */
  function IndexDefs(listed: seq<ListedIndex>, name: string): seq<IndexDef> {
    if listed == [] then []
    else
      var x := listed[|listed| - 1];
      IndexDefs(listed[..|listed| - 1], name)
      + if x.fromKey || IndexFields(x.terms) == [] then [] else [IndexDef(x.name, name, IndexFields(x.terms), x.unique)]
  }

  function SourceOf(cat: Catalog, name: string): SourceDefinition
    requires Exists(cat, name)
  {
    SourceDefinition(cat.tables[Fold(name)].sql, cat.tables[Fold(name)].cols, ListedIndexes(cat, name))
  }

  predicate SqlShowsAuto(cat: Catalog, name: string) {
    Exists(cat, name) && Contains(Upper(cat.tables[Fold(name)].sql), "AUTOINCREMENT")
  }

  /** The description; auto is what the AUTOINCREMENT probe answered. */
  function DescriptionOf(cat: Catalog, name: string, enforced: bool, auto: bool): Description
    requires Exists(cat, name)
  {
    var cols, marks, source := TableInfo(cat, name), MarksOf(cat, name), SourceOf(cat, name);
    var read := FieldsOf(cols, marks);
    var fields := WithAuto(read, AutoField(read, cols), auto);
    Description(name, WithRowids(fields, |KeyOf(cols)|, source), KeyOf(cols),
                IndexDefs(source.indexes, name), ForeignKeysOf(cat, name, enforced), source)
  }

  function FirstUnsupported(cols: seq<Column>, marks: set<string>): (r: Option<string>)
    ensures r.None? <==> AllRecognisable(cols, marks)
  {
    if cols == [] then None
    else if !Recognisable(cols[0], marks) then assert !AllRecognisable(cols, marks); Some(cols[0].name)
    else
      assert cols == [cols[0]] + cols[1..];
      FirstUnsupported(cols[1..], marks)
  }

  lemma {:induction false} FirstIs(cols: seq<Column>, marks: set<string>, n: nat)
    requires n < |cols| && AllRecognisable(cols[..n], marks) && !Recognisable(cols[n], marks)
    ensures FirstUnsupported(cols, marks) == Some(cols[n].name)
    decreases n
  {
    if n > 0 {
      assert Recognisable(cols[..n][0], marks);
      assert cols[1..][..n - 1] == cols[..n][1..];
      FirstIs(cols[1..], marks, n - 1);
    }
  }

  /** What describing a collection answers; auto is what the AUTOINCREMENT probe answered. */
  function Answer(cat: Catalog, name: string, enforced: bool, auto: bool): Outcome {
    if !Exists(cat, name) then NotFound
    else match FirstUnsupported(TableInfo(cat, name), MarksOf(cat, name))
      case Some(column) => Unsupported(column)
      case None =>
        if cat.tables[Fold(name)].hidden != [] then Hidden(cat.tables[Fold(name)].hidden[0])
        else Described(DescriptionOf(cat, name, enforced, auto))
  }

  // ---- The queries ----

  /** The sidecar's rows for a collection, in some order. */
  method MarkerRows(cat: Catalog, name: string) returns (data: seq<string>)
    ensures forall n :: n in data <==> (name, n) in cat.markers
  {
    data := [];
    var left := cat.markers;
    while left != {}
      invariant left <= cat.markers
      invariant forall n :: n in data <==> (name, n) in cat.markers - left
      decreases |left|
    {
      var m :| m in left;
      left := left - {m};
      if m.0 == name { data := data + [m.1]; }
    }
  }

  /** readTimeMarkers: without a sidecar there are none. */
  method ReadTimeMarkers(pool: Pool, cat: Catalog, name: string) returns (r: Option<map<string, bool>>)
    requires pool.free > 0
    modifies pool, pool.env
    ensures pool.free == old(pool.free) && old(pool.env.asked) <= pool.env.asked
    ensures r.Some? <==> pool.env.CalmSince(old(pool.env.asked))
    ensures r.Some? ==> r.value.Keys == MarksOf(cat, name) && forall n | n in r.value :: r.value[n]
  {
    ghost var from := pool.env.asked;
    var exists' := pool.QueryRow(if cat.sidecar then Some(SIDECAR) else None);
    if exists'.None? { return None; }
    if exists'.value.None? { return Some(map[]); }
    var data := MarkerRows(cat, name);
    var rows := pool.Query(data);
    if rows == null { return None; }
    var out: map<string, bool> := map[];
    var has, row := rows.Fetch(from);
    while has
      invariant rows.home == pool && rows.holds && rows.data == data && fresh(rows)
      invariant rows.Fetched(from, has, row) && pool.free == old(pool.free) - if has then 1 else 0
      invariant (forall n :: n in out <==> n in rows.Dealt()) && forall n | n in out :: out[n]
      decreases |rows.data| - rows.read, has
    {
      if row.None? { rows.Close(); return None; }
      out := out[row.value := true];
      has, row := rows.Fetch(from);
    }
    rows.Close();
    if rows.failed { return None; }
    MarkersRead(cat, name, data, out);
    return Some(out);
  }

  lemma MarkersRead(cat: Catalog, name: string, data: seq<string>, out: map<string, bool>)
    requires cat.sidecar && (forall n :: n in data <==> (name, n) in cat.markers) && forall n :: n in out <==> n in data
    ensures out.Keys == MarksOf(cat, name)
  {
    forall n ensures n in out <==> n in MarksOf(cat, name) {
      if n in out { assert (name, n) in cat.markers; }
    }
  }

  function TableSql(cat: Catalog, name: string): Option<string> {
    if Exists(cat, name) then Some(cat.tables[Fold(name)].sql) else None
  }

  /** tableHasAutoIncrement: looks for the word in the table's CREATE text. */
  method TableHasAutoIncrement(pool: Pool, cat: Catalog, name: string) returns (found: bool, ok: bool)
    requires pool.free > 0 && Exists(cat, name)
    modifies pool.env
    ensures pool.env.asked == old(pool.env.asked) + 1
    ensures ok <==> pool.env.Granted(old(pool.env.asked))
    ensures found <==> ok && SqlShowsAuto(cat, name)
  {
    var ddl := pool.QueryRow(TableSql(cat, name));
    if ddl.None? || ddl.value.None? { return false, false; }
    return Contains(Upper(ddl.value.value), "AUTOINCREMENT"), true;
  }

  /** readIndexFields. */
  method ReadIndexFields(pool: Pool, terms: seq<Option<string>>) returns (r: Option<seq<string>>)
    requires pool.free > 0
    modifies pool, pool.env
    ensures pool.free == old(pool.free) && old(pool.env.asked) <= pool.env.asked
    ensures r.Some? <==> pool.env.CalmSince(old(pool.env.asked))
    ensures r.Some? ==> r.value == IndexFields(terms)
  {
    ghost var from := pool.env.asked;
    var rows := pool.Query(terms);
    if rows == null { return None; }
    var out: seq<string> := [];
    var hasExpression := false;
    ghost var n := 0;
    assert terms[..0] == [];
    var has, row := rows.Fetch(from);
    while has
      invariant rows.home == pool && rows.holds && rows.data == terms && fresh(rows)
      invariant rows.Fetched(from, has, row) && pool.free == old(pool.free) - if has then 1 else 0
      invariant rows.read == n + (if has then 1 else 0)
      invariant out == NamedTerms(terms[..n]) && hasExpression == HasExpression(terms[..n])
      decreases |rows.data| - rows.read, has
    {
      if row.None? { rows.Close(); return None; }
      TermsStep(terms, n);
      n := n + 1;
      if row.value.None? {
        hasExpression := true;
      } else {
        out := out + [row.value.value];
      }
      has, row := rows.Fetch(from);
    }
    rows.Close();
    if rows.failed { return None; }
    assert terms[..n] == terms;
    if hasExpression { return Some([]); }
    return Some(out);
  }

  lemma TermsStep(terms: seq<Option<string>>, n: nat)
    requires n < |terms|
    ensures NamedTerms(terms[..n + 1]) == NamedTerms(terms[..n]) + if terms[n].Some? then [terms[n].value] else []
    ensures HasExpression(terms[..n + 1]) <==> HasExpression(terms[..n]) || terms[n].None?
  {
    assert terms[..n + 1][..n] == terms[..n];
    if HasExpression(terms[..n]) { var i :| 0 <= i < n && terms[..n][i].None?; assert terms[..n + 1][i].None?; }
    if terms[n].None? { assert terms[..n + 1][n].None?; }
  }

  function OnFields(indexes: seq<IndexDef>, names: set<string>): seq<IndexDef> {
    if indexes == [] then []
    else
      var x := indexes[|indexes| - 1];
      OnFields(indexes[..|indexes| - 1], names)
      + if forall k | 0 <= k < |x.fields| :: x.fields[k] in names then [x] else []
  }

  function FieldNames(fields: seq<FieldDef>): set<string> { set i | 0 <= i < |fields| :: fields[i].name }

  /** indexesOnFields: the indexes whose every field is described, in their order. */
  method IndexesOnFields(indexes: seq<IndexDef>, fields: seq<FieldDef>) returns (kept: seq<IndexDef>)
    ensures kept == OnFields(indexes, FieldNames(fields))
  {
    var described: map<string, bool> := map[];
    var i := 0;
    while i < |fields|
      invariant 0 <= i <= |fields| && described.Keys == FieldNames(fields[..i])
    {
      assert FieldNames(fields[..i + 1]) == FieldNames(fields[..i]) + {fields[i].name} by {
        assert fields[..i + 1] == fields[..i] + [fields[i]];
        assert fields[..i + 1][i] == fields[i];
        forall k | 0 <= k < i ensures fields[..i][k] == fields[..i + 1][k] {}
      }
      described := described[fields[i].name := true];
      i := i + 1;
    }
    assert fields[..i] == fields;
    kept := [];
    i := 0;
    while i < |indexes|
      invariant 0 <= i <= |indexes| && kept == OnFields(indexes[..i], FieldNames(fields))
    {
      assert indexes[..i + 1][..i] == indexes[..i];
      var onDescribed := true;
      var k := 0;
      while k < |indexes[i].fields|
        invariant 0 <= k <= |indexes[i].fields|
        invariant onDescribed == forall j | 0 <= j < k :: indexes[i].fields[j] in described
      {
        onDescribed := onDescribed && indexes[i].fields[k] in described;
        k := k + 1;
      }
      if onDescribed {
        kept := kept + [indexes[i]];
      }
      i := i + 1;
    }
    assert indexes[..i] == indexes;
  }

  lemma NextDef(listed: seq<ListedIndex>, i: nat, name: string)
    requires i < |listed|
    ensures var x := listed[i];
            IndexDefs(listed[..i + 1], name)
            == IndexDefs(listed[..i], name)
               + if x.fromKey || IndexFields(x.terms) == [] then []
                 else [IndexDef(x.name, name, IndexFields(x.terms), x.unique)]
  {
    assert listed[..i + 1][..i] == listed[..i];
  }

  /** The loop over the drained list, asking for the fields of each index. */
  method PortableIndexes(pool: Pool, listed: seq<ListedIndex>, name: string) returns (r: Option<seq<IndexDef>>)
    requires pool.free > 0
    modifies pool, pool.env
    ensures pool.free == old(pool.free) && old(pool.env.asked) <= pool.env.asked
    ensures r.Some? <==> pool.env.CalmSince(old(pool.env.asked))
    ensures r.Some? ==> r.value == IndexDefs(listed, name)
  {
    ghost var from := pool.env.asked;
    var out: seq<IndexDef> := [];
    var i := 0;
    while i < |listed|
      invariant 0 <= i <= |listed| && pool.free == old(pool.free)
      invariant from <= pool.env.asked && pool.env.CalmSince(from)
      invariant out == IndexDefs(listed[..i], name)
    {
      NextDef(listed, i, name);
      var index := listed[i];
      if !index.fromKey {
        ghost var mid := pool.env.asked;
        var fields := ReadIndexFields(pool, index.terms);
        if fields.None? { return None; }
        if |fields.value| > 0 {
          out := out + [IndexDef(index.name, name, fields.value, index.unique)];
        }
      }
      i := i + 1;
    }
    assert listed[..i] == listed;
    return Some(out);
  }

  /** listIndexesImpl: the list is drained before the fields of each index are asked for. */
  method ListIndexes(pool: Pool, cat: Catalog, name: string) returns (r: Option<seq<IndexDef>>)
    requires pool.free > 0
    modifies pool, pool.env
    ensures pool.free == old(pool.free) && old(pool.env.asked) <= pool.env.asked
    ensures r.Some? <==> pool.env.CalmSince(old(pool.env.asked))
    ensures r.Some? ==> r.value == IndexDefs(ListedIndexes(cat, name), name)
  {
    ghost var from := pool.env.asked;
    var listed := ReadAll(pool, ListedIndexes(cat, name));
    if listed.None? { return None; }
    ghost var mid := pool.env.asked;
    r := PortableIndexes(pool, listed.value, name);
  }

  /** The terms of every listed index, each asked for after the list and the one before. */
  method ReadSourceIndexes(pool: Pool, listed: seq<ListedIndex>) returns (r: Option<seq<ListedIndex>>)
    requires pool.free > 0
    modifies pool, pool.env
    ensures pool.free == old(pool.free) && old(pool.env.asked) <= pool.env.asked
    ensures r.Some? <==> pool.env.CalmSince(old(pool.env.asked))
    ensures r.Some? ==> r.value == listed
  {
    ghost var from := pool.env.asked;
    var out: seq<ListedIndex> := [];
    var i := 0;
    while i < |listed|
      invariant 0 <= i <= |listed| && pool.free == old(pool.free)
      invariant from <= pool.env.asked && pool.env.CalmSince(from)
      invariant out == listed[..i]
    {
      var ddl := pool.QueryRow(Some(listed[i].name));
      if ddl.None? { return None; }
      ghost var mid := pool.env.asked;
      var terms := ReadAll(pool, listed[i].terms);
      if terms.None? { return None; }
      out := out + [listed[i].(terms := terms.value)];
      i := i + 1;
    }
    return Some(out);
  }

  function HiddenOf(cat: Catalog, name: string): seq<string> {
    if Fold(name) in cat.tables then cat.tables[Fold(name)].hidden else []
  }

  /** What the search for hidden columns found. */
  datatype Search = NoneHidden | FirstHidden(column: string) | BrokenSearch

  /** rejectHiddenSourceColumns: only the first row is looked at. */
  method RejectHiddenSourceColumns(pool: Pool, cat: Catalog, name: string) returns (r: Search)
    requires pool.free > 0
    modifies pool, pool.env
    ensures pool.free == old(pool.free) && old(pool.env.asked) < pool.env.asked
    ensures r.BrokenSearch? <==> !pool.env.CalmSince(old(pool.env.asked))
    ensures r.NoneHidden? ==> HiddenOf(cat, name) == []
    ensures r.FirstHidden? ==> HiddenOf(cat, name) != [] && r.column == HiddenOf(cat, name)[0]
  {
    ghost var from := pool.env.asked;
    var rows := pool.Query(HiddenOf(cat, name));
    if rows == null { return BrokenSearch; }
    var has, row := rows.Fetch(from);
    rows.Close();
    if has { return if row.None? then BrokenSearch else FirstHidden(row.value); }
    return if rows.failed then BrokenSearch else NoneHidden;
  }

  datatype Source = ReadSource(d: SourceDefinition) | HiddenColumn(column: string) | BrokenSource

  /** The queries of readSourceDefinition after the search for hidden columns. */
  method ReadSourceCatalog(pool: Pool, cat: Catalog, name: string) returns (r: Option<SourceDefinition>)
    requires pool.free > 0 && Exists(cat, name)
    modifies pool, pool.env
    ensures pool.free == old(pool.free) && old(pool.env.asked) <= pool.env.asked
    ensures r.Some? <==> pool.env.CalmSince(old(pool.env.asked))
    ensures r.Some? ==> r.value == SourceOf(cat, name)
  {
    ghost var from := pool.env.asked;
    var sql := pool.QueryRow(TableSql(cat, name));
    if sql.None? { return None; }
    ghost var m1 := pool.env.asked;
    var columns := ReadAll(pool, TableInfo(cat, name));
    if columns.None? { return None; }
    ghost var m2 := pool.env.asked;
    var listed := ReadAll(pool, ListedIndexes(cat, name));
    if listed.None? { return None; }
    ghost var m3 := pool.env.asked;
    var indexes := ReadSourceIndexes(pool, listed.value);
    if indexes.None? { return None; }
    return Some(SourceDefinition(sql.value.value, columns.value, indexes.value));
  }

  /** readSourceDefinition: a hidden column is refused before anything else is read. */
  method ReadSourceDefinition(pool: Pool, cat: Catalog, name: string) returns (r: Source)
    requires pool.free > 0 && Exists(cat, name)
    modifies pool, pool.env
    ensures pool.free == old(pool.free) && old(pool.env.asked) < pool.env.asked
    ensures r.BrokenSource? <==> !pool.env.CalmSince(old(pool.env.asked))
    ensures !r.BrokenSource? ==> r == if HiddenOf(cat, name) == [] then ReadSource(SourceOf(cat, name))
            else HiddenColumn(HiddenOf(cat, name)[0])
  {
    ghost var from := pool.env.asked;
    var search := RejectHiddenSourceColumns(pool, cat, name);
    if search.BrokenSearch? { return BrokenSource; }
    if search.FirstHidden? { return HiddenColumn(search.column); }
    ghost var mid := pool.env.asked;
    var read := ReadSourceCatalog(pool, cat, name);
    return if read.None? then BrokenSource else ReadSource(read.value);
  }

  datatype Columns =
    | ReadColumns(fields: seq<FieldDef>, pkEntries: seq<PkEntry>, auto: Option<nat>)
    | BadColumn(column: string)
    | BrokenRead

  /** The field of one row; None for an unrecognised type that no marker explains. */
  method DescribeColumn(c: Column, timeMarkers: map<string, bool>) returns (r: Option<FieldDef>)
    requires forall n | n in timeMarkers :: timeMarkers[n]
    ensures r == if Recognisable(c, timeMarkers.Keys) then Some(FieldOf(c, timeMarkers.Keys)) else None
  {
    var t, precision := Time, None;
    if !(c.name in timeMarkers && timeMarkers[c.name]) {
      var recognised := DbschemaTypeFromSQLite(c.decl);
      if !recognised.ok { return None; }
      t, precision := recognised.typ, recognised.precision;
    }
    return Some(FieldDef(c.name, t, precision, !c.notNull, false));
  }

  lemma ColumnsStep(cols: seq<Column>, marks: set<string>, n: nat)
    requires n < |cols|
    ensures FieldsOf(cols[..n + 1], marks) == FieldsOf(cols[..n], marks) + [FieldOf(cols[n], marks)]
    ensures KeyEntries(cols[..n + 1]) == KeyEntries(cols[..n])
            + if cols[n].pk > 0 then [PkEntry(cols[n].name, cols[n].pk)] else []
    ensures AllRecognisable(cols[..n + 1], marks) <==> AllRecognisable(cols[..n], marks) && Recognisable(cols[n], marks)
  {
    assert cols[..n + 1][..n] == cols[..n];
    assert cols[..n + 1] == cols[..n] + [cols[n]];
  }

  lemma AutoFieldStep(fields: seq<FieldDef>, f: FieldDef, cols: seq<Column>, n: nat)
    requires n < |cols| && |fields| == n
    ensures AutoField(fields + [f], cols[..n + 1])
            == if f.typ == Int && cols[n].pk == 1 then Some(n) else AutoField(fields, cols[..n])
  {
    assert cols[..n + 1][..n] == cols[..n] && (fields + [f])[..n] == fields;
  }

  /** What the loop has gathered from the columns read so far. */
  ghost predicate Gathered(g: Columns, cols: seq<Column>, marks: set<string>) {
    AllRecognisable(cols, marks)
      && g == ReadColumns(FieldsOf(cols, marks), KeyEntries(cols), AutoField(FieldsOf(cols, marks), cols))
  }

  /** One row of pragma_table_info. */
  method GatherColumn(g: Columns, c: Column, timeMarkers: map<string, bool>, ghost cols: seq<Column>, ghost n: nat)
    returns (g': Columns)
    requires forall x | x in timeMarkers :: timeMarkers[x]
    requires n < |cols| && c == cols[n] && Gathered(g, cols[..n], timeMarkers.Keys)
    ensures g'.ReadColumns? ==> Gathered(g', cols[..n + 1], timeMarkers.Keys)
    ensures !g'.ReadColumns? ==> g'.BadColumn? && FirstUnsupported(cols, timeMarkers.Keys) == Some(g'.column)
    ensures g'.ReadColumns? <==> Recognisable(c, timeMarkers.Keys)
  {
    var field := DescribeColumn(c, timeMarkers);
    if field.None? {
      FirstIs(cols, timeMarkers.Keys, n);
      return BadColumn(c.name);
    }
    ColumnsStep(cols, timeMarkers.Keys, n);
    AutoFieldStep(g.fields, field.value, cols, n);
    var autoIncrementField, pkEntries := g.auto, g.pkEntries;
    if field.value.typ == Int && c.pk == 1 {
      autoIncrementField := Some(|g.fields|);
    }
    if c.pk > 0 {
      pkEntries := pkEntries + [PkEntry(c.name, c.pk)];
    }
    return ReadColumns(g.fields + [field.value], pkEntries, autoIncrementField);
  }

  /** The loop over pragma_table_info. */
  method DescribeColumns(pool: Pool, cols: seq<Column>, timeMarkers: map<string, bool>) returns (r: Columns)
    requires pool.free > 0 && forall n | n in timeMarkers :: timeMarkers[n]
    modifies pool, pool.env
    ensures pool.free == old(pool.free) && old(pool.env.asked) <= pool.env.asked
    ensures r.BrokenRead? <==> !pool.env.CalmSince(old(pool.env.asked))
    ensures r.ReadColumns? ==> Gathered(r, cols, timeMarkers.Keys)
    ensures r.BadColumn? ==> FirstUnsupported(cols, timeMarkers.Keys) == Some(r.column)
  {
    ghost var from := pool.env.asked;
    var rows := pool.Query(cols);
    if rows == null { return BrokenRead; }
    var g := ReadColumns([], [], None);
    ghost var n := 0;
    assert cols[..0] == [];
    var has, row := rows.Fetch(from);
    while has
      invariant rows.home == pool && rows.holds && rows.data == cols && fresh(rows)
      invariant rows.Fetched(from, has, row) && pool.free == old(pool.free) - if has then 1 else 0
      invariant rows.read == n + (if has then 1 else 0) && Gathered(g, cols[..n], timeMarkers.Keys)
      decreases |rows.data| - rows.read, has
    {
      if row.None? { rows.Close(); return BrokenRead; }
      g := GatherColumn(g, row.value, timeMarkers, cols, n);
      if g.BadColumn? { rows.Close(); return g; }
      n := n + 1;
      has, row := rows.Fetch(from);
    }
    rows.Close();
    if rows.failed { return BrokenRead; }
    assert cols[..n] == cols;
    return g;
  }

  /** The last pass: the catalog columns must be the described ones, and a rowid loses its NULL. */
  method ApplySource(fields: seq<FieldDef>, keyWidth: nat, source: SourceDefinition) returns (r: Option<seq<FieldDef>>)
    ensures r.Some? <==> SameColumns(fields, source)
    ensures r.Some? ==> r.value == WithRowids(fields, keyWidth, source)
  {
    var hasPKIndex := false;
    var k := 0;
    while k < |source.indexes|
      invariant 0 <= k <= |source.indexes|
      invariant !hasPKIndex && forall i | 0 <= i < k :: !source.indexes[i].fromKey
    {
      if source.indexes[k].fromKey { hasPKIndex := true; break; }
      k := k + 1;
    }
    var out := fields;
    var i := 0;
    while i < |source.columns|
      invariant 0 <= i <= |source.columns| && i <= |fields| == |out|
      invariant forall j | 0 <= j < i :: source.columns[j].name == fields[j].name
      invariant forall j | 0 <= j < |fields| ::
        out[j] == if j < i && IsRowid(source.columns[j], keyWidth, source) then fields[j].(nullable := false)
          else fields[j]
    {
      var col := source.columns[i];
      if i >= |out| || col.name != out[i].name { return None; }
      if keyWidth == 1 && col.pk == 1 && Fold(TrimSpace(col.decl)) == "integer" && !hasPKIndex
         && !Contains(Upper(source.createSQL), "WITHOUT ROWID") {
        out := out[i := out[i].(nullable := false)];
      }
      i := i + 1;
    }
    return Some(out);
  }

  /** The queries after the AUTOINCREMENT probe, one after another: indexes, foreign keys and
      catalog details, then the last pass. */
  method FinishDescription(pool: Pool, cat: Catalog, name: string, enabled: bool, fields: seq<FieldDef>,
                           pk: seq<string>, ghost auto: bool)
    returns (r: Outcome)
    requires pool.free > 0 && KeyedByFold(cat) && Exists(cat, name) && pk == KeyOf(TableInfo(cat, name))
    requires AllRecognisable(TableInfo(cat, name), MarksOf(cat, name))
    requires var cols, read := TableInfo(cat, name), FieldsOf(TableInfo(cat, name), MarksOf(cat, name));
             fields == WithAuto(read, AutoField(read, cols), auto)
    modifies pool, pool.env
    ensures pool.free == old(pool.free) && old(pool.env.asked) <= pool.env.asked
    ensures r.Failed? <==> !pool.env.CalmSince(old(pool.env.asked))
    ensures r.Failed? || r == Answer(cat, name, enabled, auto)
  {
    ghost var from := pool.env.asked;
    var indexes := ListIndexes(pool, cat, name);
    if indexes.None? { return Failed; }
    ghost var m1 := pool.env.asked;
    var foreignKeys := ReadForeignKeys(pool, cat, name, enabled);
    if foreignKeys.None? { return Failed; }
    ghost var m2 := pool.env.asked;
    var source := ReadSourceDefinition(pool, cat, name);
    if source.BrokenSource? { return Failed; }
    if source.HiddenColumn? { return Hidden(source.column); }
    SameNames(cat, name, fields);
    var final := ApplySource(fields, |pk|, source.d);
    if final.None? { return Failed; }
    return Described(Description(name, final.value, pk, indexes.value, foreignKeys.value, source.d));
  }

  /** The second half of describeCollection, once the columns are read. An error of the
      AUTOINCREMENT probe, when there is one, is ignored. */
  method DescribeTable(pool: Pool, cat: Catalog, name: string, enabled: bool, columns: Columns) returns (r: Outcome)
    requires pool.free > 0 && KeyedByFold(cat) && Exists(cat, name)
             && Gathered(columns, TableInfo(cat, name), MarksOf(cat, name))
    modifies pool, pool.env
    ensures pool.free == old(pool.free) && old(pool.env.asked) <= pool.env.asked
    ensures pool.env.CalmSince(old(pool.env.asked)) ==> r == Answer(cat, name, enabled, SqlShowsAuto(cat, name))
    ensures r.Failed? || r == Answer(cat, name, enabled, SqlShowsAuto(cat, name))
            || r == Answer(cat, name, enabled, false)
  {
    ghost var from := pool.env.asked;
    ghost var shown := SqlShowsAuto(cat, name);
    var fields := columns.fields;
    if columns.auto.Some? {
      var auto, ok := TableHasAutoIncrement(pool, cat, name);
      shown := auto;
      fields := fields[columns.auto.value := fields[columns.auto.value].(autoIncrement := auto)];
    }
    var pk := SortedKey(columns.pkEntries);
    ghost var mid := pool.env.asked;
    r := FinishDescription(pool, cat, name, enabled, fields, pk, shown);
  }

  /** The catalog columns read last are the ones described first. */
  lemma SameNames(cat: Catalog, name: string, fields: seq<FieldDef>)
    requires Exists(cat, name)
    requires var cols := TableInfo(cat, name);
             var read := FieldsOf(cols, MarksOf(cat, name));
             exists auto: bool :: fields == WithAuto(read, AutoField(read, cols), auto)
    ensures |SourceOf(cat, name).columns| == |fields|
    ensures forall i | 0 <= i < |fields| :: SourceOf(cat, name).columns[i].name == fields[i].name
  {
  }

  /** describeCollection: when every call goes well, exactly the answer for the catalog. A failing
      AUTOINCREMENT probe is ignored, and the field then described without it; any other failing
      call makes the description fail. */
  method DescribeCollection(pool: Pool, cat: Catalog, name: string, enabled: bool) returns (r: Outcome)
    requires pool.free > 0 && KeyedByFold(cat)
    modifies pool, pool.env
    ensures pool.free == old(pool.free) && old(pool.env.asked) <= pool.env.asked
    ensures pool.env.CalmSince(old(pool.env.asked)) ==> r == Answer(cat, name, enabled, SqlShowsAuto(cat, name))
    ensures r.Failed? || r == Answer(cat, name, enabled, SqlShowsAuto(cat, name))
            || r == Answer(cat, name, enabled, false)
  {
    ghost var from := pool.env.asked;
    var found := pool.QueryRow(if Exists(cat, name) then Some(name) else None);
    if found.None? { return Failed; }
    if found.value.None? { return NotFound; }
    ghost var m1 := pool.env.asked;
    var timeMarkers := ReadTimeMarkers(pool, cat, name);
    if timeMarkers.None? { return Failed; }
    ghost var m2 := pool.env.asked;
    var columns := DescribeColumns(pool, TableInfo(cat, name), timeMarkers.value);
    if columns.BrokenRead? { return Failed; }
    if columns.BadColumn? { return Unsupported(columns.column); }
    ghost var m3 := pool.env.asked;
    r := DescribeTable(pool, cat, name, enabled, columns);
  }
}
