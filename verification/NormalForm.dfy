/** Describing what the engine created: the description of a collection after any sound run is
    an explicit normal form of the logical schema. */
module NormalForm {
  import opened Text
  import opened DbSchema
  import opened TypeMapping
  import opened Catalog
  import opened ColumnRewrite
  import opened LogicalSchema
  import opened TableTexts
  import opened SchemaReader
  import opened Listing

  // ---- The normal form ----

  function NormalType(t: Type): Type { if t == Bool then Int else t }

  predicate IsIntegral(t: Type) { t == Int || t == Bool }

  /** Types lose Bool and precision; the sole INTEGER key is never nullable; AUTOINCREMENT shows
      on the first key column of a table that has it. */
  function NormalField(c: Collection, l: LogicalColumn): FieldDef {
    FieldDef(l.name, NormalType(l.typ), None,
             !l.notNull && !(KeyWidth(c.cols) == 1 && l.pk == 1 && IsIntegral(l.typ)),
             c.auto && l.pk == 1)
  }

  /** No name of the collection spells a word the reader looks for in its text. */
  predicate CleanNames(c: Collection) {
    && !Shows(c.name, "AUTOINCREMENT") && !Shows(c.name, "WITHOUT ROWID")
    && forall j | 0 <= j < |c.cols| ::
       !Shows(c.cols[j].name, "AUTOINCREMENT") && !Shows(c.cols[j].name, "WITHOUT ROWID")
  }

  // ---- What the text of a followed table shows ----

  lemma KeywordOf(l: LogicalColumn)
    requires SqliteTypeFor(l.typ).Some?
    ensures IsEmitted(SqliteTypeFor(l.typ).value)
    ensures SqliteTypeFor(l.typ).value == "INTEGER" <==> IsIntegral(l.typ)
    ensures Fold(SqliteTypeFor(l.typ).value) == "integer" <==> IsIntegral(l.typ)
    ensures TrimSpace(SqliteTypeFor(l.typ).value) == SqliteTypeFor(l.typ).value
  {
    var k := SqliteTypeFor(l.typ).value;
    EmittedIsKeyword(l.typ);
    assert TrimLeft(k) == k && TrimRight(k) == k;
    assert Fold("INTEGER") == "integer";
    assert k != "INTEGER" ==> Fold(k)[0] != 'i';
  }

  lemma CleanTable(c: Collection, t: Table, p: string)
    requires TableFollows(c, t) && CleanNames(c) && Searched(p)
    ensures CleanColumns(t.cols, p) && !Shows(t.name, p)
  {
    forall j | 0 <= j < |t.cols| ensures IsEmitted(t.cols[j].decl) && !Shows(t.cols[j].name, p) {
      assert t.cols[j] == PhysicalColumn(c.cols[j]);
      KeywordOf(c.cols[j]);
    }
  }

  /** The sole key column of a rowid table, found at position 1. */
  lemma FirstKeyColumn(c: Collection, t: Table, j: nat)
    requires TableFollows(c, t) && j < |t.cols| && t.cols[j].pk == 1
    ensures FindPosition(t.cols, 1) == Some(j)
    ensures AliasColumn(t) == if |KeyEntries(t.cols)| == 1 && IsIntegral(c.cols[j].typ) then Some(j) else None
    ensures forall i | 0 <= i < |t.cols| :: t.cols[i].pk == 1 ==> i == j
  {
    ColumnsFromNumbered(t.cols);
    assert t.cols[j] == PhysicalColumn(c.cols[j]);
    KeywordOf(c.cols[j]);
  }

  lemma AutoIsFirstKey(c: Collection, t: Table) returns (j: nat)
    requires TableFollows(c, t) && t.auto
    ensures j < |t.cols| && t.cols[j].pk == 1 && IsIntegral(c.cols[j].typ) && t.cols[j].decl == "INTEGER"
            && |KeyEntries(t.cols)| == 1
  {
    j := AliasColumn(t).value;
    FirstKeyColumn(c, t, j);
    assert t.cols[j] == PhysicalColumn(c.cols[j]);
    KeywordOf(c.cols[j]);
  }

  lemma AutoShows(c: Collection, t: Table)
    requires TableFollows(c, t)
    ensures HasInline(t.cols, t.auto) <==> c.auto
    ensures t.auto ==> forall j | 0 <= j < |t.cols| && t.cols[j].pk == 1 :: t.cols[j].decl == "INTEGER"
  {
    if t.auto {
      var j := AutoIsFirstKey(c, t);
      FirstKeyColumn(c, t, j);
    }
  }

  lemma FollowedTextShows(c: Collection, t: Table, p: string)
    requires TableFollows(c, t) && OwnText(t) && CleanNames(c) && Searched(p) && t.cols != []
    ensures Shows(t.sql, p) <==> p == "AUTOINCREMENT" && c.auto
  {
    CleanTable(c, t, p);
    AutoShows(c, t);
    var key :| Alike(key, KeyOf(t.cols)) && t.sql == TextWithKey(t.name, t.cols, t.auto, key);
    TextShows(t.name, t.cols, t.auto, key, p);
  }

  // ---- Fields ----

  lemma MarkedIsTime(s: Schema, cat: Catalog, name: string, j: nat)
    requires Follows(s, cat) && Fold(name) in s && s[Fold(name)].name == name && j < |s[Fold(name)].cols|
    ensures s[Fold(name)].cols[j].name in MarksOf(cat, name) <==> s[Fold(name)].cols[j].typ == Time
  {
    var c, t := s[Fold(name)], cat.tables[Fold(name)];
    assert TableFollows(c, t);
    var x := c.cols[j].name;
    assert (name, x) in cat.markers <==> IsTimeColumn(s, name, x);
    assert x in MarksOf(cat, name) <==> (name, x) in cat.markers by {
      if (name, x) in cat.markers { assert (name, x).1 in MarksOf(cat, name); }
    }
    if HasTime(c.cols, x) {
      var i :| 0 <= i < |c.cols| && c.cols[i].typ == Time && c.cols[i].name == x;
      assert t.cols[i].name == t.cols[j].name;
      assert i == j;
    }
  }

  lemma FieldIsRead(s: Schema, cat: Catalog, name: string, j: nat)
    requires Follows(s, cat) && Fold(name) in s && s[Fold(name)].name == name && j < |s[Fold(name)].cols|
    ensures Fold(name) in cat.tables && j < |cat.tables[Fold(name)].cols|
    ensures var col, l := cat.tables[Fold(name)].cols[j], s[Fold(name)].cols[j];
            && Recognisable(col, MarksOf(cat, name))
            && FieldOf(col, MarksOf(cat, name)) == FieldDef(l.name, NormalType(l.typ), None, !l.notNull, false)
  {
    var l := s[Fold(name)].cols[j];
    assert TableFollows(s[Fold(name)], cat.tables[Fold(name)]);
    assert cat.tables[Fold(name)].cols[j] == PhysicalColumn(l);
    MarkedIsTime(s, cat, name, j);
    EmittedIsKeyword(l.typ);
    TypeReadsBack(l.typ);
  }

  lemma {:induction false} AutoFieldIs(fields: seq<FieldDef>, cols: seq<Column>, j: nat)
    requires |fields| == |cols| && j < |cols| && cols[j].pk == 1
    requires forall i | 0 <= i < |cols| :: cols[i].pk == 1 ==> i == j
    ensures AutoField(fields, cols) == if fields[j].typ == Int then Some(j) else None
    decreases |cols|
  {
    var n := |cols| - 1;
    if j < n { AutoFieldIs(fields[..n], cols[..n], j); }
    else { NoAutoField(fields[..n], cols[..n]); }
  }

  lemma {:induction false} NoAutoField(fields: seq<FieldDef>, cols: seq<Column>)
    requires |fields| == |cols| && forall i | 0 <= i < |cols| :: cols[i].pk != 1
    ensures AutoField(fields, cols) == None
    decreases |cols|
  {
    if cols != [] { NoAutoField(fields[..|cols| - 1], cols[..|cols| - 1]); }
  }

  /** The flag lands on the first key column when it is integral, and is then the table's own. */
  lemma {:induction false} AutoLands(c: Collection, t: Table, fields: seq<FieldDef>, j: nat)
    requires TableFollows(c, t) && |fields| == |t.cols| && j < |t.cols|
    requires forall i | 0 <= i < |fields| :: fields[i].typ == NormalType(c.cols[i].typ) && !fields[i].autoIncrement
    ensures WithAuto(fields, AutoField(fields, t.cols), c.auto)[j]
            == fields[j].(autoIncrement := c.auto && c.cols[j].pk == 1)
  {
    assert t.cols[j] == PhysicalColumn(c.cols[j]);
    if i :| 0 <= i < |t.cols| && t.cols[i].pk == 1 {
      FirstKeyColumn(c, t, i);
      AutoFieldIs(fields, t.cols, i);
      if t.auto { var k := AutoIsFirstKey(c, t); }
    } else {
      NoAutoField(fields, t.cols);
    }
  }

  lemma RowidIs(s: Schema, cat: Catalog, name: string, j: nat)
    requires Follows(s, cat) && TextsOwn(cat) && Fold(name) in s && s[Fold(name)].name == name
             && CleanNames(s[Fold(name)])
    requires j < |s[Fold(name)].cols|
    ensures Exists(cat, name) && j < |cat.tables[Fold(name)].cols|
    ensures var c, l := s[Fold(name)], s[Fold(name)].cols[j];
            IsRowid(cat.tables[Fold(name)].cols[j], |KeyOf(cat.tables[Fold(name)].cols)|, SourceOf(cat, name))
            <==> KeyWidth(c.cols) == 1 && l.pk == 1 && IsIntegral(l.typ)
  {
    var c, t := s[Fold(name)], cat.tables[Fold(name)];
    assert TableFollows(c, t) && OwnText(t);
    assert t.cols[j] == PhysicalColumn(c.cols[j]);
    KeywordOf(c.cols[j]);
    KeyWidthIs(c.cols, t.cols);
    FollowedTextShows(c, t, "WITHOUT ROWID");
    if KeyWidth(c.cols) == 1 && c.cols[j].pk == 1 && IsIntegral(c.cols[j].typ) {
      FirstKeyColumn(c, t, j);
      NoKeyIndex(cat, name);
    }
  }

  lemma NoKeyIndex(cat: Catalog, name: string)
    requires Fold(name) in cat.tables && !HasKeyIndex(cat.tables[Fold(name)])
    ensures forall i | 0 <= i < |ListedIndexes(cat, name)| :: !ListedIndexes(cat, name)[i].fromKey
  {
  }

  lemma ReadFields(s: Schema, cat: Catalog, name: string) returns (fields: seq<FieldDef>)
    requires Follows(s, cat) && Fold(name) in s && s[Fold(name)].name == name
    ensures Exists(cat, name) && fields == FieldsOf(cat.tables[Fold(name)].cols, MarksOf(cat, name))
    ensures |fields| == |s[Fold(name)].cols| && AllRecognisable(cat.tables[Fold(name)].cols, MarksOf(cat, name))
    ensures forall j | 0 <= j < |fields| ::
              var l := s[Fold(name)].cols[j]; fields[j] == FieldDef(l.name, NormalType(l.typ), None, !l.notNull, false)
  {
    var t := cat.tables[Fold(name)];
    assert TableFollows(s[Fold(name)], t);
    fields := FieldsOf(t.cols, MarksOf(cat, name));
    forall j | 0 <= j < |fields|
      ensures Recognisable(t.cols[j], MarksOf(cat, name))
      ensures var l := s[Fold(name)].cols[j]; fields[j] == FieldDef(l.name, NormalType(l.typ), None, !l.notNull, false)
    {
      FieldIsRead(s, cat, name, j);
    }
  }

  lemma ProbeShowsAuto(s: Schema, cat: Catalog, name: string)
    requires Follows(s, cat) && TextsOwn(cat) && Fold(name) in s && s[Fold(name)].name == name
             && CleanNames(s[Fold(name)])
    requires s[Fold(name)].cols != []
    ensures SqlShowsAuto(cat, name) == s[Fold(name)].auto
  {
    assert TableFollows(s[Fold(name)], cat.tables[Fold(name)]) && OwnText(cat.tables[Fold(name)]);
    FollowedTextShows(s[Fold(name)], cat.tables[Fold(name)], "AUTOINCREMENT");
  }

  lemma AnswersDescription(s: Schema, cat: Catalog, name: string, enforced: bool, auto: bool)
    requires Follows(s, cat) && Fold(name) in s && s[Fold(name)].name == name
    ensures Exists(cat, name)
            && Answer(cat, name, enforced, auto) == Described(DescriptionOf(cat, name, enforced, auto))
  {
    assert TableFollows(s[Fold(name)], cat.tables[Fold(name)]);
    var fields := ReadFields(s, cat, name);
  }

  /** Describing a collection after any sound run answers with its normal form: every column with
      its normal type, nullability and AUTOINCREMENT, in order. */
  lemma DescribedFields(s: Schema, cat: Catalog, name: string, enforced: bool)
    requires Follows(s, cat) && TextsOwn(cat) && Fold(name) in s && s[Fold(name)].name == name
             && CleanNames(s[Fold(name)])
    ensures Exists(cat, name)
    ensures var d := DescriptionOf(cat, name, enforced, SqlShowsAuto(cat, name));
            && Answer(cat, name, enforced, SqlShowsAuto(cat, name)) == Described(d)
            && |d.fields| == |s[Fold(name)].cols|
            && forall j | 0 <= j < |d.fields| :: d.fields[j] == NormalField(s[Fold(name)], s[Fold(name)].cols[j])
  {
    var c, t := s[Fold(name)], cat.tables[Fold(name)];
    assert TableFollows(c, t);
    var fields := ReadFields(s, cat, name);
    AnswersDescription(s, cat, name, enforced, SqlShowsAuto(cat, name));
    var d := DescriptionOf(cat, name, enforced, SqlShowsAuto(cat, name));
    forall j | 0 <= j < |d.fields| ensures d.fields[j] == NormalField(c, c.cols[j]) {
      ProbeShowsAuto(s, cat, name);
      AutoLands(c, t, fields, j);
      RowidIs(s, cat, name, j);
    }
  }

  lemma KeyReadAt(c: Collection, t: Table, j: nat)
    requires TableFollows(c, t) && j < |c.cols| && c.cols[j].pk > 0
    ensures c.cols[j].pk <= |KeyOf(t.cols)| && KeyOf(t.cols)[c.cols[j].pk - 1] == c.cols[j].name
  {
    assert t.cols[j] == PhysicalColumn(c.cols[j]);
    KeyOfPlace(t.cols, j);
  }

  ghost predicate KeyIs(lcols: seq<LogicalColumn>, key: seq<string>) {
    |key| == KeyWidth(lcols)
    && forall j | 0 <= j < |lcols| && lcols[j].pk > 0 :: lcols[j].pk <= |key| && key[lcols[j].pk - 1] == lcols[j].name
  }

  lemma KeyRead(c: Collection, t: Table)
    requires TableFollows(c, t)
    ensures KeyIs(c.cols, KeyOf(t.cols))
  {
    KeyWidthIs(c.cols, t.cols);
    var key := KeyOf(t.cols);
    forall j | 0 <= j < |c.cols| && c.cols[j].pk > 0
      ensures c.cols[j].pk <= |key| && key[c.cols[j].pk - 1] == c.cols[j].name {
      KeyReadAt(c, t, j);
    }
  }

  lemma DescribedKeyIs(cat: Catalog, name: string, enforced: bool, auto: bool)
    requires Exists(cat, name)
    ensures DescriptionOf(cat, name, enforced, auto).primaryKey == KeyOf(cat.tables[Fold(name)].cols)
  {
  }

  /** And its key, in key order. */
  lemma DescribedKey(s: Schema, cat: Catalog, name: string, enforced: bool, auto: bool)
    requires Follows(s, cat) && Fold(name) in s && s[Fold(name)].name == name
    ensures Exists(cat, name)
    ensures KeyIs(s[Fold(name)].cols, DescriptionOf(cat, name, enforced, auto).primaryKey)
  {
    assert TableFollows(s[Fold(name)], cat.tables[Fold(name)]);
    KeyRead(s[Fold(name)], cat.tables[Fold(name)]);
    DescribedKeyIs(cat, name, enforced, auto);
  }

  /** The collections listed are those of the schema, as they are spelled, but for SQLite's own and
      the one that holds the markers. */
  lemma ListedCollections(s: Schema, cat: Catalog, n: string)
    requires Follows(s, cat)
    ensures Listed(cat, n) <==> Fold(n) in s && s[Fold(n)].name == n && !("sqlite_" <= Fold(n))
                                && n != "_dalgo_time_columns"
  {
    if Fold(n) in s { assert TableFollows(s[Fold(n)], cat.tables[Fold(n)]); }
  }
}
