/** Create, then describe: what a definition reads back as. */
module CreateDescribe {
  import opened Text
  import opened DbSchema
  import opened SqlText
  import opened SqlGen
  import opened Catalog
  import opened SchemaModifier
  import opened LogicalSchema
  import opened TableTexts
  import opened TablesKept
  import opened SchemaReader
  import opened NormalForm

  // ---- Fields and key ----

  /** A field of a definition as it reads back: Bool as Int, no precision; nullable when the
      definition says so or when a key of several columns does not name it as it is spelled, but
      never as a sole integral key; auto-incremented exactly as the inline key. */
  function NormalisedField(c: CollectionDef, f: FieldDef): FieldDef {
    var soleKey := |c.primaryKey| == 1 && Fold(f.name) == Fold(c.primaryKey[0]);
    FieldDef(f.name, NormalType(f.typ), None,
             !(soleKey && IsIntegral(f.typ)) && (f.nullable || (|c.primaryKey| > 1 && f.name !in c.primaryKey)),
             InlineKey(c) && soleKey)
  }

  predicate CleanDefinition(c: CollectionDef) {
    && !Shows(c.name, "AUTOINCREMENT") && !Shows(c.name, "WITHOUT ROWID")
    && forall j | 0 <= j < |c.fields| ::
       !Shows(c.fields[j].name, "AUTOINCREMENT") && !Shows(c.fields[j].name, "WITHOUT ROWID")
  }

  lemma FirstPosition(c: CollectionDef, j: nat)
    requires WellKeyed(c) && j < |c.fields|
    ensures KeyPosition(c.primaryKey, c.fields[j].name) == 1
            <==> |c.primaryKey| >= 1 && Fold(c.fields[j].name) == Fold(c.primaryKey[0])
  {
    CreatedPosition(c, j);
  }

  lemma InlineFieldIsInt(c: CollectionDef, j: nat)
    requires WellKeyed(c) && j < |c.fields| && InlineKey(c) && Fold(c.fields[j].name) == Fold(c.primaryKey[0])
    ensures c.fields[j].typ == Int && c.fields[j].autoIncrement && c.fields[j].name == c.primaryKey[0]
  {
    var i := FirstAuto(c.fields, c.primaryKey[0]);
    assert TableColumns(c)[i].name == c.fields[i].name && TableColumns(c)[j].name == c.fields[j].name;
    assert i == j;
  }

  lemma CreatedWidth(c: CollectionDef)
    requires WellKeyed(c)
    ensures KeyWidth(CreatedCollection(c).cols) == |c.primaryKey|
  {
    CreatedColumns(c);
    CreatedKey(c);
    KeyWidthIs(CreatedCollection(c).cols, TableColumns(c));
  }

  lemma CreatedNormal(c: CollectionDef, j: nat)
    requires WellKeyed(c) && j < |c.fields|
    ensures NormalField(CreatedCollection(c), CreatedCollection(c).cols[j]) == NormalisedField(c, c.fields[j])
  {
    FirstPosition(c, j);
    CreatedWidth(c);
    if InlineKey(c) && Fold(c.fields[j].name) == Fold(c.primaryKey[0]) { InlineFieldIsInt(c, j); }
    if |c.primaryKey| == 1 { assert c.fields[j].name in c.primaryKey <==> c.fields[j].name == c.primaryKey[0]; }
  }

  // ---- Indexes ----

  /** The definitions the reader gives for the indexes of a table, newest first. */
  function OwnDefs(indexes: seq<Index>, f: string, name: string): seq<IndexDef> {
    if indexes == [] then []
    else
      var x := indexes[|indexes| - 1];
      (if x.table == f then OneDef(x, name) else []) + OwnDefs(indexes[..|indexes| - 1], f, name)
  }

  lemma {:induction false} DefsConcat(a: seq<ListedIndex>, b: seq<ListedIndex>, name: string)
    ensures IndexDefs(a + b, name) == IndexDefs(a, name) + IndexDefs(b, name)
    decreases |b|
  {
    if b == [] {
      assert a + b == a;
    } else {
      DefsConcat(a, b[..|b| - 1], name);
      assert (a + b)[..|a + b| - 1] == a + b[..|b| - 1];
    }
  }

  function ListedAll(own: seq<Index>): (r: seq<ListedIndex>)
    ensures |r| == |own|
  {
    seq(|own|, i requires 0 <= i < |own| => ListedOf(own[i]))
  }

  function OneDef(x: Index, name: string): seq<IndexDef> {
    if IndexFields(x.cols) == [] then [] else [IndexDef(x.name, name, IndexFields(x.cols), x.unique)]
  }

  lemma DefsHead(x: Index, rest: seq<Index>, name: string)
    ensures IndexDefs(ListedAll([x] + rest), name) == OneDef(x, name) + IndexDefs(ListedAll(rest), name)
  {
    assert ListedAll([x] + rest) == [ListedOf(x)] + ListedAll(rest);
    DefsConcat([ListedOf(x)], ListedAll(rest), name);
    assert [ListedOf(x)][..0] == [];
    assert IndexDefs([ListedOf(x)][..0], name) == [];
  }

  lemma {:induction false} DefsOfOwn(indexes: seq<Index>, f: string, name: string)
    ensures IndexDefs(ListedAll(TableIndexes(indexes, f)), name) == OwnDefs(indexes, f, name)
    decreases |indexes|
  {
    if indexes != [] {
      var n := |indexes| - 1;
      DefsOfOwn(indexes[..n], f, name);
      if indexes[n].table == f { DefsHead(indexes[n], TableIndexes(indexes[..n], f), name); }
      else { assert [] + TableIndexes(indexes[..n], f) == TableIndexes(indexes[..n], f); }
    }
  }

  lemma DefsListed(cat: Catalog, name: string)
    ensures IndexDefs(ListedIndexes(cat, name), name) == OwnDefs(cat.indexes, Fold(name), name)
  {
    var all := ListedAll(TableIndexes(cat.indexes, Fold(name)));
    DefsOfOwn(cat.indexes, Fold(name), name);
    if |ListedIndexes(cat, name)| > |all| {
      assert ListedIndexes(cat, name)[..|all|] == all;
    } else {
      assert ListedIndexes(cat, name) == all;
    }
  }

  predicate Mine(c: CollectionDef, idx: IndexDef) { Fold(Defaulted(idx, c.name).collection) == Fold(c.name) }

  function SpelledFields(c: CollectionDef, names: seq<string>): (r: seq<string>)
    ensures |r| == |names|
  {
    seq(|names|, k requires 0 <= k < |names| => FieldSpelling(c.fields, names[k]))
  }

  /** With IfNotExists, an index is passed over when the database or an earlier index of the
      definition has its name. */
  predicate PassedOver(cat: Catalog, c: CollectionDef, o: Options, k: nat)
    requires k < |c.indexes|
  {
    o.ifNotExists && NameTaken(cat, c, k, Fold(c.indexes[k].name))
  }

  predicate NameTaken(cat: Catalog, c: CollectionDef, k: nat, folded: string)
    requires k <= |c.indexes|
  {
    IndexNamed(cat.indexes, folded) || exists j | 0 <= j < k :: Fold(c.indexes[j].name) == folded
  }

  /** Index k of the definition under the table's name and with the fields as they are spelled, if
      it is on the table and not passed over. */
  function OwnDef(cat: Catalog, c: CollectionDef, o: Options, k: nat): seq<IndexDef>
    requires k < |c.indexes|
  {
    var x := c.indexes[k];
    if Mine(c, x) && !PassedOver(cat, c, o, k) then [IndexDef(x.name, c.name, SpelledFields(c, x.fields), x.unique)]
    else []
  }

  /** The definition's first k indexes on its own table, newest first, created in that catalog. */
  function NormalIndexes(cat: Catalog, c: CollectionDef, o: Options, k: nat): seq<IndexDef>
    requires k <= |c.indexes|
  {
    if k == 0 then [] else OwnDef(cat, c, o, k - 1) + NormalIndexes(cat, c, o, k - 1)
  }

  lemma {:induction false} TermsBack(names: seq<string>)
    ensures IndexFields(Terms(names)) == names
    decreases |names|
  {
    if names != [] {
      TermsBack(names[..|names| - 1]);
      assert Terms(names)[..|names| - 1] == Terms(names[..|names| - 1]);
    }
  }

  /** Index columns are kept as the fields are spelled. */
  lemma SpelledTerms(c: CollectionDef, cols: seq<Column>, names: seq<string>, places: seq<nat>)
    requires DistinctColumns(cols) && |cols| == |c.fields| && forall j | 0 <= j < |cols| ::
               cols[j].name == c.fields[j].name
    requires Resolve(cols, names) == Some(places)
    ensures Spelled(cols, places) == Terms(SpelledFields(c, names))
  {
    forall k | 0 <= k < |names| ensures cols[places[k]].name == FieldSpelling(c.fields, names[k]) {
      var i := places[k];
      assert FindColumn(cols, names[k]) == Some(i);
      forall j | 0 <= j < |c.fields| ensures Fold(c.fields[j].name) == Fold(names[k]) <==> j == i {
        if Fold(c.fields[j].name) == Fold(names[k]) { FindDistinct(cols, names[k], j); }
      }
      SpellingIs(c.fields, names[k], i);
    }
  }

  /** An index statement that went through added its index, or passed it over. */
  lemma IndexCreated(e: Storage, cat: Catalog, st: Statement, c': Catalog)
    requires st.CreateIndex? && Emitted(e, cat, st) == Some(c')
    ensures IndexNamed(cat.indexes, Fold(st.name)) ==> st.ifNotExists && c' == cat
    ensures !IndexNamed(cat.indexes, Fold(st.name)) ==>
              && Fold(st.table) in cat.tables && Resolve(cat.tables[Fold(st.table)].cols, st.cols).Some?
              && var cols := cat.tables[Fold(st.table)].cols;
                 c' == cat.(indexes := cat.indexes
                            + [Index(st.name, Fold(st.table), Spelled(cols, Resolve(cols, st.cols).value), st.unique,
                                     Created)])
  {
  }

  lemma OneMore(indexes: seq<Index>, x: Index, f: string, name: string)
    ensures OwnDefs(indexes + [x], f, name)
            == (if x.table == f then OneDef(x, name) else []) + OwnDefs(indexes, f, name)
  {
    assert (indexes + [x])[..|indexes|] == indexes;
  }

  ghost predicate TableOfFields(cat: Catalog, c: CollectionDef) {
    Fold(c.name) in cat.tables
    && var cols := cat.tables[Fold(c.name)].cols;
       DistinctColumns(cols) && |cols| == |c.fields| && forall j | 0 <= j < |cols| :: cols[j].name == c.fields[j].name
  }

  /** The names taken once the definition's first k indexes have been through. */
  ghost predicate Taken(cat0: Catalog, cat: Catalog, c: CollectionDef, k: nat)
    requires k <= |c.indexes|
  {
    forall f :: IndexNamed(cat.indexes, f) <==> NameTaken(cat0, c, k, f)
  }

  lemma NamedMore(indexes: seq<Index>, x: Index, f: string)
    ensures IndexNamed(indexes + [x], f) <==> IndexNamed(indexes, f) || Fold(x.name) == f
  {
    if IndexNamed(indexes, f) {
      var i :| 0 <= i < |indexes| && Fold(indexes[i].name) == f;
      assert (indexes + [x])[i] == indexes[i];
    }
    assert (indexes + [x])[|indexes|] == x;
  }

  lemma TakenMore(cat0: Catalog, c: CollectionDef, k: nat, f: string)
    requires k < |c.indexes|
    ensures NameTaken(cat0, c, k + 1, f) <==> NameTaken(cat0, c, k, f) || Fold(c.indexes[k].name) == f
  {
  }

  lemma TakenStep(e: Storage, cat0: Catalog, cat: Catalog, c: CollectionDef, o: Options, k: nat, cat': Catalog)
    requires IndexesBuild(c, o) && k < |c.indexes| && Taken(cat0, cat, c, k)
    requires Emitted(e, cat, IndexStatements(c, o)[k]) == Some(cat')
    ensures Taken(cat0, cat', c, k + 1)
  {
    var st := IndexStatements(c, o)[k];
    IndexCreated(e, cat, st, cat');
    forall f ensures IndexNamed(cat'.indexes, f) <==> NameTaken(cat0, c, k + 1, f) {
      TakenMore(cat0, c, k, f);
      assert IndexNamed(cat.indexes, f) <==> NameTaken(cat0, c, k, f);
      if !IndexNamed(cat.indexes, Fold(st.name)) { NamedMore(cat.indexes, cat'.indexes[|cat.indexes|], f); }
    }
  }

  /** What the description makes of an index just created. */
  lemma MadeIndex(cat0: Catalog, cat: Catalog, c: CollectionDef, o: Options, k: nat, added: Index)
    requires TableOfFields(cat, c) && IndexesBuild(c, o) && k < |c.indexes| && !PassedOver(cat0, c, o, k)
    requires var st := IndexStatements(c, o)[k];
             && Fold(st.table) in cat.tables && Resolve(cat.tables[Fold(st.table)].cols, st.cols).Some?
             && var cols := cat.tables[Fold(st.table)].cols;
                added == Index(st.name, Fold(st.table), Spelled(cols, Resolve(cols, st.cols).value), st.unique, Created)
    ensures OwnDefs(cat.indexes + [added], Fold(c.name), c.name)
            == OwnDef(cat0, c, o, k) + OwnDefs(cat.indexes, Fold(c.name), c.name)
  {
    var st, x, f := IndexStatements(c, o)[k], c.indexes[k], Fold(c.name);
    OneMore(cat.indexes, added, f, c.name);
    if Mine(c, x) {
      var cols := cat.tables[f].cols;
      SpelledTerms(c, cols, st.cols, Resolve(cols, st.cols).value);
      TermsBack(SpelledFields(c, x.fields));
    }
  }

  lemma IndexStep(e: Storage, cat0: Catalog, cat: Catalog, c: CollectionDef, o: Options, k: nat, cat': Catalog)
    requires TableOfFields(cat, c) && IndexesBuild(c, o) && k < |c.indexes| && Taken(cat0, cat, c, k)
    requires Emitted(e, cat, IndexStatements(c, o)[k]) == Some(cat')
    ensures cat'.tables == cat.tables
    ensures OwnDefs(cat'.indexes, Fold(c.name), c.name)
            == OwnDef(cat0, c, o, k) + OwnDefs(cat.indexes, Fold(c.name), c.name)
  {
    var st, x, f := IndexStatements(c, o)[k], c.indexes[k], Fold(c.name);
    IndexCreated(e, cat, st, cat');
    assert IndexNamed(cat.indexes, Fold(x.name)) <==> NameTaken(cat0, c, k, Fold(x.name));
    if !IndexNamed(cat.indexes, Fold(x.name)) {
      MadeIndex(cat0, cat, c, o, k, cat'.indexes[|cat.indexes|]);
    }
  }

  /** Where the definition's first k index statements lead. */
  ghost predicate Reached(cat: Catalog, c: CollectionDef, o: Options, k: nat, ck: Catalog)
    requires k <= |c.indexes|
  {
    && ck.tables == cat.tables && Taken(cat, ck, c, k)
    && OwnDefs(ck.indexes, Fold(c.name), c.name) == NormalIndexes(cat, c, o, k)
  }

  lemma IndexAdded(e: Storage, cat: Catalog, c0: Catalog, c: CollectionDef, o: Options, k: nat, ck: Catalog)
    requires TableOfFields(c0, c) && IndexesBuild(c, o) && k < |c.indexes|
    requires Emitted(e, c0, IndexStatements(c, o)[k]) == Some(ck) && Reached(cat, c, o, k, c0)
    ensures Reached(cat, c, o, k + 1, ck)
  {
    IndexStep(e, cat, c0, c, o, k, ck);
    TakenStep(e, cat, c0, c, o, k, ck);
  }

  lemma SameTables(cat: Catalog, ck: Catalog, c: CollectionDef)
    requires TableOfFields(cat, c) && ck.tables == cat.tables
    ensures TableOfFields(ck, c)
  {
  }

  lemma {:induction false} IndexesCreated(e: Storage, cat: Catalog, c: CollectionDef, o: Options, k: nat)
    requires TableOfFields(cat, c) && IndexesBuild(c, o) && k <= |c.indexes|
    requires Statements(e, cat, IndexStatements(c, o)[..k]).Some? && OwnDefs(cat.indexes, Fold(c.name), c.name) == []
    ensures Reached(cat, c, o, k, Statements(e, cat, IndexStatements(c, o)[..k]).value)
    decreases k
  {
    if k > 0 {
      var sts := IndexStatements(c, o);
      StatementsStep(e, cat, sts, k - 1);
      IndexesCreated(e, cat, c, o, k - 1);
      var c0 := Statements(e, cat, sts[..k - 1]).value;
      SameTables(cat, c0, c);
      IndexAdded(e, cat, c0, c, o, k - 1, Statements(e, cat, sts[..k]).value);
    }
  }

  lemma {:induction false} NoneOwn(indexes: seq<Index>, f: string, name: string)
    requires forall i | 0 <= i < |indexes| :: indexes[i].table != f
    ensures OwnDefs(indexes, f, name) == []
    decreases |indexes|
  {
    if indexes != [] { NoneOwn(indexes[..|indexes| - 1], f, name); }
  }

  lemma CreatedTable(e: Storage, cat: Catalog, c: CollectionDef, o: Options) returns (c1: Catalog)
    requires Fold(c.name) !in cat.tables && CreateMeaning(e, cat, c, o).Some? && IndexesFollow(cat.indexes, cat.tables)
    ensures CreateTableStatement(c, o).Some? && IndexesBuild(c, o)
    ensures TableOfFields(c1, c) && c1.indexes == cat.indexes
    ensures Statements(e, c1, IndexStatements(c, o)).Some?
    ensures CreateMeaning(e, cat, c, o).value.indexes == Statements(e, c1, IndexStatements(c, o)).value.indexes
  {
    var st := CreateTableStatement(c, o).value;
    StatementsFrom(e, cat, st, IndexStatements(c, o));
    c1 := Emitted(e, cat, st).value;
    CreateOne(e, cat, st, c1);
    var cols := c1.tables[Fold(c.name)].cols;
    forall j | 0 <= j < |cols| ensures cols[j].name == c.fields[j].name {
      assert st.decls[j] == FieldDecl(c, c.fields[j]);
    }
  }

  lemma {:induction false} SameNormal(a: Catalog, b: Catalog, c: CollectionDef, o: Options, k: nat)
    requires k <= |c.indexes| && a.indexes == b.indexes
    ensures NormalIndexes(a, c, o, k) == NormalIndexes(b, c, o, k)
    decreases k
  {
    if k > 0 { SameNormal(a, b, c, o, k - 1); }
  }

  /** The indexes of a created collection read back as defined, newest first, each with its fields
      as they are spelled; only those passed over are missing. */
  lemma CreatedIndexes(e: Storage, cat: Catalog, c: CollectionDef, o: Options)
    requires Fold(c.name) !in cat.tables && CreateMeaning(e, cat, c, o).Some? && IndexesFollow(cat.indexes, cat.tables)
    ensures IndexDefs(ListedIndexes(CreateMeaning(e, cat, c, o).value, c.name), c.name)
            == NormalIndexes(cat, c, o, |c.indexes|)
  {
    var c1 := CreatedTable(e, cat, c, o);
    NoneOwn(c1.indexes, Fold(c.name), c.name);
    assert IndexStatements(c, o)[..|c.indexes|] == IndexStatements(c, o);
    IndexesCreated(e, c1, c, o, |c.indexes|);
    SameNormal(cat, c1, c, o, |c.indexes|);
    DefsListed(CreateMeaning(e, cat, c, o).value, c.name);
  }

  // ---- The whole description ----

  lemma SoundCreation(e: Storage, s: Schema, cat: Catalog, c: CollectionDef, o: Options)
    requires Follows(s, cat) && Kept(e, cat) && Fold(c.name) !in s && CreateMeaning(e, cat, c, o).Some?
    ensures WellKeyed(c)
    ensures Follows(s[Fold(c.name) := CreatedCollection(c)], CreateMeaning(e, cat, c, o).value)
    ensures TextsOwn(CreateMeaning(e, cat, c, o).value)
  {
    CreateFollows(e, s, cat, c, o);
    CreateCallKeeps(e, cat, c, o);
    var c2 := CreateSplit(e, cat, c, o);
    ValidIsWellKeyed(c);
  }

  lemma CleanCreated(c: CollectionDef)
    requires CleanDefinition(c)
    ensures CleanNames(CreatedCollection(c))
  {
    var l := CreatedCollection(c);
    forall j | 0 <= j < |l.cols|
      ensures !Shows(l.cols[j].name, "AUTOINCREMENT") && !Shows(l.cols[j].name, "WITHOUT ROWID") {
      assert l.cols[j].name == c.fields[j].name;
    }
  }

  lemma NormalCreation(c: CollectionDef)
    requires WellKeyed(c)
    ensures |CreatedCollection(c).cols| == |c.fields|
    ensures forall j | 0 <= j < |c.fields| ::
              NormalField(CreatedCollection(c), CreatedCollection(c).cols[j]) == NormalisedField(c, c.fields[j])
  {
    forall j | 0 <= j < |c.fields|
      ensures NormalField(CreatedCollection(c), CreatedCollection(c).cols[j]) == NormalisedField(c, c.fields[j])
    {
      CreatedNormal(c, j);
    }
  }

  predicate FieldsDescribe(c: CollectionDef, d: Description) {
    |d.fields| == |c.fields| && forall j | 0 <= j < |c.fields| :: d.fields[j] == NormalisedField(c, c.fields[j])
  }

  lemma DescribedCreation(s: Schema, cat: Catalog, c: CollectionDef, enforced: bool)
    requires Follows(s, cat) && TextsOwn(cat) && WellKeyed(c) && CleanDefinition(c)
    requires Fold(c.name) in s && s[Fold(c.name)] == CreatedCollection(c)
    ensures Exists(cat, c.name)
    ensures var d := DescriptionOf(cat, c.name, enforced, SqlShowsAuto(cat, c.name));
            Answer(cat, c.name, enforced, SqlShowsAuto(cat, c.name)) == Described(d) && FieldsDescribe(c, d)
  {
    CleanCreated(c);
    DescribedFields(s, cat, c.name, enforced);
    NormalCreation(c);
  }

  lemma DescribedRest(cat: Catalog, name: string, enforced: bool, auto: bool)
    requires Exists(cat, name)
    ensures var d := DescriptionOf(cat, name, enforced, auto);
            d.primaryKey == KeyOf(cat.tables[Fold(name)].cols) && d.indexes == IndexDefs(ListedIndexes(cat, name), name)
  {
  }

  /** What a collection created in that catalog is described as. */
  predicate DescribesDefinition(cat: Catalog, c: CollectionDef, o: Options, d: Description) {
    FieldsDescribe(c, d) && d.primaryKey == SpelledKey(c) && d.indexes == NormalIndexes(cat, c, o, |c.indexes|)
  }

  /** For every definition whose creation succeeds where no collection had its name: describing
      it answers with each field's normal form in order, the same key in the same order, and the
      same indexes, newest first, but for those passed over; key and index fields as the fields
      themselves are spelled. */
  lemma CreateThenDescribe(e: Storage, s: Schema, cat: Catalog, c: CollectionDef, o: Options, enforced: bool,
                           cat': Catalog)
    requires Follows(s, cat) && Kept(e, cat) && CleanDefinition(c) && Fold(c.name) !in s
    requires CreateMeaning(e, cat, c, o) == Some(cat')
    ensures var r := Answer(cat', c.name, enforced, SqlShowsAuto(cat', c.name));
            r.Described? && DescribesDefinition(cat, c, o, r.d)
  {
    SoundCreation(e, s, cat, c, o);
    DescribedCreation(s[Fold(c.name) := CreatedCollection(c)], cat', c, enforced);
    DescribedRest(cat', c.name, enforced, SqlShowsAuto(cat', c.name));
    CreatedKeyBack(e, s, cat, c, o);
    CreatedIndexes(e, cat, c, o);
  }

  lemma CreatedKeyBack(e: Storage, s: Schema, cat: Catalog, c: CollectionDef, o: Options)
    requires Follows(s, cat) && Fold(c.name) !in s && CreateMeaning(e, cat, c, o).Some? && WellKeyed(c)
    ensures Fold(c.name) in CreateMeaning(e, cat, c, o).value.tables
    ensures KeyOf(CreateMeaning(e, cat, c, o).value.tables[Fold(c.name)].cols) == SpelledKey(c)
  {
    var c2 := CreateSplit(e, cat, c, o);
    CreatedKey(c);
    assert c2.tables[Fold(c.name)].cols == TableColumns(c);
  }
}
