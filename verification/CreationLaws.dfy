/** When a creation goes through and what it leaves, said of the definition and the catalog alone;
    and how one that meets an existing collection comes to adding its indexes. */
module CreationLaws {
  import opened Text
  import opened DbSchema
  import opened SqlText
  import opened TypeMapping
  import opened SqlGen
  import opened Catalog
  import opened SchemaModifier
  import opened LogicalSchema
  import opened RewriteSucceeds
  import opened SqlParser

  // ---- Definitions SQLite accepts ----

  /** The key is the table's rowid: of one name, and the first field so spelled is an auto-incremented
      Int. */
  predicate RowidKeyed(c: CollectionDef) {
    |c.primaryKey| == 1
    && exists i | 0 <= i < |c.fields| ::
       c.fields[i].name == c.primaryKey[0] && c.fields[i].typ == Int && c.fields[i].autoIncrement
       && forall j | 0 <= j < i :: c.fields[j].name != c.primaryKey[0]
  }

  lemma {:induction false} FirstDecides(fields: seq<FieldDef>, name: string)
    ensures HasAutoIncIntPK(fields, name)
            <==> exists i | 0 <= i < |fields| ::
                   fields[i].name == name && fields[i].typ == Int && fields[i].autoIncrement
                   && forall j | 0 <= j < i :: fields[j].name != name
    decreases |fields|
  {
    if fields != [] && fields[0].name != name {
      FirstDecides(fields[1..], name);
      assert fields == [fields[0]] + fields[1..];
    }
  }

  predicate KeyNamesField(c: CollectionDef, k: nat)
    requires k < |c.primaryKey|
  {
    exists j | 0 <= j < |c.fields| :: Fold(c.fields[j].name) == Fold(c.primaryKey[k])
  }

  /** What SQLite accepts of a definition: typed fields, no two of one name in any letter case; a key
      of fields, each at most once. */
  predicate WellDefined(c: CollectionDef) {
    && c.fields != [] && (forall j | 0 <= j < |c.fields| :: Typed(c.fields[j]))
    && (forall i, j | 0 <= i < j < |c.fields| :: Fold(c.fields[i].name) != Fold(c.fields[j].name))
    && (forall k: nat | k < |c.primaryKey| :: KeyNamesField(c, k))
    && (forall i, k | 0 <= i < k < |c.primaryKey| :: Fold(c.primaryKey[i]) != Fold(c.primaryKey[k]))
  }

  lemma InlineIsRowid(c: CollectionDef)
    ensures InlineKey(c) <==> RowidKeyed(c)
  {
    if |c.primaryKey| == 1 { FirstDecides(c.fields, c.primaryKey[0]); }
  }

  lemma DeclaredInline(c: CollectionDef, i: nat)
    requires AllTyped(c.fields) && i < |c.fields|
    ensures InlineDecl(FieldDecls(c)[i]) <==> InlineKey(c) && c.fields[i].name == c.primaryKey[0]
  {
  }

  lemma InlinesCounted(c: CollectionDef)
    requires WellDefined(c)
    ensures CountInline(FieldDecls(c)) <= if InlineKey(c) then 1 else 0
  {
    var decls := FieldDecls(c);
    forall i | 0 <= i < |decls|
      ensures InlineDecl(decls[i]) <==> InlineKey(c) && c.fields[i].name == c.primaryKey[0] { DeclaredInline(c, i); }
    if InlineKey(c) {
      InlineIsRowid(c);
      var k :| 0 <= k < |c.fields| && c.fields[k].name == c.primaryKey[0];
      OneInline(decls, k);
    } else {
      NoInline(decls);
    }
  }

  lemma InlineIsInteger(c: CollectionDef, i: nat)
    requires WellDefined(c) && i < |c.fields| && FieldDecls(c)[i].suffix == AutoRowidKey
    ensures Fold(FieldDecls(c)[i].decl) == "integer"
  {
    DeclaredInline(c, i);
    InlineIsRowid(c);
    var k :| 0 <= k < |c.fields| && c.fields[k].name == c.primaryKey[0] && c.fields[k].typ == Int;
    assert Fold(c.fields[i].name) == Fold(c.fields[k].name) && i == k;
    assert Fold("INTEGER") == "integer";
  }

  lemma KeyResolves(c: CollectionDef)
    requires WellDefined(c)
    ensures DistinctColumns(TableColumns(c)) && Resolve(TableColumns(c), c.primaryKey).Some?
  {
    var cols := TableColumns(c);
    forall j | 0 <= j < |c.fields| ensures cols[j].name == c.fields[j].name {}
    forall k: nat | k < |c.primaryKey| ensures FindColumn(cols, c.primaryKey[k]).Some? {
      assert KeyNamesField(c, k);
      var j :| 0 <= j < |c.fields| && Fold(c.fields[j].name) == Fold(c.primaryKey[k]);
      assert Fold(cols[j].name) == Fold(c.primaryKey[k]);
    }
  }

  lemma WellKeyedNames(c: CollectionDef)
    requires WellKeyed(c) && c.fields != []
    ensures WellDefined(c)
  {
    var cols := TableColumns(c);
    forall i, j | 0 <= i < j < |c.fields| ensures Fold(c.fields[i].name) != Fold(c.fields[j].name) {
      assert cols[i].name == c.fields[i].name && cols[j].name == c.fields[j].name;
    }
    forall k: nat | k < |c.primaryKey| ensures KeyNamesField(c, k) { var i := KeyField(c, k); }
  }

  /** A body is accepted exactly for such a definition. */
  lemma ValidIsWellDefined(c: CollectionDef)
    requires AllTyped(c.fields)
    ensures ValidBody(FieldDecls(c), if InlineKey(c) then [] else c.primaryKey) <==> WellDefined(c)
  {
    if WellDefined(c) {
      InlinesCounted(c);
      KeyResolves(c);
      forall i | 0 <= i < |c.fields| && FieldDecls(c)[i].suffix == AutoRowidKey
        ensures Fold(FieldDecls(c)[i].decl) == "integer" { InlineIsInteger(c, i); }
    }
    if ValidBody(FieldDecls(c), if InlineKey(c) then [] else c.primaryKey) {
      ValidIsWellKeyed(c);
      WellKeyedNames(c);
    }
  }

  // ---- The table, and its markers ----

  predicate IsTime(c: CollectionDef, x: string) {
    exists i | 0 <= i < |c.fields| :: c.fields[i].typ == Time && c.fields[i].name == x
  }

  /** The collection can be created, indexes apart. */
  predicate CreationGoes(cat: Catalog, c: CollectionDef, o: Options) {
    && c.fields != [] && (forall j | 0 <= j < |c.fields| :: Typed(c.fields[j]) && NulFree(c.fields[j].name))
    && NulFree(c.name) && NulFreeAll(c.primaryKey) && !Reserved(c.name)
    && if Fold(c.name) in cat.tables then o.ifNotExists else !IndexNamed(cat.indexes, Fold(c.name)) && WellDefined(c)
  }

  /** Column j is field j: its keyword, its place in the key, and NOT NULL unless it may be NULL, is
      the rowid, or is outside a key of several columns. */
  predicate IsColumnOf(x: Column, c: CollectionDef, j: nat)
    requires j < |c.fields| && Typed(c.fields[j])
  {
    var f := c.fields[j];
    && x.name == f.name && x.decl == SqliteTypeFor(f.typ).value
    && (x.pk == 0 <==> forall k | 0 <= k < |c.primaryKey| :: Fold(c.primaryKey[k]) != Fold(f.name))
    && (x.pk > 0 ==> x.pk <= |c.primaryKey| && Fold(c.primaryKey[x.pk - 1]) == Fold(f.name))
    && (x.notNull <==> !f.nullable && !(RowidKeyed(c) && f.name == c.primaryKey[0])
                       && (|c.primaryKey| <= 1 || f.name in c.primaryKey))
  }

  predicate IsTableOf(t: TableData, c: CollectionDef)
    requires AllTyped(c.fields)
  {
    && t.name == c.name && t.rows == [] && Ordinary(t) && (t.auto <==> RowidKeyed(c))
    && |t.cols| == |c.fields| && forall j | 0 <= j < |c.fields| :: IsColumnOf(t.cols[j], c, j)
  }

  lemma AutoIsRowid(c: CollectionDef)
    requires WellDefined(c)
    ensures HasAuto(FieldDecls(c)) <==> RowidKeyed(c)
  {
    InlineIsRowid(c);
    var decls := FieldDecls(c);
    if RowidKeyed(c) {
      var k :| 0 <= k < |c.fields| && c.fields[k].name == c.primaryKey[0] && c.fields[k].autoIncrement;
      assert decls[k].suffix == AutoRowidKey;
    }
  }

  lemma {:induction false} PositionFound(key: seq<string>, name: string)
    ensures KeyPosition(key, name) == 0 <==> forall k | 0 <= k < |key| :: Fold(key[k]) != Fold(name)
    decreases |key|
  {
    if key != [] {
      PositionFound(key[1..], name);
      assert key == [key[0]] + key[1..];
    }
  }

  lemma ColumnIs(c: CollectionDef, j: nat)
    requires WellDefined(c) && j < |c.fields|
    ensures IsColumnOf(TableColumns(c)[j], c, j)
  {
    InlineIsRowid(c);
    KeyResolves(c);
    CreatedPosition(c, j);
    var x, f := TableColumns(c)[j], c.fields[j];
    assert FieldDecls(c)[j] == FieldDecl(c, f);
    PositionFound(c.primaryKey, f.name);
  }

  lemma TableIs(c: CollectionDef)
    requires WellDefined(c)
    ensures IsTableOf(NewTable(c.name, FieldDecls(c), if InlineKey(c) then [] else c.primaryKey), c)
  {
    AutoIsRowid(c);
    var t := NewTable(c.name, FieldDecls(c), if InlineKey(c) then [] else c.primaryKey);
    assert t.cols == TableColumns(c);
    forall j | 0 <= j < |c.fields| ensures IsColumnOf(t.cols[j], c, j) { ColumnIs(c, j); }
  }

  /** What a creation without indexes leaves: the table as defined, or the one there was; nothing
      else but the markers of the Time fields. */
  predicate TableCreated(cat: Catalog, cat': Catalog, c: CollectionDef)
    requires AllTyped(c.fields)
  {
    && cat'.indexes == cat.indexes
    && (Fold(c.name) in cat.tables ==> cat'.tables == cat.tables)
    && (Fold(c.name) !in cat.tables ==>
          Fold(c.name) in cat'.tables && IsTableOf(cat'.tables[Fold(c.name)], c)
          && cat'.tables == cat.tables[Fold(c.name) := cat'.tables[Fold(c.name)]])
  }

  ghost predicate TimesMarked(cat: Catalog, cat': Catalog, c: CollectionDef) {
    && (forall t, x :: (t, x) in cat'.markers <==> (t, x) in cat.markers || (t == c.name && IsTime(c, x)))
    && (cat'.sidecar <==> cat.sidecar || exists x :: IsTime(c, x))
  }

  lemma MarkersAre(c1: Catalog, c: CollectionDef)
    ensures TimesMarked(c1, WithMarkers(c1, c.name, TimeColumns(c.fields)), c)
  {
    var cols := TimeColumns(c.fields);
    forall x ensures x in cols <==> IsTime(c, x) { TimeColumnsMember(c.fields, x); }
    var c2 := WithMarkers(c1, c.name, cols);
    forall t, x ensures (t, x) in c2.markers <==> (t, x) in c1.markers || (t == c.name && x in cols) {}
    if cols != [] { assert cols[0] in cols; assert IsTime(c, cols[0]); }
    if x :| IsTime(c, x) { assert x in cols; }
  }

  lemma BareStatements(e: Storage, cat: Catalog, c: CollectionDef, o: Options)
    requires c.indexes == [] && CreateTableStatement(c, o).Some?
    ensures CreateMeaning(e, cat, c, o)
            == SchemaModifier.Marked(Emitted(e, cat, CreateTableStatement(c, o).value), c.name, TimeColumns(c.fields))
  {
    var sts := CreateStatements(c, o);
    assert sts == [CreateTableStatement(c, o).value] && sts[..0] == [];
    assert Statements(e, cat, sts[..0]) == Some(cat);
  }

  lemma ReadableIs(c: CollectionDef, o: Options)
    requires AllTyped(c.fields)
    ensures SqlParser.Readable(CreateTableStatement(c, o).value)
            <==> c.fields != [] && NulFree(c.name) && NulFreeAll(c.primaryKey)
                 && forall j | 0 <= j < |c.fields| :: NulFree(c.fields[j].name)
  {
    var decls := FieldDecls(c);
    forall j | 0 <= j < |c.fields| ensures decls[j].name == c.fields[j].name {}
    if InlineKey(c) {
      InlineIsRowid(c);
      var i :| 0 <= i < |c.fields| && c.fields[i].name == c.primaryKey[0];
      assert c.primaryKey == [c.fields[i].name];
    }
  }

  lemma StepGoes(cat: Catalog, c: CollectionDef, o: Options)
    requires AllTyped(c.fields)
    ensures var r := CreateTableStep(cat, CreateTableStatement(c, o).value);
            && (r.Some? <==> !Reserved(c.name)
                             && if Fold(c.name) in cat.tables then o.ifNotExists
                                else !IndexNamed(cat.indexes, Fold(c.name)) && WellDefined(c))
            && (r.Some? ==> TableCreated(cat, r.value, c) && r.value.markers == cat.markers
                            && r.value.sidecar == cat.sidecar)
  {
    ValidIsWellDefined(c);
    if WellDefined(c) { TableIs(c); }
  }

  /** A creation without indexes goes through exactly for a definition SQLite accepts under a free
      name, or with IfNotExists over an existing collection, which it then leaves as it is. */
  lemma BareCreateLaw(e: Storage, cat: Catalog, c: CollectionDef, o: Options)
    requires c.indexes == []
    ensures var r := CreateMeaning(e, cat, c, o);
            && (r.Some? <==> CreationGoes(cat, c, o))
            && (r.Some? ==> AllTyped(c.fields) && TableCreated(cat, r.value, c) && TimesMarked(cat, r.value, c))
  {
    if AllTyped(c.fields) {
      BareStatements(e, cat, c, o);
      ReadableIs(c, o);
      StepGoes(cat, c, o);
      var r := Emitted(e, cat, CreateTableStatement(c, o).value);
      if r.Some? { MarkersAre(r.value, c); }
    }
  }

  // ---- The indexes ----

  /** Adding the definition's indexes one after another, as operations of a call. */
  function Adds(c: CollectionDef, o: Options): (r: seq<AlterOp>)
    ensures |r| == |c.indexes|
  {
    seq(|c.indexes|, i requires 0 <= i < |c.indexes| => AddIndex(c.indexes[i], o))
  }

  function Remarked(cat: Catalog, markers: set<(string, string)>, sidecar: bool): Catalog {
    cat.(markers := markers, sidecar := sidecar)
  }

  function RemarkedOpt(cat: Option<Catalog>, markers: set<(string, string)>, sidecar: bool): Option<Catalog> {
    match cat case None => None case Some(c) => Some(Remarked(c, markers, sidecar))
  }

  /** Index statements do not look at markers. */
  lemma IndexIgnoresMarkers(e: Storage, cat: Catalog, st: Statement, markers: set<(string, string)>, sidecar: bool)
    requires st.CreateIndex?
    ensures Emitted(e, Remarked(cat, markers, sidecar), st) == RemarkedOpt(Emitted(e, cat, st), markers, sidecar)
  {
  }

  lemma AddStep(e: Storage, cat: Catalog, table: string, ops: seq<AlterOp>, k: nat)
    requires k < |ops|
    ensures AlterMeaning(e, cat, table, ops[..k + 1])
            == match AlterMeaning(e, cat, table, ops[..k]) case None => None
               case Some(c1) => OpMeaning(e, c1, table, ops[k])
  {
    assert ops[..k + 1][..k] == ops[..k];
  }

  lemma {:induction false} StatementsAreAdds(e: Storage, c1: Catalog, c: CollectionDef, o: Options, k: nat,
                                             markers: set<(string, string)>, sidecar: bool)
    requires IndexesBuild(c, o) && k <= |c.indexes|
    ensures AlterMeaning(e, Remarked(c1, markers, sidecar), c.name, Adds(c, o)[..k])
            == RemarkedOpt(Statements(e, c1, IndexStatements(c, o)[..k]), markers, sidecar)
    decreases k
  {
    if k == 0 {
      NoAdds(e, c1, c, o, markers, sidecar);
    } else {
      StatementsAreAdds(e, c1, c, o, k - 1, markers, sidecar);
      OneMoreAdd(e, c1, c, o, k - 1, markers, sidecar);
    }
  }

  lemma NoAdds(e: Storage, c1: Catalog, c: CollectionDef, o: Options, markers: set<(string, string)>, sidecar: bool)
    requires IndexesBuild(c, o)
    ensures AlterMeaning(e, Remarked(c1, markers, sidecar), c.name, Adds(c, o)[..0])
            == RemarkedOpt(Statements(e, c1, IndexStatements(c, o)[..0]), markers, sidecar)
  {
  }

  lemma OneMoreAdd(e: Storage, c1: Catalog, c: CollectionDef, o: Options, k: nat, markers: set<(string, string)>,
                   sidecar: bool)
    requires IndexesBuild(c, o) && k < |c.indexes|
    requires AlterMeaning(e, Remarked(c1, markers, sidecar), c.name, Adds(c, o)[..k])
             == RemarkedOpt(Statements(e, c1, IndexStatements(c, o)[..k]), markers, sidecar)
    ensures AlterMeaning(e, Remarked(c1, markers, sidecar), c.name, Adds(c, o)[..k + 1])
            == RemarkedOpt(Statements(e, c1, IndexStatements(c, o)[..k + 1]), markers, sidecar)
  {
    var sts := IndexStatements(c, o);
    StatementsStep(e, c1, sts, k);
    AddStep(e, Remarked(c1, markers, sidecar), c.name, Adds(c, o), k);
    if before: Catalog :| Statements(e, c1, sts[..k]) == Some(before) {
      OneAdd(e, before, c, o, k, markers, sidecar);
    }
  }

  lemma OneAdd(e: Storage, before: Catalog, c: CollectionDef, o: Options, k: nat, markers: set<(string, string)>,
               sidecar: bool)
    requires IndexesBuild(c, o) && k < |c.indexes|
    ensures OpMeaning(e, Remarked(before, markers, sidecar), c.name, Adds(c, o)[k])
            == RemarkedOpt(Emitted(e, before, IndexStatements(c, o)[k]), markers, sidecar)
  {
    AddIsStatement(e, Remarked(before, markers, sidecar), c, o, k);
    IndexIgnoresMarkers(e, before, IndexStatements(c, o)[k], markers, sidecar);
  }

  lemma AddIsStatement(e: Storage, cat: Catalog, c: CollectionDef, o: Options, k: nat)
    requires IndexesBuild(c, o) && k < |c.indexes|
    ensures OpMeaning(e, cat, c.name, Adds(c, o)[k]) == Emitted(e, cat, IndexStatements(c, o)[k])
  {
  }

  lemma {:induction false} UnbuiltFails(e: Storage, cat: Catalog, c: CollectionDef, o: Options, k: nat)
    requires k <= |c.indexes|
    requires exists i | 0 <= i < k :: CreateIndexStatement(Defaulted(c.indexes[i], c.name), o).None?
    ensures AlterMeaning(e, cat, c.name, Adds(c, o)[..k]).None?
    decreases k
  {
    if CreateIndexStatement(Defaulted(c.indexes[k - 1], c.name), o).Some? {
      UnbuiltFails(e, cat, c, o, k - 1);
      AddStep(e, cat, c.name, Adds(c, o), k - 1);
    } else {
      UnbuiltAdd(e, cat, c, o, k - 1);
    }
  }

  lemma UnbuiltAdd(e: Storage, cat: Catalog, c: CollectionDef, o: Options, k: nat)
    requires k < |c.indexes| && CreateIndexStatement(Defaulted(c.indexes[k], c.name), o).None?
    ensures AlterMeaning(e, cat, c.name, Adds(c, o)[..k + 1]).None?
  {
    AddStep(e, cat, c.name, Adds(c, o), k);
  }

  lemma {:induction false} MarkersUntouched(e: Storage, cat: Catalog, sts: seq<Statement>)
    requires (forall i | 0 <= i < |sts| :: sts[i].CreateIndex?) && Statements(e, cat, sts).Some?
    ensures var r := Statements(e, cat, sts).value; r.markers == cat.markers && r.sidecar == cat.sidecar
    decreases |sts|
  {
    if sts != [] { MarkersUntouched(e, cat, sts[..|sts| - 1]); }
  }

  lemma IndexesAfter(e: Storage, c1: Catalog, c: CollectionDef, o: Options)
    requires IndexesBuild(c, o)
    ensures var times := TimeColumns(c.fields);
            AlterMeaning(e, WithMarkers(c1, c.name, times), c.name, Adds(c, o))
            == SchemaModifier.Marked(Statements(e, c1, IndexStatements(c, o)), c.name, times)
  {
    var sts, n := IndexStatements(c, o), |c.indexes|;
    var marked := WithMarkers(c1, c.name, TimeColumns(c.fields));
    assert sts[..n] == sts && Adds(c, o)[..n] == Adds(c, o);
    assert marked == Remarked(c1, marked.markers, marked.sidecar);
    StatementsAreAdds(e, c1, c, o, n, marked.markers, marked.sidecar);
    if Statements(e, c1, sts).Some? { MarkersUntouched(e, c1, sts); }
  }

  /** A creation is that of the bare collection, and then its indexes added as operations of an
      AlterCollection on it: so also one that meets an existing collection. */
  lemma CreateIsBareThenIndexes(e: Storage, cat: Catalog, c: CollectionDef, o: Options)
    ensures CreateMeaning(e, cat, c, o)
            == match CreateMeaning(e, cat, c.(indexes := []), o) case None => None
               case Some(c1) => AlterMeaning(e, c1, c.name, Adds(c, o))
  {
    var bare, ops := c.(indexes := []), Adds(c, o);
    assert ops[..|ops|] == ops;
    if CreateTableStatement(c, o).Some? {
      var st := CreateTableStatement(c, o).value;
      assert FieldDecls(bare) == FieldDecls(c) by {
        forall j | 0 <= j < |c.fields| ensures FieldDecls(bare)[j] == FieldDecls(c)[j] {
          assert FieldDecl(bare, c.fields[j]) == FieldDecl(c, c.fields[j]);
        }
      }
      BareStatements(e, cat, bare, o);
      if IndexesBuild(c, o) { StatementsFrom(e, cat, st, IndexStatements(c, o)); }
      if c1: Catalog :| Emitted(e, cat, st) == Some(c1) {
        if IndexesBuild(c, o) { IndexesAfter(e, c1, c, o); }
        else { UnbuiltFails(e, WithMarkers(c1, c.name, TimeColumns(c.fields)), c, o, |c.indexes|); }
      }
    }
  }
}
