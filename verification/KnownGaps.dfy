/** Concrete inputs on which the code does not do what one might expect of it. The exact
    conditions, for all inputs, stand beside the operations themselves. */
module KnownGaps {
  import opened Text
  import opened DbSchema
  import opened SqlText
  import opened TypeMapping
  import opened SqlGen
  import opened KeyOrder
  import opened Catalog
  import opened SchemaModifier
  import opened ColumnRewrite
  import opened RewriteSucceeds
  import opened LogicalSchema
  import opened AlterFollows
  import opened StoredValues
  import opened RowChecks
  import opened ForeignKeys
  import opened Listing
  import opened Constraints
  import SqlParser

  lemma Names()
    ensures Fold("t") == "t" && Fold("T") == "t" && Fold("u") == "u" && Fold("t_new") == "t_new"
    ensures Fold("at") == "at" && Fold("AT") == "at" && Fold("n") == "n" && Fold("x") == "x"
    ensures Fold("a") == "a" && Fold("b") == "b" && Fold("c") == "c" && Fold("id") == "id"
    ensures !Reserved("t") && !Reserved("T") && !Reserved("t_new") && !Reserved("u")
  {
    assert forall i | 0 <= i < 5 :: Fold("t_new")[i] == "t_new"[i];
    assert Fold("T")[0] == 't' && Fold("t")[0] == 't' && Fold("u")[0] == 'u' && Fold("n")[0] == 'n'
      && Fold("x")[0] == 'x';
    assert Fold("a")[0] == 'a' && Fold("b")[0] == 'b' && Fold("c")[0] == 'c';
    assert Fold("at")[0] == 'a' && Fold("at")[1] == 't' && Fold("AT")[0] == 'a' && Fold("AT")[1] == 't';
    assert Fold("id")[0] == 'i' && Fold("id")[1] == 'd';
  }

  function OneTable(t: Table, markers: set<(string, string)>): Catalog {
    Catalog(map["t" := t], [], markers != {}, markers)
  }

  // ---- Other spellings ----

  function TimedColumns(): seq<Column> { [Column("at", "TEXT", false, 0), Column("n", "TEXT", false, 0)] }

  function Timed(): Table { Table("t", TimedColumns(), [], false, false, [], "", []) }

  function TimedLogical(): Collection {
    Collection("t", [LogicalColumn("at", Time, false, 0), LogicalColumn("n", String, false, 0)], false)
  }

  function TimedSchema(): Schema { map["t" := TimedLogical()] }

  function TimedCatalog(): Catalog { OneTable(Timed(), {("t", "at")}) }

  lemma TimedKey()
    ensures DistinctColumns(TimedColumns()) && NumberedKey(TimedColumns()) && KeyEntries(TimedColumns()) == []
  {
    Names();
    var cols := TimedColumns();
    assert cols[..1][..0] == [] && KeyEntries(cols[..1]) == [];
  }

  lemma TimedMarkers()
    ensures MarkersFollow(TimedSchema(), {("t", "at")}, true)
  {
    Names();
    var cols := TimedLogical().cols;
    forall x, y ensures (x, y) in {("t", "at")} <==> IsTimeColumn(TimedSchema(), x, y) {
      assert cols[0].typ == Time && cols[0].name == "at";
      assert HasTime(cols, y) <==> y == "at";
    }
  }

  /** A table whose one Time column is marked: a catalog that follows its schema. */
  lemma TimedFollows()
    ensures Follows(TimedSchema(), TimedCatalog())
  {
    Names();
    TimedKey();
    TimedMarkers();
    assert ColumnsFollow(TimedLogical().cols, TimedColumns());
    assert TableFollows(TimedLogical(), Timed());
  }

  /** A statement whose names can be read runs. */
  lemma Runs(e: Storage, cat: Catalog, st: Statement)
    requires SqlParser.Readable(st)
    ensures Emitted(e, cat, st) == Step(e, cat, st)
  {
  }

  lemma DropsT(e: Storage)
    ensures Emitted(e, TimedCatalog(), SqlText.DropTable(false, "T")) == Some(TimedCatalog().(tables := map[]))
  {
    Names();
    Runs(e, TimedCatalog(), SqlText.DropTable(false, "T"));
    assert map["t" := Timed()] - {"t"} == map[];
    assert KeepIndexes([], "t") == [];
    assert DropTableStep(TimedCatalog(), "T", false) == Some(TimedCatalog().(tables := map[]));
  }

  lemma CleanupMisses(c1: Catalog)
    requires ("t", "at") in c1.markers
    ensures AfterMarker(c1, DeleteMarkers("T"), Whole).tables == c1.tables
    ensures ("t", "at") in AfterMarker(c1, DeleteMarkers("T"), Whole).markers
  {
    assert "t"[0] != "T"[0];
  }

  /** Dropping "T" drops the collection "t" and leaves its marker, which then names no table. */
  lemma DropInOtherCase(e: Storage)
    ensures Follows(TimedSchema(), TimedCatalog())
    ensures DropMeaning(e, TimedCatalog(), "T", NO_OPTIONS).Some?
    ensures var cat := DropMeaning(e, TimedCatalog(), "T", NO_OPTIONS).value;
            cat.tables == map[] && ("t", "at") in cat.markers
  {
    TimedFollows();
    DropsT(e);
    var c1 := DropSplit(e, TimedCatalog(), "T", NO_OPTIONS, Whole);
    CleanupMisses(c1);
  }

  lemma TimedFound()
    ensures FindColumn(TimedColumns(), "AT") == Some(0)
    ensures FindColumn(TimedColumns(), "x").None? && FindColumn(TimedColumns(), "b").None?
  {
    Names();
    TimedKey();
    FindDistinct(TimedColumns(), "AT", 0);
    forall i | 0 <= i < 2 ensures Fold(TimedColumns()[i].name) != "x" && Fold(TimedColumns()[i].name) != "b" {}
  }

  const TIME_X := FieldDef("x", Time, None, true, false)

  lemma AddsX(e: Storage) returns (c1: Catalog)
    ensures AddFieldMeaning(e, TimedCatalog(), "T", TIME_X) == Some(WithMarkers(c1, "T", ["x"]))
  {
    Names();
    TimedFound();
    var st := AddColumn("T", ColumnDecl("x", "TEXT", Plain));
    assert AddColumnStatement("T", TIME_X) == Some(st);
    assert SqlParser.NulFree("T") && SqlParser.NulFree("x");
    Runs(e, TimedCatalog(), st);
    c1 := AddColumnStep(TimedCatalog(), "T", st.col).value;
  }

  lemma XUnsound()
    ensures !OpSound(TimedSchema(), "T", AddField(TIME_X), Whole)
  {
    Names();
    assert "t"[0] != "T"[0];
  }

  /** Adding a Time field to "T" adds the column to "t" and a marker that names no table. */
  lemma AddInOtherCase(e: Storage)
    ensures OpMeaning(e, TimedCatalog(), "T", AddField(TIME_X)).Some?
    ensures var cat := OpMeaning(e, TimedCatalog(), "T", AddField(TIME_X)).value;
            ("T", "x") in cat.markers && !Follows(ApplyOp(TimedSchema(), "T", AddField(TIME_X)), cat)
  {
    var c1 := AddsX(e);
    TimedFollows();
    XUnsound();
    OpFollows(e, TimedSchema(), TimedCatalog(), "T", AddField(TIME_X), Whole);
    assert "x" in ["x"];
    assert ("T", "x") in MarkersFor("T", ["x"]);
  }

  lemma StillMarked(c1: Catalog)
    requires c1.sidecar && c1.markers == {("t", "at")}
    ensures ("t", "at") in AfterMarker(c1, DeleteMarker("t", "AT"), Whole).markers
    ensures ("t", "at") in AfterMarker(c1, UpdateMarker("t", "AT", "b"), Whole).markers
  {
    assert "AT"[0] != "at"[0];
  }

  lemma DropsAt(e: Storage) returns (c1: Catalog)
    ensures Emitted(e, TimedCatalog(), SqlText.DropColumn("t", "AT")) == Some(c1)
    ensures c1.sidecar && c1.markers == {("t", "at")}
  {
    Names();
    TimedFound();
    assert SqlParser.NulFree("t") && SqlParser.NulFree("AT");
    Runs(e, TimedCatalog(), SqlText.DropColumn("t", "AT"));
    c1 := DropColumnStep(TimedCatalog(), "t", "AT").value;
  }

  lemma RenamesAt(e: Storage) returns (c1: Catalog)
    ensures Emitted(e, TimedCatalog(), SqlText.RenameColumn("t", "AT", "b")) == Some(c1)
    ensures c1.sidecar && c1.markers == {("t", "at")}
  {
    Names();
    TimedFound();
    assert SqlParser.NulFree("t") && SqlParser.NulFree("AT") && SqlParser.NulFree("b");
    Runs(e, TimedCatalog(), SqlText.RenameColumn("t", "AT", "b"));
    c1 := RenameColumnStep(TimedCatalog(), "t", "AT", "b").value;
  }

  lemma AtUnsound()
    ensures !OpSound(TimedSchema(), "t", DropField("AT"), Whole)
            && !OpSound(TimedSchema(), "t", RenameField("AT", "b"), Whole)
  {
    Names();
    assert "AT"[0] != "at"[0] && "b"[0] != "at"[0];
    assert TimedLogical().cols[0] == LogicalColumn("at", Time, false, 0);
  }

  /** Dropping the field "AT" drops the column "at" and leaves its marker. */
  lemma DropFieldInOtherCase(e: Storage)
    ensures OpMeaning(e, TimedCatalog(), "t", DropField("AT")).Some?
    ensures var cat := OpMeaning(e, TimedCatalog(), "t", DropField("AT")).value;
            ("t", "at") in cat.markers && !Follows(ApplyOp(TimedSchema(), "t", DropField("AT")), cat)
  {
    var c1 := DropsAt(e);
    StillMarked(c1);
    TimedFollows();
    AtUnsound();
    OpFollows(e, TimedSchema(), TimedCatalog(), "t", DropField("AT"), Whole);
  }

  /** Renaming the field "AT" renames the column "at" and leaves its marker under the old name. */
  lemma RenameInOtherCase(e: Storage)
    ensures OpMeaning(e, TimedCatalog(), "t", RenameField("AT", "b")).Some?
    ensures var cat := OpMeaning(e, TimedCatalog(), "t", RenameField("AT", "b")).value;
            ("t", "at") in cat.markers && !Follows(ApplyOp(TimedSchema(), "t", RenameField("AT", "b")), cat)
  {
    var c1 := RenamesAt(e);
    StillMarked(c1);
    TimedFollows();
    AtUnsound();
    OpFollows(e, TimedSchema(), TimedCatalog(), "t", RenameField("AT", "b"), Whole);
  }

  // ---- What a rewrite loses ----

  /** The names of a rewrite of "t", alone in its catalog, are free. */
  lemma RewriteGoes(e: Storage, t: Table, name: string, d: FieldDef, seen: seq<Column>) returns (cat': Catalog)
    requires t.name == "t" && t.rows == [] && DistinctColumns(t.cols)
    requires seen <= t.cols && WritableNames(seen) && Sees(seen, name) && DistinctColumns(seen) && NumberedKey(seen)
             && Builds(name, d, seen)
    ensures WellKept(OneTable(t, {})) && TableInfo(OneTable(t, {}), "t") == t.cols
    ensures RewriteSeeing(e, OneTable(t, {}), "t", name, d, seen) == Some(cat')
    ensures RewriteEffect(e, OneTable(t, {}), cat', "t", name, d, seen)
  {
    Names();
    assert "t" + "_new" == "t_new";
    EmptyTableRewrites(e, OneTable(t, {}), "t", name, d, seen);
    RewriteHasEffect(e, OneTable(t, {}), "t", name, d, seen);
    cat' := RewriteSeeing(e, OneTable(t, {}), "t", name, d, seen).value;
  }

  function Counted(): seq<Column> { [Column("id", "INTEGER", false, 1), Column("n", "TEXT", false, 0)] }

  function CountedTable(): Table { Table("t", Counted(), [], true, false, [], TableText("t", Counted(), true), []) }

  lemma CountedKey()
    ensures DistinctColumns(Counted()) && NumberedKey(Counted()) && KeyOf(Counted()) == ["id"]
  {
    Names();
    var cols := Counted();
    assert cols[..1][..0] == [];
    assert KeyEntries(cols[..1]) == [PkEntry("id", 1)];
    assert FindPosition(cols, 1) == Some(0);
    NumberedFromColumns(cols, 1);
    KeyOfPlace(cols, 0);
  }

  const NEW_N := FieldDef("n", String, None, true, false)

  lemma PlainBuilds(name: string, d: FieldDef, cols: seq<Column>)
    requires d.typ == String && forall i | 0 <= i < |cols| :: cols[i].decl == "TEXT" || cols[i].decl == "INTEGER"
    ensures Builds(name, d, cols)
  {
    KeywordFixedPoint("INTEGER");
    KeywordFixedPoint("TEXT");
  }

  /** A table with AUTOINCREMENT on "id": changing its ordinary column "n" succeeds, and the table
      has AUTOINCREMENT no more. */
  lemma AutoIncrementLost(e: Storage)
    ensures OneTable(CountedTable(), {}).tables["t"].auto
    ensures RewriteSeeing(e, OneTable(CountedTable(), {}), "t", "n", NEW_N, Counted()).Some?
    ensures var cat := RewriteSeeing(e, OneTable(CountedTable(), {}), "t", "n", NEW_N, Counted()).value;
            "t" in cat.tables && !cat.tables["t"].auto
  {
    Names();
    CountedKey();
    PlainBuilds("n", NEW_N, Counted());
    assert Counted()[1].name == "n";
    var cat := RewriteGoes(e, CountedTable(), "n", NEW_N, Counted());
    AutoIncrementAfter("t", "n", NEW_N, Counted());
    assert "id"[0] != "n"[0];
  }

  /** A key of two columns, and "c" outside it, which may not be NULL. */
  function Paired(): seq<Column> {
    [Column("a", "TEXT", true, 1), Column("b", "TEXT", true, 2), Column("c", "TEXT", true, 0)]
  }

  function PairedTable(): Table { Table("t", Paired(), [], false, false, [], TableText("t", Paired(), false), []) }

  lemma PairedKey()
    ensures DistinctColumns(Paired()) && NumberedKey(Paired()) && |KeyOf(Paired())| == 2
  {
    Names();
    var cols := Paired();
    assert cols[1..][0] == cols[1];
    assert FindPosition(cols, 1) == Some(0) && FindPosition(cols[1..], 2) == Some(0)
      && FindPosition(cols, 2) == Some(1);
    NumberedFromColumns(cols, 2);
    SortMembers(KeyEntries(cols));
  }

  const NEW_A := FieldDef("a", String, None, false, false)

  /** Changing the key column "a" succeeds, and "c" may be NULL from then on. */
  lemma NotNullLost(e: Storage)
    ensures OneTable(PairedTable(), {}).tables["t"].cols[2].notNull
    ensures RewriteSeeing(e, OneTable(PairedTable(), {}), "t", "a", NEW_A, Paired()).Some?
    ensures var cat := RewriteSeeing(e, OneTable(PairedTable(), {}), "t", "a", NEW_A, Paired()).value;
            "t" in cat.tables && |cat.tables["t"].cols| == 3 && cat.tables["t"].cols[2].name == "c"
              && !cat.tables["t"].cols[2].notNull
  {
    Names();
    PairedKey();
    PlainBuilds("a", NEW_A, Paired());
    assert Paired()[0].name == "a";
    var cat := RewriteGoes(e, PairedTable(), "a", NEW_A, Paired());
    assert "c"[0] != "a"[0];
    RewrittenColumn("t", "a", NEW_A, Paired(), 2);
  }

  /** A key "id" that may be NULL, and one row where it is. */
  function Loose(): seq<Column> { [Column("id", "TEXT", false, 1), Column("n", "TEXT", false, 0)] }

  function LooseTable(): Table {
    Table("t", Loose(), [[VNull, VNull]], false, false, [], TableText("t", Loose(), false), [])
  }

  lemma LooseKey()
    ensures DistinctColumns(Loose()) && NumberedKey(Loose()) && |KeyOf(Loose())| == 1
  {
    Names();
    var cols := Loose();
    assert cols[..1][..0] == [];
    assert FindPosition(cols, 1) == Some(0);
    NumberedFromColumns(cols, 1);
    SortMembers(KeyEntries(cols));
  }

  lemma LooseChecked(e: Storage)
    ensures Checked(e, LooseTable())
  {
    assert "text" != "integer";
    assert Fold("TEXT")[0] == 't';
  }

  lemma LooseStored(e: Storage)
    requires Lawful(e)
    ensures StoredRows(e, LooseTable())
  {
    forall j: nat | j < 2
      ensures Settled(e, Loose()[j], VNull) && !SoleInteger(Loose(), j) {
      assert Fold("TEXT")[0] == 't';
    }
    assert StoredRow(e, Loose(), LooseTable().rows[0]);
  }

  lemma LooseFree()
    ensures AllEmitted(Loose()) && WritableNames(Loose()) && FreeNames(OneTable(LooseTable(), {}), "t")
  {
    Names();
    assert "t" + "_new" == "t_new";
  }

  lemma LooseForbids()
    ensures Sees(Loose(), "n") && Builds("n", NEW_N, Loose()) && TypeKept(Loose(), "n", NEW_N)
    ensures !NoForbiddenNull(LooseTable(), "n", NEW_N)
  {
    LooseKey();
    PlainBuilds("n", NEW_N, Loose());
    assert Loose()[1].name == "n" && "id"[0] != "n"[0];
    assert NullForbidden(Loose(), "n", NEW_N, 0) && LooseTable().rows[0][0] == VNull;
  }

  /** A rewrite writes every key column NOT NULL: changing the ordinary column "n", and not even
      its type, is refused for the row whose key is NULL. */
  lemma NullKeyRefused(e: Storage)
    requires Lawful(e)
    ensures Checked(e, LooseTable()) && StoredRows(e, LooseTable()) && TypeKept(Loose(), "n", NEW_N)
    ensures RewriteSeeing(e, OneTable(LooseTable(), {}), "t", "n", NEW_N, Loose()).None?
  {
    Names();
    LooseKey();
    LooseChecked(e);
    LooseStored(e);
    LooseFree();
    LooseForbids();
    StoredRowsRewrite(e, OneTable(LooseTable(), {}), "t", "n", NEW_N);
  }

  // ---- A key in another letter case ----

  /** "a" is named as "A" in a key of two; neither field may be NULL. */
  function MixedKey(): CollectionDef {
    CollectionDef("t", [FieldDef("a", String, None, false, false), FieldDef("b", String, None, false, false)],
                  ["A", "b"], [])
  }

  /** The creation succeeds, and "a", although in the key, may be NULL; "b" may not. */
  lemma KeyInOtherCase(e: Storage)
    ensures CreateMeaning(e, EMPTY, MixedKey(), NO_OPTIONS).Some?
    ensures var cat := CreateMeaning(e, EMPTY, MixedKey(), NO_OPTIONS).value;
            "t" in cat.tables
              && cat.tables["t"].cols == [Column("a", "TEXT", false, 1), Column("b", "TEXT", true, 2)]
  {
    MixedTable(e);
    var st := CreateTableStatement(MixedKey(), NO_OPTIONS).value;
    StatementsFrom(e, EMPTY, st, IndexStatements(MixedKey(), NO_OPTIONS));
    assert IndexStatements(MixedKey(), NO_OPTIONS) == [];
  }

  lemma MixedTable(e: Storage)
    ensures CreateTableStatement(MixedKey(), NO_OPTIONS).Some?
    ensures var c1 := Emitted(e, EMPTY, CreateTableStatement(MixedKey(), NO_OPTIONS).value);
            && c1.Some? && "t" in c1.value.tables
            && c1.value.tables["t"].cols == [Column("a", "TEXT", false, 1), Column("b", "TEXT", true, 2)]
  {
    Names();
    MixedColumns();
    assert Emitted(e, EMPTY, CreateTableStatement(MixedKey(), NO_OPTIONS).value).Some?;
  }

  lemma MixedColumns()
    ensures !InlineKey(MixedKey())
    ensures FieldDecls(MixedKey()) == [ColumnDecl("a", "TEXT", Plain), ColumnDecl("b", "TEXT", NotNull)]
    ensures ColumnsOf(FieldDecls(MixedKey()), ["A", "b"])
            == [Column("a", "TEXT", false, 1), Column("b", "TEXT", true, 2)]
    ensures ValidBody(FieldDecls(MixedKey()), ["A", "b"])
  {
    Names();
    var decls := FieldDecls(MixedKey());
    assert Fold("A")[0] == 'a' && Fold("A") == "a";
    assert "a"[0] != "A"[0] && "a"[0] != "b"[0];
    assert decls[0] == ColumnDecl("a", "TEXT", Plain) && decls[1] == ColumnDecl("b", "TEXT", NotNull);
    var cols := ColumnsOf(decls, ["A", "b"]);
    assert ["A", "b"][1..] == ["b"];
    assert KeyPosition(["A", "b"], "a") == 1 && KeyPosition(["b"], "b") == 1 && KeyPosition(["A", "b"], "b") == 2;
    assert cols[1..][0] == cols[1];
    assert FindColumn(cols, "A") == Some(0) && FindColumn(cols[1..], "b") == Some(0);
    assert FindColumn(cols, "b") == Some(1);
    assert Resolve(cols, ["A", "b"]).Some?;
    assert CountInline(decls[1..]) == 0 by { assert decls[1..][1..] == []; }
  }

  function Pair(): Table { Table("t", TimedColumns(), [], false, false, [], "", []) }

  const NEW_AT := FieldDef("at", String, None, true, false)

  function Seen(): seq<Column> { [Column("at", "TEXT", false, 0)] }

  lemma SeenPart()
    ensures Seen() <= TimedColumns() && DistinctColumns(Seen()) && NumberedKey(Seen()) && Sees(Seen(), "at")
    ensures NamesOf(Seen()) == ["at"] && NamesOf(TimedColumns()) == ["at", "n"]
  {
    assert Seen()[..0] == [] && KeyEntries(Seen()) == [];
    assert Seen()[0].name == "at";
  }

  /** A rewrite of "at" whose introspection stopped after "at" succeeds and leaves a table without
      "n". */
  lemma CutShort(e: Storage)
    ensures TableInfo(OneTable(Pair(), {}), "t") == TimedColumns() && NamesOf(TimedColumns()) == ["at", "n"]
    ensures Seen() <= TimedColumns() && RewriteSeeing(e, OneTable(Pair(), {}), "t", "at", NEW_AT, Seen()).Some?
    ensures var cat := RewriteSeeing(e, OneTable(Pair(), {}), "t", "at", NEW_AT, Seen()).value;
            "t" in cat.tables && NamesOf(cat.tables["t"].cols) == ["at"]
  {
    Names();
    TimedKey();
    SeenPart();
    SeenWritable();
    var cat := RewriteGoes(e, Pair(), "at", NEW_AT, Seen());
    NewColumnNames("t", "at", NEW_AT, Seen());
  }

  lemma AtWritable()
    ensures WritableNames(Seen())
  {
    assert SqlParser.NulFree("at");
    forall i | 0 <= i < |Seen()| ensures SqlParser.NulFree(Seen()[i].name) { assert Seen()[i].name == "at"; }
  }

  lemma SeenWritable()
    ensures WritableNames(Seen()) && Builds("at", NEW_AT, Seen())
  {
    AtWritable();
    PlainBuilds("at", NEW_AT, Seen());
  }

  // ---- Referrers under another spelling ----

  function KeyTo(from: string): ForeignKeyRow { ForeignKeyRow(0, 0, "t", from, None, "NO ACTION", "NO ACTION") }

  function Referring(name: string): Table {
    Table(name, [Column("n", "TEXT", false, 0)], [], false, false, [], "", [KeyTo("n")])
  }

  /** Two collections, "t" and "u", each with a key to "t". */
  function Family(): Catalog { Catalog(map["t" := Referring("t"), "u" := Referring("u")], [], false, {}) }

  lemma FamilyListed()
    ensures KeyedByFold(Family()) && IsListing(Family(), ["t", "u"])
  {
    Names();
    assert |SIDECAR| != 1;
    assert Before("t", "u");
    forall n ensures n in ["t", "u"] <==> Listed(Family(), n) {
      if Listed(Family(), n) { assert Family().tables[Fold(n)].name in ["t", "u"]; }
    }
  }

  lemma FamilyColumns(u: string, to: string)
    requires (u == "t" || u == "u") && Fold(to) == "t"
    ensures KeyRows(Family(), u) == [KeyTo("n")] && ReferringColumns(KeyRows(Family(), u), to) == ["n"]
  {
    Names();
    assert [KeyTo("n")][..0] == [];
  }

  /** The survey for "t" lists "u" alone; the survey for "T" lists "t", which is itself, and "u";
      yet no foreign key of either resolves to "T". */
  lemma ReferrersInOtherCase(enforced: bool)
    ensures IsListing(Family(), ["t", "u"])
    ensures ReferrersAmong(Family(), ["t", "u"], "t") == [Referrer("u", ["n"])]
    ensures ReferrersAmong(Family(), ["t", "u"], "T") == [Referrer("t", ["n"]), Referrer("u", ["n"])]
    ensures !SomeKeyTo(ForeignKeysOf(Family(), "t", enforced), "T")
            && !SomeKeyTo(ForeignKeysOf(Family(), "u", enforced), "T")
  {
    Names();
    FamilyListed();
    ThreeSpellings();
    AmongTwo("t");
    AmongTwo("T");
    assert [] + [Referrer("u", ["n"])] == [Referrer("u", ["n"])];
    assert [Referrer("t", ["n"])] + [Referrer("u", ["n"])] == [Referrer("t", ["n"]), Referrer("u", ["n"])];
    forall u | u == "t" || u == "u" ensures !SomeKeyTo(ForeignKeysOf(Family(), u, enforced), "T") {
      FamilyColumns(u, "T");
      OtherSpellingsDiffer(Family(), u, "T", enforced);
    }
  }

  lemma ThreeSpellings()
    ensures "t" != "T" && "u" != "T" && "u" != "t"
  {
    assert "t"[0] != "T"[0] && "u"[0] != "T"[0] && "u"[0] != "t"[0];
  }

  lemma AmongTwo(to: string)
    requires Fold(to) == "t"
    ensures ReferrersAmong(Family(), ["t", "u"], to)
            == (if "t" != to then [Referrer("t", ["n"])] else []) + (if "u" != to then [Referrer("u", ["n"])] else [])
  {
    FamilyColumns("t", to);
    FamilyColumns("u", to);
    assert ["t", "u"][..1] == ["t"] && ["t"][..0] == [];
    assert ReferrersAmong(Family(), ["t"], to) == if "t" != to then [Referrer("t", ["n"])] else [];
  }
}
