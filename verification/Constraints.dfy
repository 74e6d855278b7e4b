/** The survey of constraints and the search for referring tables: two other routes to the
    foreign-key rows of the catalog. */
module Constraints {
  import opened Text
  import opened Catalog
  import opened ConnectionPool
  import opened ForeignKeys
  import opened Listing

  datatype ConstraintDef = ConstraintDef(name: string, kind: string)

  datatype Referrer = Referrer(collection: string, fields: seq<string>)

  // ---- ListConstraints ----

  function UniqueNames(indexes: seq<Index>): seq<string> {
    if indexes == [] then []
    else UniqueNames(indexes[..|indexes| - 1])
         + if indexes[|indexes| - 1].origin == UniqueConstraint then [indexes[|indexes| - 1].name] else []
  }

  function Kinds(names: seq<string>, kind: string): (r: seq<ConstraintDef>)
    ensures |r| == |names|
  {
    seq(|names|, i requires 0 <= i < |names| => ConstraintDef(names[i], kind))
  }

  predicate HasKey(cat: Catalog, table: string) {
    Fold(table) in cat.tables && KeyEntries(cat.tables[Fold(table)].cols) != []
  }

  /** The survey; withKey is what the primary-key probe answered. */
  function ConstraintsOf(cat: Catalog, table: string, withKey: bool): seq<ConstraintDef> {
    (if withKey then [ConstraintDef(table + "_pk", "primary-key")] else [])
    + Kinds(ConstraintNames(table, DistinctIds(KeyRows(cat, table))), "foreign-key")
    + Kinds(UniqueNames(TableIndexes(cat.indexes, Fold(table))), "unique")
  }

  lemma {:induction false} UniqueNamesLaw(indexes: seq<Index>, x: string)
    ensures x in UniqueNames(indexes)
            <==> exists i | 0 <= i < |indexes| :: indexes[i].origin == UniqueConstraint && indexes[i].name == x
    decreases |indexes|
  {
    if indexes != [] {
      var n := |indexes| - 1;
      UniqueNamesLaw(indexes[..n], x);
      assert indexes == indexes[..n] + [indexes[n]];
    }
  }

  /** The index is that of a UNIQUE constraint of the table, not one that was created. */
  predicate UniqueOn(x: Index, table: string, name: string) {
    x.origin == UniqueConstraint && x.table == Fold(table) && x.name == name
  }

  predicate HasUnique(cat: Catalog, table: string, name: string) {
    exists x :: x in cat.indexes && UniqueOn(x, table, name)
  }

  lemma UniqueOfTable(cat: Catalog, table: string, name: string)
    ensures name in UniqueNames(TableIndexes(cat.indexes, Fold(table)))
            <==> HasUnique(cat, table, name)
  {
    var own := TableIndexes(cat.indexes, Fold(table));
    UniqueNamesLaw(own, name);
    if i :| 0 <= i < |own| && own[i].origin == UniqueConstraint && own[i].name == name {
      TableIndexesLaw(cat.indexes, Fold(table), own[i]);
      assert own[i] in cat.indexes && UniqueOn(own[i], table, name);
    }
    if x :| x in cat.indexes && UniqueOn(x, table, name) {
      TableIndexesLaw(cat.indexes, Fold(table), x);
      var i :| 0 <= i < |own| && own[i] == x;
      assert own[i].name == name;
    }
  }

  lemma KindsLaw(names: seq<string>, kind: string, c: ConstraintDef)
    ensures c in Kinds(names, kind) <==> c.kind == kind && c.name in names
  {
    if c.kind == kind && c.name in names {
      var i :| 0 <= i < |names| && names[i] == c.name;
      assert Kinds(names, kind)[i] == c;
    }
  }

  lemma NamesLaw(table: string, ids: seq<nat>, x: string)
    ensures x in ConstraintNames(table, ids) <==> NamesKey(table, ids, x)
  {
    if i :| 0 <= i < |ids| && x == KeyName(table, ids[i]) { assert ConstraintNames(table, ids)[i] == x; }
  }

  predicate KeyRowNamed(r: ForeignKeyRow, table: string, name: string) { name == KeyName(table, r.id) }

  predicate HasKeyRow(rows: seq<ForeignKeyRow>, table: string, name: string) {
    exists r :: r in rows && KeyRowNamed(r, table, name)
  }

  predicate NamesKey(table: string, ids: seq<nat>, name: string) {
    exists i | 0 <= i < |ids| :: name == KeyName(table, ids[i])
  }

  /** What the survey lists: the primary key when the probe found one, a foreign key for each row's
      id, and each UNIQUE constraint of the table, under their kinds, and nothing else. */
  lemma SurveyLaw(cat: Catalog, table: string, withKey: bool, c: ConstraintDef)
    ensures c in ConstraintsOf(cat, table, withKey)
            <==> (withKey && c == ConstraintDef(table + "_pk", "primary-key"))
                 || (c.kind == "foreign-key" && HasKeyRow(KeyRows(cat, table), table, c.name))
                 || (c.kind == "unique" && HasUnique(cat, table, c.name))
  {
    var rows := KeyRows(cat, table);
    var ids, unique := DistinctIds(rows), UniqueNames(TableIndexes(cat.indexes, Fold(table)));
    KindsLaw(ConstraintNames(table, ids), "foreign-key", c);
    KindsLaw(unique, "unique", c);
    UniqueOfTable(cat, table, c.name);
    NamesLaw(table, ids, c.name);
    RowsNameKeys(rows, table, c.name);
    var keys, named := Kinds(ConstraintNames(table, ids), "foreign-key"), Kinds(unique, "unique");
    var first := if withKey then [ConstraintDef(table + "_pk", "primary-key")] else [];
    assert ConstraintsOf(cat, table, withKey) == first + keys + named;
    assert c in first + keys + named <==> c in first || c in keys || c in named;
    assert c in first <==> withKey && c == ConstraintDef(table + "_pk", "primary-key");
  }

  lemma RowsNameKeys(rows: seq<ForeignKeyRow>, table: string, name: string)
    ensures NamesKey(table, DistinctIds(rows), name) <==> HasKeyRow(rows, table, name)
  {
    var ids := DistinctIds(rows);
    if i :| 0 <= i < |ids| && name == KeyName(table, ids[i]) {
      DistinctIdsMembers(rows, ids[i]);
      var k :| 0 <= k < |rows| && rows[k].id == ids[i];
      assert rows[k] in rows && KeyRowNamed(rows[k], table, name);
    }
    if r :| r in rows && KeyRowNamed(r, table, name) {
      var k :| 0 <= k < |rows| && rows[k] == r;
      DistinctIdsMembers(rows, r.id);
      assert HasId(rows, r.id);
      var i :| 0 <= i < |ids| && ids[i] == r.id;
    }
  }

  /** The names listed under a kind, in order. */
  function OfKind(cs: seq<ConstraintDef>, kind: string): seq<string> {
    if cs == [] then []
    else OfKind(cs[..|cs| - 1], kind) + if cs[|cs| - 1].kind == kind then [cs[|cs| - 1].name] else []
  }

  lemma {:induction false} OfKindConcat(a: seq<ConstraintDef>, b: seq<ConstraintDef>, kind: string)
    ensures OfKind(a + b, kind) == OfKind(a, kind) + OfKind(b, kind)
    decreases |b|
  {
    if b == [] {
      assert a + b == a;
    } else {
      OfKindConcat(a, b[..|b| - 1], kind);
      assert (a + b)[..|a + b| - 1] == a + b[..|b| - 1];
    }
  }

  lemma {:induction false} OfOneKind(names: seq<string>, own: string, kind: string)
    ensures OfKind(Kinds(names, own), kind) == if own == kind then names else []
    decreases |names|
  {
    if names != [] {
      var n := |names| - 1;
      OfOneKind(names[..n], own, kind);
      assert Kinds(names, own)[..n] == Kinds(names[..n], own);
    }
  }

  function KeyPart(table: string, withKey: bool): seq<ConstraintDef> {
    if withKey then [ConstraintDef(table + "_pk", "primary-key")] else []
  }

  lemma PartsOfKind(table: string, withKey: bool, ids: seq<string>, unique: seq<string>, kind: string)
    requires kind != "primary-key"
    ensures OfKind(KeyPart(table, withKey) + Kinds(ids, "foreign-key") + Kinds(unique, "unique"), kind)
            == (if kind == "foreign-key" then ids else []) + if kind == "unique" then unique else []
  {
    var first := KeyPart(table, withKey);
    OfKindConcat(first + Kinds(ids, "foreign-key"), Kinds(unique, "unique"), kind);
    OfKindConcat(first, Kinds(ids, "foreign-key"), kind);
    OfOneKind(ids, "foreign-key", kind);
    OfOneKind(unique, "unique", kind);
    if withKey { assert first[..0] == [] && OfKind(first[..0], kind) == []; }
  }

  /** The primary key stands before all others, the foreign keys in order of their ids, and after them
      the UNIQUE constraints in order of their indexes, newest first. */
  lemma SurveyOrder(cat: Catalog, table: string, withKey: bool)
    ensures var cs := ConstraintsOf(cat, table, withKey);
            && OfKind(cs, "foreign-key") == ConstraintNames(table, DistinctIds(KeyRows(cat, table)))
            && OfKind(cs, "unique") == UniqueNames(TableIndexes(cat.indexes, Fold(table)))
            && (withKey ==> cs != [] && cs[0] == ConstraintDef(table + "_pk", "primary-key"))
            && UniqueLast(cs)
  {
    var ids := ConstraintNames(table, DistinctIds(KeyRows(cat, table)));
    var unique := UniqueNames(TableIndexes(cat.indexes, Fold(table)));
    KindsApart();
    PartsOfKind(table, withKey, ids, unique, "foreign-key");
    PartsOfKind(table, withKey, ids, unique, "unique");
    PartsInOrder(KeyPart(table, withKey) + Kinds(ids, "foreign-key"), unique);
  }

  predicate UniqueLast(cs: seq<ConstraintDef>) {
    forall i, j | 0 <= i < j < |cs| :: cs[i].kind == "unique" ==> cs[j].kind == "unique"
  }

  lemma PartsInOrder(before: seq<ConstraintDef>, unique: seq<string>)
    requires forall i | 0 <= i < |before| :: before[i].kind != "unique"
    ensures UniqueLast(before + Kinds(unique, "unique"))
  {
  }

  lemma KindsApart()
    ensures "primary-key" != "foreign-key" && "primary-key" != "unique" && "foreign-key" != "unique"
  {
    assert "primary-key"[0] == 'p' && "foreign-key"[0] == 'f' && "unique"[0] == 'u';
  }

  /** Whether the primary-key probe gives a row; its Next is the second call made, and an error of
      it reads as no row. None is an error of the query itself. */
  method ProbeKey(pool: Pool, key: seq<string>) returns (r: Option<bool>)
    requires pool.free > 0
    modifies pool, pool.env
    ensures pool.free == old(pool.free)
    ensures r.None? <==> !pool.env.Granted(old(pool.env.asked))
    ensures r.None? ==> pool.env.asked == old(pool.env.asked) + 1
    ensures r.Some? ==>
              pool.env.asked == old(pool.env.asked) + 2
                && r.value == (key != [] && pool.env.Granted(old(pool.env.asked) + 1))
  {
    var pkRows := pool.Query(key);
    if pkRows == null { return None; }
    var hasPK := pkRows.Next();
    pkRows.Close();
    return Some(hasPK);
  }

  /** A failing row read of the primary-key probe, the second call made, is not told apart from an
      absent key: the survey then succeeds without it. Any other failing call is an error. */
  method ListConstraints(pool: Pool, cat: Catalog, table: string) returns (r: Option<seq<ConstraintDef>>)
    requires pool.free > 0
    modifies pool, pool.env
    ensures pool.free == old(pool.free) && old(pool.env.asked) < pool.env.asked
    ensures r.Some? <==> pool.env.Granted(old(pool.env.asked)) && pool.env.CalmSince(old(pool.env.asked) + 2)
    ensures r.Some? ==>
              r.value == ConstraintsOf(cat, table, HasKey(cat, table) && pool.env.Granted(old(pool.env.asked) + 1))
  {
    ghost var from := pool.env.asked;
    var key := if HasKey(cat, table) then [KeyEntries(cat.tables[Fold(table)].cols)[0].colName] else [];
    var hasPK := ProbeKey(pool, key);
    if hasPK.None? { return None; }
    var out: seq<ConstraintDef> := [];
    if hasPK.value {
      out := out + [ConstraintDef(table + "_pk", "primary-key")];
    }
    var ids := ReadAll(pool, DistinctIds(KeyRows(cat, table)));
    if ids.None? { return None; }
    var keys := ForeignKeyEntries(table, ids.value);
    out := out + keys;
    ghost var mid := pool.env.asked;
    var unique := UniqueConstraints(pool, cat, table);
    pool.env.Split(from + 2, mid, pool.env.asked);
    if unique.None? { return None; }
    return Some(out + unique.value);
  }

  /** The loop over the distinct ids. */
  method ForeignKeyEntries(table: string, ids: seq<nat>) returns (out: seq<ConstraintDef>)
    ensures out == Kinds(ConstraintNames(table, ids), "foreign-key")
  {
    out := [];
    var i := 0;
    while i < |ids|
      invariant 0 <= i <= |ids| && |out| == i
      invariant forall k | 0 <= k < i :: out[k] == ConstraintDef(KeyName(table, ids[k]), "foreign-key")
    {
      out := out + [ConstraintDef(KeyName(table, ids[i]), "foreign-key")];
      i := i + 1;
    }
  }

  method UniqueConstraints(pool: Pool, cat: Catalog, table: string) returns (r: Option<seq<ConstraintDef>>)
    requires pool.free > 0
    modifies pool, pool.env
    ensures pool.free == old(pool.free) && old(pool.env.asked) < pool.env.asked
    ensures r.Some? <==> pool.env.CalmSince(old(pool.env.asked))
    ensures r.Some? ==> r.value == Kinds(UniqueNames(TableIndexes(cat.indexes, Fold(table))), "unique")
  {
    var names := ReadAll(pool, UniqueNames(TableIndexes(cat.indexes, Fold(table))));
    if names.None? { return None; }
    var out: seq<ConstraintDef> := [];
    var i := 0;
    while i < |names.value|
      invariant 0 <= i <= |names.value| && out == Kinds(names.value[..i], "unique")
    {
      assert names.value[..i + 1] == names.value[..i] + [names.value[i]];
      out := out + [ConstraintDef(names.value[i], "unique")];
      i := i + 1;
    }
    assert names.value[..i] == names.value;
    return Some(out);
  }

  /** The foreign-key entries of the survey are the names of the foreign keys, in order. */
  lemma SurveyNamesTheKeys(cat: Catalog, table: string, enforced: bool)
    ensures KeyNamesOf(ForeignKeysOf(cat, table, enforced)) == ConstraintNames(table, DistinctIds(KeyRows(cat, table)))
  {
    var g := Grouped(table, enforced, KeyRows(cat, table));
    GroupingNames(table, enforced, KeyRows(cat, table));
    assert KeyNamesOf(ForeignKeysOf(cat, table, enforced)) == KeyNamesOf(g);
  }

  // ---- ListReferrers ----

  /** The columns of rows whose target is `to` in any letter case. */
  function ReferringColumns(rows: seq<ForeignKeyRow>, to: string): seq<string> {
    if rows == [] then []
    else ReferringColumns(rows[..|rows| - 1], to)
         + if Fold(rows[|rows| - 1].target) == Fold(to) then [rows[|rows| - 1].from] else []
  }

  lemma {:induction false} SpellingFree(rows: seq<ForeignKeyRow>, a: string, b: string)
    requires Fold(a) == Fold(b)
    ensures ReferringColumns(rows, a) == ReferringColumns(rows, b)
    decreases |rows|
  {
    if rows != [] { SpellingFree(rows[..|rows| - 1], a, b); }
  }

  method ReferrerFields(pool: Pool, cat: Catalog, from: string, to: string) returns (r: Option<seq<string>>)
    requires pool.free > 0
    modifies pool, pool.env
    ensures pool.free == old(pool.free) && old(pool.env.asked) < pool.env.asked
    ensures r.Some? <==> pool.env.CalmSince(old(pool.env.asked))
    ensures r.Some? ==> r.value == ReferringColumns(KeyRows(cat, from), to)
  {
    r := ReadAll(pool, ReferringColumns(KeyRows(cat, from), to));
  }

  /** The referrers among some tables, in their order. */
  function ReferrersAmong(cat: Catalog, tables: seq<string>, to: string): seq<Referrer> {
    if tables == [] then []
    else
      var t := tables[|tables| - 1];
      ReferrersAmong(cat, tables[..|tables| - 1], to)
      + if t != to && ReferringColumns(KeyRows(cat, t), to) != []
        then [Referrer(t, ReferringColumns(KeyRows(cat, t), to))] else []
  }

  /** A table is among them exactly when it is another one with a column referring to the target,
      and it is listed with exactly those columns. */
  lemma {:induction false} ReferrersLaw(cat: Catalog, tables: seq<string>, to: string, x: Referrer)
    ensures x in ReferrersAmong(cat, tables, to)
            <==> x.collection in tables && x.collection != to
                 && x.fields == ReferringColumns(KeyRows(cat, x.collection), to) != []
    decreases |tables|
  {
    if tables != [] {
      var n := |tables| - 1;
      ReferrersLaw(cat, tables[..n], to, x);
      assert tables == tables[..n] + [tables[n]];
    }
  }

  function Collections(rs: seq<Referrer>): (r: seq<string>)
    ensures |r| == |rs|
  {
    seq(|rs|, i requires 0 <= i < |rs| => rs[i].collection)
  }

  /** Referrers stand in the order of the tables, which in a listing is the alphabetical one. */
  lemma {:induction false} ReferrersInOrder(cat: Catalog, tables: seq<string>, to: string)
    requires Alphabetical(tables)
    ensures Alphabetical(Collections(ReferrersAmong(cat, tables, to)))
    decreases |tables|
  {
    if tables != [] {
      var init, t := tables[..|tables| - 1], tables[|tables| - 1];
      assert Alphabetical(init) by {
        forall i, j | 0 <= i < j < |init| ensures Before(init[i], init[j]) { assert Before(tables[i], tables[j]); }
      }
      ReferrersInOrder(cat, init, to);
      var rs := ReferrersAmong(cat, init, to);
      forall i | 0 <= i < |rs| ensures Before(rs[i].collection, t) {
        ReferrersLaw(cat, init, to, rs[i]);
        var k :| 0 <= k < |init| && init[k] == rs[i].collection;
        assert Before(tables[k], tables[|tables| - 1]);
      }
      var more := ReferrersAmong(cat, tables, to);
      var x := Referrer(t, ReferringColumns(KeyRows(cat, t), to));
      OneMoreReferrer(rs, x);
      assert more == rs || more == rs + [x];
    }
  }

  lemma OneMoreReferrer(rs: seq<Referrer>, x: Referrer)
    requires Alphabetical(Collections(rs)) && forall i | 0 <= i < |rs| :: Before(rs[i].collection, x.collection)
    ensures Alphabetical(Collections(rs + [x]))
  {
    var all := Collections(rs + [x]);
    forall i, j | 0 <= i < j < |all| ensures Before(all[i], all[j]) {
      if j < |rs| { assert Before(Collections(rs)[i], Collections(rs)[j]); }
    }
  }

  /** ListReferrers: the referrers among all collections, in alphabetical order. */
  method ListReferrers(pool: Pool, cat: Catalog, to: string) returns (r: Option<seq<Referrer>>)
    requires pool.free > 0 && KeyedByFold(cat)
    modifies pool, pool.env
    ensures pool.free == old(pool.free) && old(pool.env.asked) <= pool.env.asked
    ensures r.Some? ==> exists tables :: IsListing(cat, tables) && r.value == ReferrersAmong(cat, tables, to)
    ensures Listed(cat, "") ==> r.None?
    ensures !Listed(cat, "") ==> (r.Some? <==> pool.env.CalmSince(old(pool.env.asked)))
  {
    ghost var from := pool.env.asked;
    var listed := ListCollections(pool, cat);
    if listed.None? { return None; }
    var names := listed.value;
    var out: seq<Referrer> := [];
    var i := 0;
    while i < |names|
      invariant 0 <= i <= |names| && pool.free == old(pool.free) && from <= pool.env.asked
      invariant out == ReferrersAmong(cat, names[..i], to) && pool.env.CalmSince(from)
    {
      assert names[..i + 1][..i] == names[..i];
      if names[i] != to {
        ghost var mid := pool.env.asked;
        var fields := ReferrerFields(pool, cat, names[i], to);
        if fields.None? { return None; }
        if |fields.value| > 0 {
          out := out + [Referrer(names[i], fields.value)];
        }
      }
      i := i + 1;
    }
    assert names[..i] == names;
    return Some(out);
  }

  /** The name the survey was asked for is skipped only as it is spelled: under any other spelling
      of itself, a collection is listed exactly when one of its own keys refers to it. */
  lemma SelfReferrers(cat: Catalog, tables: seq<string>, u: string, to: string, x: Referrer)
    requires IsListing(cat, tables) && Listed(cat, u) && Fold(to) == Fold(u)
    requires x == Referrer(u, ReferringColumns(KeyRows(cat, u), u))
    ensures x in ReferrersAmong(cat, tables, to) <==> to != u && SomeRowTo(KeyRows(cat, u), u)
  {
    ReferrersLaw(cat, tables, to, x);
    SpellingFree(KeyRows(cat, u), to, u);
    ColumnsShowRow(KeyRows(cat, u), u);
  }

  /** Some key row names the target in some letter case. */
  predicate SomeRowTo(rows: seq<ForeignKeyRow>, to: string) {
    exists i | 0 <= i < |rows| :: Fold(rows[i].target) == Fold(to)
  }

  lemma {:induction false} ColumnsShowRow(rows: seq<ForeignKeyRow>, to: string)
    ensures ReferringColumns(rows, to) != [] <==> SomeRowTo(rows, to)
    decreases |rows|
  {
    if rows != [] {
      var n := |rows| - 1;
      ColumnsShowRow(rows[..n], to);
      if SomeRowTo(rows[..n], to) {
        var i :| 0 <= i < n && Fold(rows[..n][i].target) == Fold(to);
        assert Fold(rows[i].target) == Fold(to);
      }
      if SomeRowTo(rows, to) && Fold(rows[n].target) != Fold(to) {
        var i :| 0 <= i < |rows| && Fold(rows[i].target) == Fold(to);
        assert Fold(rows[..n][i].target) == Fold(to);
      }
    }
  }

  // ---- The two routes agree ----

  /** Rows of one key name one target. */
  predicate Coherent(rows: seq<ForeignKeyRow>) {
    forall i | 0 < i < |rows| :: rows[i - 1].id == rows[i].id ==> rows[i - 1].target == rows[i].target
  }

  function FieldsTo(keys: seq<ForeignKeyDef>, tables: map<string, Table>, to: string): seq<string> {
    if keys == [] then []
    else FieldsTo(keys[..|keys| - 1], tables, to)
         + if Resolved(tables, keys[|keys| - 1].target) == to then keys[|keys| - 1].fields else []
  }

  /** The columns of rows whose target is `to` once it is named as the database spells it. */
  function ResolvedColumns(tables: map<string, Table>, rows: seq<ForeignKeyRow>, to: string): seq<string> {
    if rows == [] then []
    else ResolvedColumns(tables, rows[..|rows| - 1], to)
         + if Resolved(tables, rows[|rows| - 1].target) == to then [rows[|rows| - 1].from] else []
  }

  /** A target resolves to a name only when it is that name in some letter case. */
  lemma ResolvedFolds(cat: Catalog, target: string, to: string)
    requires KeyedByFold(cat) && Resolved(cat.tables, target) == to
    ensures Fold(target) == Fold(to)
  {
  }

  lemma OpenedLast(table: string, enforced: bool, init: seq<ForeignKeyRow>, r: ForeignKeyRow)
    requires init != [] && r.id == LastId(init) ==>
               var keys := Grouped(table, enforced, init); keys[|keys| - 1].target == r.target
    requires forall i | 0 <= i < |Grouped(table, enforced, init)| :: Grouped(table, enforced, init)[i].fields != []
    ensures var keys := Grouped(table, enforced, init + [r]);
            keys != [] && keys[|keys| - 1].target == r.target && forall i | 0 <= i < |keys| :: keys[i].fields != []
  {
    GroupedRow(table, enforced, init, r);
    var keys := Opened(table, enforced, init, r);
    assert forall i | 0 <= i < |keys| - 1 :: keys[i].fields != [];
  }

  /** The last key has the last row's target, and no key is without fields. */
  lemma {:induction false} LastKeyTarget(table: string, enforced: bool, rows: seq<ForeignKeyRow>)
    requires Coherent(rows) && rows != []
    ensures var keys := Grouped(table, enforced, rows); keys[|keys| - 1].target == rows[|rows| - 1].target
    ensures forall i | 0 <= i < |Grouped(table, enforced, rows)| :: Grouped(table, enforced, rows)[i].fields != []
    decreases |rows|
  {
    var init, r := rows[..|rows| - 1], rows[|rows| - 1];
    assert rows == init + [r];
    if init != [] {
      LastKeyTarget(table, enforced, init);
      assert init[|init| - 1] == rows[|rows| - 2];
    }
    OpenedLast(table, enforced, init, r);
  }

  /** Grouping rows into keys loses no column of a target. */
  lemma {:induction false} GroupedColumns(tables: map<string, Table>, table: string, enforced: bool,
                                          rows: seq<ForeignKeyRow>, to: string)
    requires Coherent(rows)
    ensures FieldsTo(Grouped(table, enforced, rows), tables, to) == ResolvedColumns(tables, rows, to)
    decreases |rows|
  {
    if rows != [] {
      var init, r := rows[..|rows| - 1], rows[|rows| - 1];
      GroupedColumns(tables, table, enforced, init, to);
      assert rows == init + [r];
      if init != [] && r.id == LastId(init) { OpenKeyTarget(table, enforced, init, r); }
      GroupedOneMore(tables, table, enforced, init, r, to);
      ResolvedOneMore(tables, init, r, to);
    }
  }

  lemma ResolvedOneMore(tables: map<string, Table>, init: seq<ForeignKeyRow>, r: ForeignKeyRow, to: string)
    ensures ResolvedColumns(tables, init + [r], to)
            == ResolvedColumns(tables, init, to) + if Resolved(tables, r.target) == to then [r.from] else []
  {
    assert (init + [r])[..|init|] == init;
  }

  /** A row of the same id has the target of the key it continues. */
  lemma OpenKeyTarget(table: string, enforced: bool, init: seq<ForeignKeyRow>, r: ForeignKeyRow)
    requires Coherent(init + [r]) && init != [] && r.id == LastId(init)
    ensures var keys := Grouped(table, enforced, init); keys[|keys| - 1].target == r.target
  {
    var rows := init + [r];
    assert Coherent(init) by {
      forall i | 0 < i < |init| && init[i - 1].id == init[i].id ensures init[i - 1].target == init[i].target {
        assert rows[i - 1].id == rows[i].id;
      }
    }
    LastKeyTarget(table, enforced, init);
    assert rows[|init| - 1].id == rows[|init|].id;
  }

  lemma FieldsToLast(tables: map<string, Table>, keys: seq<ForeignKeyDef>, k: ForeignKeyDef, to: string)
    ensures FieldsTo(keys + [k], tables, to) == FieldsTo(keys, tables, to)
            + if Resolved(tables, k.target) == to then k.fields else []
  {
    assert (keys + [k])[..|keys|] == keys;
  }

  /** A row added to the last key, which has its target. */
  lemma FieldsToAdded(tables: map<string, Table>, keys: seq<ForeignKeyDef>, r: ForeignKeyRow, to: string)
    requires keys != [] && keys[|keys| - 1].target == r.target
    ensures FieldsTo(keys[|keys| - 1 := AddRow(keys[|keys| - 1], r)], tables, to)
            == FieldsTo(keys, tables, to) + if Resolved(tables, r.target) == to then [r.from] else []
  {
    var front, last := keys[..|keys| - 1], keys[|keys| - 1];
    assert keys == front + [last] && keys[|keys| - 1 := AddRow(last, r)] == front + [AddRow(last, r)];
    FieldsToLast(tables, front, last, to);
    FieldsToLast(tables, front, AddRow(last, r), to);
  }

  lemma OpenedFieldsTo(tables: map<string, Table>, table: string, enforced: bool, init: seq<ForeignKeyRow>,
                       r: ForeignKeyRow, to: string)
    ensures FieldsTo(Opened(table, enforced, init, r), tables, to)
            == FieldsTo(Grouped(table, enforced, init), tables, to)
  {
    if r.id != LastId(init) { FieldsToLast(tables, Grouped(table, enforced, init), NewKey(table, enforced, r), to); }
  }

  /** A row more, in a key of its own or in the last one, which then has its target. */
  lemma GroupedOneMore(tables: map<string, Table>, table: string, enforced: bool, init: seq<ForeignKeyRow>,
                       r: ForeignKeyRow, to: string)
    requires init != [] && r.id == LastId(init) ==>
               var keys := Grouped(table, enforced, init); keys[|keys| - 1].target == r.target
    ensures FieldsTo(Grouped(table, enforced, init + [r]), tables, to)
            == FieldsTo(Grouped(table, enforced, init), tables, to)
               + if Resolved(tables, r.target) == to then [r.from] else []
  {
    OpenedTarget(table, enforced, init, r);
    GroupedRow(table, enforced, init, r);
    FieldsToAdded(tables, Opened(table, enforced, init, r), r, to);
    OpenedFieldsTo(tables, table, enforced, init, r, to);
  }

  lemma OpenedTarget(table: string, enforced: bool, init: seq<ForeignKeyRow>, r: ForeignKeyRow)
    requires init != [] && r.id == LastId(init) ==>
               var keys := Grouped(table, enforced, init); keys[|keys| - 1].target == r.target
    ensures var keys := Opened(table, enforced, init, r); keys[|keys| - 1].target == r.target
  {
  }

  /** Every row that names the target in some letter case resolves to exactly that spelling. */
  predicate Agreeing(tables: map<string, Table>, rows: seq<ForeignKeyRow>, to: string) {
    forall i | 0 <= i < |rows| && Fold(rows[i].target) == Fold(to) :: Resolved(tables, rows[i].target) == to
  }

  lemma {:induction false} ColumnsCompared(cat: Catalog, rows: seq<ForeignKeyRow>, to: string)
    requires KeyedByFold(cat)
    ensures |ResolvedColumns(cat.tables, rows, to)| <= |ReferringColumns(rows, to)|
    ensures Agreeing(cat.tables, rows, to) ==> ResolvedColumns(cat.tables, rows, to) == ReferringColumns(rows, to)
    ensures !Agreeing(cat.tables, rows, to) ==> |ResolvedColumns(cat.tables, rows, to)| < |ReferringColumns(rows, to)|
    decreases |rows|
  {
    if rows != [] {
      var n := |rows| - 1;
      ColumnsCompared(cat, rows[..n], to);
      if Resolved(cat.tables, rows[n].target) == to { ResolvedFolds(cat, rows[n].target, to); }
      assert rows == rows[..n] + [rows[n]];
      assert Agreeing(cat.tables, rows, to)
        <==> Agreeing(cat.tables, rows[..n], to)
             && (Fold(rows[n].target) == Fold(to) ==> Resolved(cat.tables, rows[n].target) == to);
    }
  }

  function FieldsToTarget(keys: seq<ForeignKeyDef>, to: string): seq<string> {
    if keys == [] then []
    else FieldsToTarget(keys[..|keys| - 1], to) + if keys[|keys| - 1].target == to then keys[|keys| - 1].fields else []
  }

  lemma {:induction false} ResolvedFields(tables: map<string, Table>, keys: seq<ForeignKeyDef>, to: string)
    ensures FieldsToTarget(ResolvedKeys(tables, keys), to) == FieldsTo(keys, tables, to)
    decreases |keys|
  {
    if keys != [] {
      ResolvedFields(tables, keys[..|keys| - 1], to);
      assert ResolvedKeys(tables, keys)[..|keys| - 1] == ResolvedKeys(tables, keys[..|keys| - 1]);
    }
  }

  predicate SomeKeyTo(keys: seq<ForeignKeyDef>, to: string) { exists i | 0 <= i < |keys| :: keys[i].target == to }

  lemma {:induction false} FieldsShowKey(keys: seq<ForeignKeyDef>, to: string)
    requires forall i | 0 <= i < |keys| :: keys[i].fields != []
    ensures FieldsToTarget(keys, to) != [] <==> SomeKeyTo(keys, to)
    decreases |keys|
  {
    if keys != [] {
      var n := |keys| - 1;
      FieldsShowKey(keys[..n], to);
      if SomeKeyTo(keys, to) {
        var i :| 0 <= i < |keys| && keys[i].target == to;
        if i < n { assert keys[..n][i].target == to; }
      }
      if SomeKeyTo(keys[..n], to) {
        var i :| 0 <= i < n && keys[..n][i].target == to;
        assert keys[i].target == to;
      }
    }
  }

  /** The survey of referrers lists the table. */
  ghost predicate IsReferrer(cat: Catalog, u: string, to: string) {
    Listed(cat, u) && u != to && ReferringColumns(KeyRows(cat, u), to) != []
  }

  lemma KeysHaveFields(cat: Catalog, u: string, enforced: bool)
    requires Coherent(KeyRows(cat, u))
    ensures var keys := ForeignKeysOf(cat, u, enforced); forall i | 0 <= i < |keys| :: keys[i].fields != []
  {
    var rows := KeyRows(cat, u);
    var g, keys := Grouped(u, enforced, rows), ForeignKeysOf(cat, u, enforced);
    if rows != [] { LastKeyTarget(u, enforced, rows); }
    forall i | 0 <= i < |keys| ensures keys[i].fields != [] {
      assert keys[i] == ResolvedKey(cat.tables, g[i]);
    }
  }

  /** The columns of the foreign keys that resolve to a target are those of the rows that do. */
  lemma KeyColumnsTo(cat: Catalog, u: string, to: string, enforced: bool)
    requires Coherent(KeyRows(cat, u))
    ensures FieldsToTarget(ForeignKeysOf(cat, u, enforced), to) == ResolvedColumns(cat.tables, KeyRows(cat, u), to)
  {
    GroupedColumns(cat.tables, u, enforced, KeyRows(cat, u), to);
    ResolvedFields(cat.tables, Grouped(u, enforced, KeyRows(cat, u)), to);
  }

  /** For every target, in any spelling and whether or not it exists: the columns the survey of
      referrers reports are the fields of the foreign keys that resolve to it, in order, if and
      only if each row naming it in some letter case resolves to the spelling asked for. */
  lemma RoutesAgreeIff(cat: Catalog, u: string, to: string, enforced: bool)
    requires KeyedByFold(cat) && Coherent(KeyRows(cat, u))
    ensures ReferringColumns(KeyRows(cat, u), to) == FieldsToTarget(ForeignKeysOf(cat, u, enforced), to)
            <==> Agreeing(cat.tables, KeyRows(cat, u), to)
  {
    KeyColumnsTo(cat, u, to, enforced);
    ColumnsCompared(cat, KeyRows(cat, u), to);
  }

  /** Referrer duality: for a target spelled as the database spells it, a listed table refers
      to it exactly when one of its foreign keys resolves to it, and the columns reported are
      the fields of those keys, in order. */
  lemma ReferrerDuality(cat: Catalog, u: string, to: string, enforced: bool)
    requires KeyedByFold(cat) && Fold(to) in cat.tables && cat.tables[Fold(to)].name == to
    requires Coherent(KeyRows(cat, u))
    ensures ReferringColumns(KeyRows(cat, u), to) == FieldsToTarget(ForeignKeysOf(cat, u, enforced), to)
    ensures Listed(cat, u) && u != to ==> (IsReferrer(cat, u, to) <==> SomeKeyTo(ForeignKeysOf(cat, u, enforced), to))
  {
    RoutesAgreeIff(cat, u, to, enforced);
    KeysHaveFields(cat, u, enforced);
    FieldsShowKey(ForeignKeysOf(cat, u, enforced), to);
  }

  /** With an existing target in another letter case no foreign key resolves to it, while the
      survey of referrers answers as for the name as it is spelled: the two part exactly when some
      key names the table at all. */
  lemma OtherSpellingsDiffer(cat: Catalog, u: string, to: string, enforced: bool)
    requires KeyedByFold(cat) && Fold(to) in cat.tables && cat.tables[Fold(to)].name != to && Coherent(KeyRows(cat, u))
    ensures ReferringColumns(KeyRows(cat, u), to) == ReferringColumns(KeyRows(cat, u), cat.tables[Fold(to)].name)
    ensures !SomeKeyTo(ForeignKeysOf(cat, u, enforced), to) && FieldsToTarget(ForeignKeysOf(cat, u, enforced), to) == []
    ensures ReferringColumns(KeyRows(cat, u), to) != FieldsToTarget(ForeignKeysOf(cat, u, enforced), to)
            <==> SomeRowTo(KeyRows(cat, u), to)
  {
    var rows := KeyRows(cat, u);
    SpellingFree(rows, to, cat.tables[Fold(to)].name);
    RoutesAgreeIff(cat, u, to, enforced);
    KeyColumnsTo(cat, u, to, enforced);
    NoneResolve(cat.tables, rows, to);
    KeysHaveFields(cat, u, enforced);
    FieldsShowKey(ForeignKeysOf(cat, u, enforced), to);
  }

  lemma {:induction false} NoneResolve(tables: map<string, Table>, rows: seq<ForeignKeyRow>, to: string)
    requires Fold(to) in tables && tables[Fold(to)].name != to && forall f | f in tables :: Fold(tables[f].name) == f
    ensures ResolvedColumns(tables, rows, to) == []
    decreases |rows|
  {
    if rows != [] { NoneResolve(tables, rows[..|rows| - 1], to); }
  }
}
