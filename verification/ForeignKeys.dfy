/** Foreign keys read from the catalog: rows grouped into keys, targets named as the database
    spells them, and keys without named target columns completed from the target's key. */
module ForeignKeys {
  import opened Text
  import opened TypeMapping
  import opened Catalog
  import opened ConnectionPool

  datatype ForeignKeyDef = ForeignKeyDef(
    name: string, fields: seq<string>, target: string, targetFields: seq<string>,
    enforced: bool, onUpdate: string, onDelete: string)

  function Digit(d: nat): char
    requires d < 10
  {
    (d + 48) as char
  }

  /** %d of a non-negative number. */
  function Itoa(n: nat): string {
    if n < 10 then [Digit(n)] else Itoa(n / 10) + [Digit(n % 10)]
  }

  function KeyName(table: string, id: nat): string { table + "_fk_" + Itoa(id) }

  lemma ItoaLast(n: nat)
    ensures var s := Itoa(n); s != "" && s[|s| - 1] == Digit(n % 10) && s[..|s| - 1] == if n < 10 then ""
            else Itoa(n / 10)
  {
  }

  lemma {:induction false} ItoaInjective(a: nat, b: nat)
    requires Itoa(a) == Itoa(b)
    ensures a == b
    decreases a
  {
    ItoaLast(a);
    ItoaLast(b);
    assert Digit(a % 10) == Digit(b % 10);
    if a >= 10 { ItoaLast(a / 10); }
    if b >= 10 { ItoaLast(b / 10); }
    if a >= 10 && b >= 10 { ItoaInjective(a / 10, b / 10); }
  }

  /** The decimal digits of a number, without a leading zero. */
  predicate DenotesNat(s: string, n: nat) { Digits(s) && DecimalValue(s) == n && (|s| > 1 ==> s[0] != '0') }

  lemma {:induction false} ItoaDenotes(n: nat)
    ensures DenotesNat(Itoa(n), n) && (n > 0 ==> Itoa(n)[0] != '0')
    decreases n
  {
    if n >= 10 {
      ItoaDenotes(n / 10);
      assert Itoa(n)[..|Itoa(n)| - 1] == Itoa(n / 10);
    } else {
      assert Itoa(n)[..0] == "";
    }
  }

  /** The name of a key is its table's, "_fk_" and its id in decimal. */
  lemma KeyNameLaw(table: string, id: nat)
    ensures exists digits :: DenotesNat(digits, id) && KeyName(table, id) == table + "_fk_" + digits
  {
    ItoaDenotes(id);
    assert KeyName(table, id) == table + "_fk_" + Itoa(id);
  }

  // ---- What the loop over the rows computes ----

  function LastId(rows: seq<ForeignKeyRow>): int { if rows == [] then -1 else rows[|rows| - 1].id }

  function NewKey(table: string, enforced: bool, r: ForeignKeyRow): ForeignKeyDef {
    ForeignKeyDef(KeyName(table, r.id), [], r.target, [], enforced, r.onUpdate, r.onDelete)
  }

  predicate Named(to: Option<string>) { to.Some? && to.value != "" }

  function AddRow(k: ForeignKeyDef, r: ForeignKeyRow): ForeignKeyDef {
    k.(fields := k.fields + [r.from], targetFields := k.targetFields + if Named(r.to) then [r.to.value] else [])
  }

  function Grouped(table: string, enforced: bool, rows: seq<ForeignKeyRow>): (keys: seq<ForeignKeyDef>)
    ensures rows != [] ==> keys != []
  {
    if rows == [] then []
    else
      var init, r := rows[..|rows| - 1], rows[|rows| - 1];
      var keys := Grouped(table, enforced, init);
      var opened' := if r.id != LastId(init) then keys + [NewKey(table, enforced, r)] else keys;
      assert opened' != [] by { if init != [] {} else { assert LastId(init) == -1; } }
      opened'[|opened'| - 1 := AddRow(opened'[|opened'| - 1], r)]
  }

  /** The keys a row is added to the last of. */
  function Opened(table: string, enforced: bool, init: seq<ForeignKeyRow>, r: ForeignKeyRow): (keys: seq<ForeignKeyDef>)
    ensures keys != []
  {
    var keys := Grouped(table, enforced, init);
    if r.id != LastId(init) then keys + [NewKey(table, enforced, r)]
    else assert init != []; keys
  }

  lemma GroupedRow(table: string, enforced: bool, init: seq<ForeignKeyRow>, r: ForeignKeyRow)
    ensures var keys := Opened(table, enforced, init, r);
            Grouped(table, enforced, init + [r]) == keys[|keys| - 1 := AddRow(keys[|keys| - 1], r)]
  {
    assert (init + [r])[..|init|] == init;
  }

  // ---- Grouping loses nothing ----

  function Flatten(keys: seq<ForeignKeyDef>): seq<string> {
    if keys == [] then [] else Flatten(keys[..|keys| - 1]) + keys[|keys| - 1].fields
  }

  function FromColumns(rows: seq<ForeignKeyRow>): (r: seq<string>)
    ensures |r| == |rows|
  {
    seq(|rows|, i requires 0 <= i < |rows| => rows[i].from)
  }

  lemma FlattenLast(keys: seq<ForeignKeyDef>, k: ForeignKeyDef)
    ensures Flatten(keys + [k]) == Flatten(keys) + k.fields
  {
    assert (keys + [k])[..|keys|] == keys;
  }

  /** Adding a row to the last of some keys adds its column at the end. */
  lemma FlattenAdded(keys: seq<ForeignKeyDef>, r: ForeignKeyRow)
    requires keys != []
    ensures Flatten(keys[|keys| - 1 := AddRow(keys[|keys| - 1], r)]) == Flatten(keys) + [r.from]
  {
    var init, last := keys[..|keys| - 1], keys[|keys| - 1];
    assert keys == init + [last];
    assert keys[|keys| - 1 := AddRow(last, r)] == init + [AddRow(last, r)];
    FlattenLast(init, last);
    FlattenLast(init, AddRow(last, r));
  }

  lemma FromColumnsStep(init: seq<ForeignKeyRow>, r: ForeignKeyRow)
    ensures FromColumns(init + [r]) == FromColumns(init) + [r.from]
  {
  }

  lemma OpenedFlat(table: string, enforced: bool, init: seq<ForeignKeyRow>, r: ForeignKeyRow)
    ensures Flatten(Opened(table, enforced, init, r)) == Flatten(Grouped(table, enforced, init))
  {
    if r.id != LastId(init) {
      FlattenLast(Grouped(table, enforced, init), NewKey(table, enforced, r));
      assert NewKey(table, enforced, r).fields == [];
    }
  }

  /** Flattening the keys' fields gives back the rows' columns in order. */
  lemma {:induction false} GroupingKeepsColumns(table: string, enforced: bool, rows: seq<ForeignKeyRow>)
    ensures Flatten(Grouped(table, enforced, rows)) == FromColumns(rows)
    decreases |rows|
  {
    if rows != [] {
      var init, r := rows[..|rows| - 1], rows[|rows| - 1];
      assert rows == init + [r];
      GroupingKeepsColumns(table, enforced, init);
      GroupedRow(table, enforced, init, r);
      OpenedFlat(table, enforced, init, r);
      FlattenAdded(Opened(table, enforced, init, r), r);
      FromColumnsStep(init, r);
    }
  }

  /** SELECT DISTINCT id ... ORDER BY id, on rows in id order. */
  function DistinctIds(rows: seq<ForeignKeyRow>): seq<nat> {
    if rows == [] then []
    else
      var init, r := rows[..|rows| - 1], rows[|rows| - 1];
      DistinctIds(init) + if r.id != LastId(init) then [r.id] else []
  }

  predicate Ordered(rows: seq<ForeignKeyRow>) {
    forall i, j | 0 <= i < j < |rows| :: rows[i].id <= rows[j].id
  }

  lemma DistinctStep(init: seq<ForeignKeyRow>, r: ForeignKeyRow)
    ensures DistinctIds(init + [r]) == DistinctIds(init) + if r.id != LastId(init) then [r.id] else []
  {
    assert (init + [r])[..|init|] == init;
  }

  predicate HasId(rows: seq<ForeignKeyRow>, x: nat) { exists i | 0 <= i < |rows| :: rows[i].id == x }

  lemma HasIdStep(init: seq<ForeignKeyRow>, r: ForeignKeyRow, x: nat)
    ensures HasId(init + [r], x) <==> HasId(init, x) || r.id == x
  {
    var rows := init + [r];
    if HasId(init, x) {
      var i :| 0 <= i < |init| && init[i].id == x;
      assert rows[i].id == x;
    }
    if r.id == x { assert rows[|init|].id == x; }
    if HasId(rows, x) {
      var i :| 0 <= i < |rows| && rows[i].id == x;
      if i < |init| { assert init[i].id == x; }
    }
  }

  /** The distinct ids are exactly the rows' ids. */
  lemma {:induction false} DistinctIdsMembers(rows: seq<ForeignKeyRow>, x: nat)
    ensures x in DistinctIds(rows) <==> HasId(rows, x)
    decreases |rows|
  {
    if rows != [] {
      var init, r := rows[..|rows| - 1], rows[|rows| - 1];
      assert rows == init + [r];
      DistinctIdsMembers(init, x);
      DistinctStep(init, r);
      HasIdStep(init, r, x);
      if init != [] { LastHasId(init); }
    }
  }

  lemma LastHasId(rows: seq<ForeignKeyRow>)
    requires rows != []
    ensures HasId(rows, rows[|rows| - 1].id)
  {
  }

  /** The last distinct id is the last row's. */
  lemma {:induction false} DistinctLast(rows: seq<ForeignKeyRow>)
    requires rows != []
    ensures DistinctIds(rows) != [] && DistinctIds(rows)[|DistinctIds(rows)| - 1] == LastId(rows)
    decreases |rows|
  {
    var init, r := rows[..|rows| - 1], rows[|rows| - 1];
    assert rows == init + [r];
    DistinctStep(init, r);
    if init != [] && r.id == LastId(init) { DistinctLast(init); }
  }

  predicate Rising(ids: seq<nat>) { forall i, j | 0 <= i < j < |ids| :: ids[i] < ids[j] }

  lemma RisingThen(ids: seq<nat>, last: nat)
    requires Rising(ids) && (ids != [] ==> ids[|ids| - 1] < last)
    ensures Rising(ids + [last])
  {
  }

  lemma OrderedInit(init: seq<ForeignKeyRow>, r: ForeignKeyRow)
    requires Ordered(init + [r])
    ensures Ordered(init) && (init != [] ==> LastId(init) <= r.id)
  {
    var rows := init + [r];
    forall i, j | 0 <= i < j < |init| ensures init[i].id <= init[j].id { assert rows[i].id <= rows[j].id; }
    if init != [] { assert rows[|init| - 1].id <= rows[|init|].id; }
  }

  lemma {:induction false} DistinctRise(rows: seq<ForeignKeyRow>)
    requires Ordered(rows)
    ensures Rising(DistinctIds(rows))
    decreases |rows|
  {
    if rows != [] {
      var init, r := rows[..|rows| - 1], rows[|rows| - 1];
      assert rows == init + [r];
      OrderedInit(init, r);
      DistinctRise(init);
      DistinctStep(init, r);
      if r.id != LastId(init) {
        if init != [] { DistinctLast(init); }
        RisingThen(DistinctIds(init), r.id);
      }
    }
  }

  /** The distinct ids of rows in id order are exactly the rows' ids, strictly ascending. */
  lemma DistinctIdsLaw(rows: seq<ForeignKeyRow>)
    requires Ordered(rows)
    ensures Rising(DistinctIds(rows)) && forall x :: x in DistinctIds(rows) <==> HasId(rows, x)
  {
    DistinctRise(rows);
    forall x ensures x in DistinctIds(rows) <==> HasId(rows, x) { DistinctIdsMembers(rows, x); }
  }

  function KeyNamesOf(keys: seq<ForeignKeyDef>): (r: seq<string>)
    ensures |r| == |keys|
  {
    seq(|keys|, i requires 0 <= i < |keys| => keys[i].name)
  }

  function ConstraintNames(table: string, ids: seq<nat>): (r: seq<string>)
    ensures |r| == |ids|
  {
    seq(|ids|, i requires 0 <= i < |ids| => KeyName(table, ids[i]))
  }

  /** One key for each distinct id, in order, under the names the constraint survey gives. */
  lemma {:induction false} GroupingNames(table: string, enforced: bool, rows: seq<ForeignKeyRow>)
    ensures KeyNamesOf(Grouped(table, enforced, rows)) == ConstraintNames(table, DistinctIds(rows))
    decreases |rows|
  {
    if rows != [] {
      var init, r := rows[..|rows| - 1], rows[|rows| - 1];
      GroupingNames(table, enforced, init);
      var keys, all := Grouped(table, enforced, init), Grouped(table, enforced, rows);
      if r.id != LastId(init) {
        assert KeyNamesOf(all) == KeyNamesOf(keys) + [KeyName(table, r.id)];
        assert ConstraintNames(table, DistinctIds(init) + [r.id])
          == ConstraintNames(table, DistinctIds(init)) + [KeyName(table, r.id)];
      } else {
        assert KeyNamesOf(all) == KeyNamesOf(keys);
      }
    }
  }

  // ---- Resolving targets ----

  function Resolved(tables: map<string, Table>, target: string): string {
    if Fold(target) in tables then tables[Fold(target)].name else target
  }

  /** pragma_table_info of the target, key columns in key order. */
  function TargetKey(tables: map<string, Table>, target: string): seq<string> {
    if Fold(target) in tables then KeyOf(tables[Fold(target)].cols) else []
  }

  function ResolvedKey(tables: map<string, Table>, k: ForeignKeyDef): ForeignKeyDef {
    var target := Resolved(tables, k.target);
    k.(target := target, targetFields := if k.targetFields != [] then k.targetFields else TargetKey(tables, target))
  }

  function ResolvedKeys(tables: map<string, Table>, keys: seq<ForeignKeyDef>): (r: seq<ForeignKeyDef>)
    ensures |r| == |keys|
  {
    seq(|keys|, i requires 0 <= i < |keys| => ResolvedKey(tables, keys[i]))
  }

  function KeyRows(cat: Catalog, table: string): seq<ForeignKeyRow> {
    if Fold(table) in cat.tables then cat.tables[Fold(table)].foreignKeys else []
  }

  /** The foreign keys of a table. */
  function ForeignKeysOf(cat: Catalog, table: string, enforced: bool): seq<ForeignKeyDef> {
    ResolvedKeys(cat.tables, Grouped(table, enforced, KeyRows(cat, table)))
  }

  ghost predicate KeyedByFold(cat: Catalog) {
    forall f | f in cat.tables :: Fold(cat.tables[f].name) == f
  }

  /** A key ends with its fields unchanged and its target as the database spells it; the target
      columns are those it named or, when it named none, the target's primary key in key order. */
  lemma UnnamedTargetsTakeTheKey(cat: Catalog, table: string, enforced: bool, i: nat)
    requires KeyedByFold(cat) && i < |ForeignKeysOf(cat, table, enforced)|
    ensures var k := ForeignKeysOf(cat, table, enforced)[i];
            var g := Grouped(table, enforced, KeyRows(cat, table))[i];
            && k.fields == g.fields && k.name == g.name && k.enforced == g.enforced
            && k.onUpdate == g.onUpdate && k.onDelete == g.onDelete
            && k.target == (if Fold(g.target) in cat.tables then cat.tables[Fold(g.target)].name else g.target)
            && k.targetFields == if g.targetFields != [] then g.targetFields
                                 else if Fold(g.target) in cat.tables then KeyOf(cat.tables[Fold(g.target)].cols)
                                   else []
  {
    var g := Grouped(table, enforced, KeyRows(cat, table))[i];
    assert ForeignKeysOf(cat, table, enforced)[i] == ResolvedKey(cat.tables, g);
  }

  // ---- Each key against the rows of its id ----

  /** The rows of one id, in order. */
  function RowsOf(rows: seq<ForeignKeyRow>, id: nat): seq<ForeignKeyRow> {
    if rows == [] then []
    else RowsOf(rows[..|rows| - 1], id) + if rows[|rows| - 1].id == id then [rows[|rows| - 1]] else []
  }

  /** The target columns the rows name, in order. */
  function NamedTargets(rows: seq<ForeignKeyRow>): seq<string> {
    if rows == [] then []
    else NamedTargets(rows[..|rows| - 1]) + if Named(rows[|rows| - 1].to) then [rows[|rows| - 1].to.value] else []
  }

  /** Name from the table and the id; target and both actions from the first row; the columns from
      every row in order. */
  predicate KeyOfRows(k: ForeignKeyDef, table: string, enforced: bool, id: nat, mine: seq<ForeignKeyRow>) {
    && mine != [] && k.name == KeyName(table, id) && k.enforced == enforced
    && k.target == mine[0].target && k.onUpdate == mine[0].onUpdate && k.onDelete == mine[0].onDelete
    && k.fields == FromColumns(mine) && k.targetFields == NamedTargets(mine)
  }

  lemma RowsStep(init: seq<ForeignKeyRow>, r: ForeignKeyRow, id: nat)
    ensures RowsOf(init + [r], id) == RowsOf(init, id) + if r.id == id then [r] else []
  {
    assert (init + [r])[..|init|] == init;
  }

  lemma {:induction false} NoRows(rows: seq<ForeignKeyRow>, id: nat)
    requires !HasId(rows, id)
    ensures RowsOf(rows, id) == []
    decreases |rows|
  {
    if rows != [] {
      var init, r := rows[..|rows| - 1], rows[|rows| - 1];
      assert rows == init + [r];
      HasIdStep(init, r, id);
      NoRows(init, id);
    }
  }

  lemma OneMoreRow(k: ForeignKeyDef, table: string, enforced: bool, id: nat, mine: seq<ForeignKeyRow>,
                   r: ForeignKeyRow)
    requires KeyOfRows(k, table, enforced, id, mine)
    ensures KeyOfRows(AddRow(k, r), table, enforced, id, mine + [r])
  {
    FromColumnsStep(mine, r);
    assert (mine + [r])[..|mine|] == mine;
  }

  lemma FirstRow(table: string, enforced: bool, r: ForeignKeyRow)
    ensures KeyOfRows(AddRow(NewKey(table, enforced, r), r), table, enforced, r.id, [r])
  {
    FromColumnsStep([], r);
    assert [] + [r] == [r] && [r][..0] == [];
  }

  /** Every key of the grouping is that of its id's rows. */
  ghost predicate EachOfItsRows(keys: seq<ForeignKeyDef>, table: string, enforced: bool, rows: seq<ForeignKeyRow>) {
    var ids := DistinctIds(rows);
    |keys| == |ids| && forall i | 0 <= i < |ids| :: KeyOfRows(keys[i], table, enforced, ids[i], RowsOf(rows, ids[i]))
  }

  lemma OldRows(init: seq<ForeignKeyRow>, r: ForeignKeyRow, ids: seq<nat>)
    requires forall i | 0 <= i < |ids| :: ids[i] != r.id
    ensures forall i | 0 <= i < |ids| :: RowsOf(init + [r], ids[i]) == RowsOf(init, ids[i])
  {
    forall i | 0 <= i < |ids| ensures RowsOf(init + [r], ids[i]) == RowsOf(init, ids[i]) {
      RowsStep(init, r, ids[i]);
    }
  }

  /** A row of a new id opens a key. */
  lemma GroupOpens(table: string, enforced: bool, init: seq<ForeignKeyRow>, r: ForeignKeyRow)
    requires Ordered(init + [r]) && EachOfItsRows(Grouped(table, enforced, init), table, enforced, init)
    requires r.id != LastId(init)
    ensures EachOfItsRows(Grouped(table, enforced, init + [r]), table, enforced, init + [r])
  {
    NewIdIsNew(init, r);
    OneOpened(Grouped(table, enforced, init), DistinctIds(init), table, enforced, init, r);
    DistinctStep(init, r);
    GroupedOpens(table, enforced, init, r);
  }

  lemma GroupedOpens(table: string, enforced: bool, init: seq<ForeignKeyRow>, r: ForeignKeyRow)
    requires r.id != LastId(init)
    ensures Grouped(table, enforced, init + [r])
            == Grouped(table, enforced, init) + [AddRow(NewKey(table, enforced, r), r)]
  {
    var keys, k := Grouped(table, enforced, init), NewKey(table, enforced, r);
    GroupedRow(table, enforced, init, r);
    assert (keys + [k])[|keys| := AddRow(k, r)] == keys + [AddRow(k, r)];
  }

  lemma NewIdIsNew(init: seq<ForeignKeyRow>, r: ForeignKeyRow)
    requires Ordered(init + [r]) && r.id != LastId(init)
    ensures !HasId(init, r.id) && forall i | 0 <= i < |DistinctIds(init)| :: DistinctIds(init)[i] != r.id
  {
    NewIsLater(init, r);
    var ids := DistinctIds(init);
    forall i | 0 <= i < |ids| ensures ids[i] != r.id { DistinctIdsMembers(init, ids[i]); }
  }

  lemma OneOpened(keys: seq<ForeignKeyDef>, ids: seq<nat>, table: string, enforced: bool, init: seq<ForeignKeyRow>,
                  r: ForeignKeyRow)
    requires |keys| == |ids| && !HasId(init, r.id) && forall i | 0 <= i < |ids| :: ids[i] != r.id
    requires forall i | 0 <= i < |ids| :: KeyOfRows(keys[i], table, enforced, ids[i], RowsOf(init, ids[i]))
    ensures var keys', ids' := keys + [AddRow(NewKey(table, enforced, r), r)], ids + [r.id];
            forall i | 0 <= i < |ids'| ::
              KeyOfRows(keys'[i], table, enforced, ids'[i], RowsOf(init + [r], ids'[i]))
  {
    OldRows(init, r, ids);
    NoRows(init, r.id);
    RowsStep(init, r, r.id);
    assert RowsOf(init + [r], r.id) == [r];
    FirstRow(table, enforced, r);
  }

  /** A row of the last id continues the last key. */
  lemma GroupContinues(table: string, enforced: bool, init: seq<ForeignKeyRow>, r: ForeignKeyRow)
    requires Ordered(init) && EachOfItsRows(Grouped(table, enforced, init), table, enforced, init)
    requires init != [] && r.id == LastId(init)
    ensures EachOfItsRows(Grouped(table, enforced, init + [r]), table, enforced, init + [r])
  {
    var keys, ids := Grouped(table, enforced, init), DistinctIds(init);
    DistinctLast(init);
    DistinctRise(init);
    DistinctStep(init, r);
    GroupedRow(table, enforced, init, r);
    LastContinued(keys, ids, table, enforced, init, r);
  }

  lemma LastContinued(keys: seq<ForeignKeyDef>, ids: seq<nat>, table: string, enforced: bool, init: seq<ForeignKeyRow>,
                      r: ForeignKeyRow)
    requires |keys| == |ids| > 0 && Rising(ids) && ids[|ids| - 1] == r.id
    requires forall i | 0 <= i < |ids| :: KeyOfRows(keys[i], table, enforced, ids[i], RowsOf(init, ids[i]))
    ensures var keys' := keys[|keys| - 1 := AddRow(keys[|keys| - 1], r)];
            forall i | 0 <= i < |ids| :: KeyOfRows(keys'[i], table, enforced, ids[i], RowsOf(init + [r], ids[i]))
  {
    var n := |ids| - 1;
    forall i | 0 <= i < |ids|
      ensures KeyOfRows(if i == n then AddRow(keys[n], r) else keys[i], table, enforced, ids[i],
                        RowsOf(init + [r], ids[i])) {
      RowsStep(init, r, ids[i]);
      if i == n {
        OneMoreRow(keys[n], table, enforced, ids[n], RowsOf(init, ids[n]), r);
      } else {
        assert RowsOf(init + [r], ids[i]) == RowsOf(init, ids[i]);
      }
    }
  }

  lemma NewIsLater(init: seq<ForeignKeyRow>, r: ForeignKeyRow)
    requires Ordered(init + [r]) && r.id != LastId(init)
    ensures !HasId(init, r.id)
  {
    OrderedInit(init, r);
    forall i | 0 <= i < |init| ensures init[i].id <= init[|init| - 1].id {}
  }

  lemma {:induction false} GroupedByRows(table: string, enforced: bool, rows: seq<ForeignKeyRow>)
    requires Ordered(rows)
    ensures EachOfItsRows(Grouped(table, enforced, rows), table, enforced, rows)
    decreases |rows|
  {
    if rows != [] {
      var init, r := rows[..|rows| - 1], rows[|rows| - 1];
      assert rows == init + [r];
      OrderedInit(init, r);
      GroupedByRows(table, enforced, init);
      if r.id != LastId(init) {
        GroupOpens(table, enforced, init, r);
      } else {
        GroupContinues(table, enforced, init, r);
      }
    }
  }

  /** When every row names its target column, the pairs of columns stay together. */
  lemma {:induction false} TargetsPair(rows: seq<ForeignKeyRow>)
    requires forall i | 0 <= i < |rows| :: Named(rows[i].to)
    ensures |NamedTargets(rows)| == |rows| && forall i | 0 <= i < |rows| :: rows[i].to == Some(NamedTargets(rows)[i])
    decreases |rows|
  {
    if rows != [] { TargetsPair(rows[..|rows| - 1]); }
  }

  lemma {:induction false} NoTargets(rows: seq<ForeignKeyRow>)
    ensures NamedTargets(rows) == [] <==> forall i | 0 <= i < |rows| :: !Named(rows[i].to)
    decreases |rows|
  {
    if rows != [] {
      var n := |rows| - 1;
      NoTargets(rows[..n]);
      assert rows == rows[..n] + [rows[n]];
    }
  }

  /** The foreign keys of a table against its rows alone: one for each distinct id, ascending. Each
      is enforced as the database says; its actions are those of the first row of its id; its fields
      are the rows' columns in order; its target is named as the database spells it, when it holds
      it; its target columns are those the rows name, in the same order, or the target's key. */
  lemma ForeignKeyLaw(cat: Catalog, table: string, enforced: bool)
    requires KeyedByFold(cat) && Ordered(KeyRows(cat, table))
    ensures var keys, rows := ForeignKeysOf(cat, table, enforced), KeyRows(cat, table);
            var ids := DistinctIds(rows);
            |keys| == |ids| && forall i | 0 <= i < |ids| ::
              KeyReported(cat, keys[i], table, enforced, ids[i], RowsOf(rows, ids[i]))
  {
    var rows := KeyRows(cat, table);
    var ids, keys := DistinctIds(rows), ForeignKeysOf(cat, table, enforced);
    GroupedByRows(table, enforced, rows);
    forall i | 0 <= i < |ids| ensures KeyReported(cat, keys[i], table, enforced, ids[i], RowsOf(rows, ids[i])) {
      UnnamedTargetsTakeTheKey(cat, table, enforced, i);
      var mine := RowsOf(rows, ids[i]);
      assert KeyOfRows(Grouped(table, enforced, rows)[i], table, enforced, ids[i], mine);
      if forall j | 0 <= j < |mine| :: Named(mine[j].to) { TargetsPair(mine); }
      NoTargets(mine);
    }
  }

  ghost predicate KeyReported(cat: Catalog, k: ForeignKeyDef, table: string, enforced: bool, id: nat,
                              mine: seq<ForeignKeyRow>) {
    && mine != [] && k.name == KeyName(table, id) && k.enforced == enforced
    && k.onUpdate == mine[0].onUpdate && k.onDelete == mine[0].onDelete
    && k.target
       == (if Fold(mine[0].target) in cat.tables then cat.tables[Fold(mine[0].target)].name else mine[0].target)
    && |k.fields| == |mine| && (forall j | 0 <= j < |mine| :: k.fields[j] == mine[j].from)
    && ((forall j | 0 <= j < |mine| :: Named(mine[j].to)) ==>
          |k.targetFields| == |mine| && forall j | 0 <= j < |mine| :: mine[j].to == Some(k.targetFields[j]))
    && (NamedTargets(mine) == [] <==> forall j | 0 <= j < |mine| :: !Named(mine[j].to))
    && k.targetFields == (if NamedTargets(mine) != [] then NamedTargets(mine)
                          else if Fold(mine[0].target) in cat.tables
                            then KeyOf(cat.tables[Fold(mine[0].target)].cols) else [])
  }

  /** The rows of an id are exactly the rows that have it. */
  lemma {:induction false} RowsOfLaw(rows: seq<ForeignKeyRow>, id: nat, r: ForeignKeyRow)
    ensures r in RowsOf(rows, id) <==> r in rows && r.id == id
    decreases |rows|
  {
    if rows != [] {
      var n := |rows| - 1;
      RowsOfLaw(rows[..n], id, r);
      assert rows == rows[..n] + [rows[n]];
    }
  }

  // ---- The reader ----

  predicate Once(names: seq<string>) { forall i, j | 0 <= i < j < |names| :: names[i] != names[j] }

  predicate TableNamed(cat: Catalog, n: string) { exists f | f in cat.tables :: cat.tables[f].name == n }

  /** Names of the tables, each once, in some order. */
  method TableNames(cat: Catalog) returns (names: seq<string>)
    requires KeyedByFold(cat)
    ensures forall n :: n in names <==> TableNamed(cat, n)
    ensures Once(names)
  {
    names := [];
    var left := cat.tables.Keys;
    while left != {}
      invariant left <= cat.tables.Keys && Once(names)
      invariant forall n :: n in names <==> exists f | f in cat.tables.Keys - left :: cat.tables[f].name == n
      decreases |left|
    {
      var f :| f in left;
      assert cat.tables[f].name !in names by {
        forall g | g in cat.tables.Keys - left
          ensures cat.tables[g].name != cat.tables[f].name { assert Fold(cat.tables[g].name) == g; }
      }
      left := left - {f};
      names := names + [cat.tables[f].name];
    }
  }

  ghost predicate SpelledAs(cat: Catalog, spelled: map<string, string>) {
    && spelled.Keys == cat.tables.Keys
    && forall f | f in spelled :: spelled[f] == cat.tables[f].name
  }

  /** Each name under its folded form. */
  function SpellingsOf(names: seq<string>): map<string, string> {
    if names == [] then map[]
    else
      var last := names[|names| - 1];
      SpellingsOf(names[..|names| - 1])[Fold(last) := last]
  }

  lemma SpellingsStep(names: seq<string>, n: nat)
    requires n < |names|
    ensures SpellingsOf(names[..n + 1]) == SpellingsOf(names[..n])[Fold(names[n]) := names[n]]
  {
    assert names[..n + 1][..n] == names[..n];
  }

  lemma {:induction false} SpellingsLaw(cat: Catalog, names: seq<string>)
    requires KeyedByFold(cat) && forall n | n in names :: TableNamed(cat, n)
    ensures forall n | n in names :: Fold(n) in SpellingsOf(names)
    ensures forall f | f in SpellingsOf(names) :: f in cat.tables && SpellingsOf(names)[f] == cat.tables[f].name
    decreases |names|
  {
    if names != [] {
      var init, last := names[..|names| - 1], names[|names| - 1];
      assert names == init + [last];
      SpellingsLaw(cat, init);
      assert TableNamed(cat, last);
      var g :| g in cat.tables && cat.tables[g].name == last;
      assert g == Fold(last);
    }
  }

  lemma AllSpelled(cat: Catalog, names: seq<string>)
    requires KeyedByFold(cat) && forall n :: n in names <==> TableNamed(cat, n)
    ensures SpelledAs(cat, SpellingsOf(names))
  {
    SpellingsLaw(cat, names);
    forall f | f in cat.tables ensures f in SpellingsOf(names) {
      assert TableNamed(cat, cat.tables[f].name);
      assert Fold(cat.tables[f].name) == f;
    }
  }

  /** The loop over the names. */
  method SpellRows(rows: Rows<string>, ghost from: nat) returns (r: Option<map<string, string>>)
    requires rows.Started(rows.data) && !rows.holds && from <= rows.home.env.asked && rows.home.env.CalmSince(from)
    modifies rows, rows.home`free, rows.home.env
    ensures rows.home.free == old(rows.home.free) && from <= rows.home.env.asked
    ensures r.Some? <==> rows.home.env.CalmSince(from)
    ensures r.Some? ==> r.value == SpellingsOf(rows.data)
  {
    var spelled: map<string, string> := map[];
    ghost var names, n := rows.data, 0;
    assert names[..0] == [];
    var has, row := rows.Fetch(from);
    while has
      invariant rows.Fetched(from, has, row) && rows.home.free == old(rows.home.free)
      invariant rows.read == n + (if has then 1 else 0) && spelled == SpellingsOf(names[..n])
      decreases |rows.data| - rows.read, has
    {
      if row.None? { rows.Close(); return None; }
      SpellingsStep(names, n);
      spelled := spelled[Fold(row.value) := row.value];
      n := n + 1;
      has, row := rows.Fetch(from);
    }
    rows.Close();
    if rows.failed { return None; }
    assert names[..n] == names;
    return Some(spelled);
  }

  method TableSpellings(conn: Conn, cat: Catalog, keys: seq<ForeignKeyDef>) returns (r: Option<map<string, string>>)
    requires conn.held && KeyedByFold(cat)
    modifies conn.pool`free, conn.pool.env
    ensures conn.pool.free == old(conn.pool.free) && old(conn.pool.env.asked) <= conn.pool.env.asked
    ensures r.Some? <==> conn.pool.env.CalmSince(old(conn.pool.env.asked))
    ensures r.Some? && keys != [] ==> SpelledAs(cat, r.value)
  {
    if |keys| == 0 { return Some(map[]); }
    var names := TableNames(cat);
    ghost var from := conn.pool.env.asked;
    var rows := conn.Query(names);
    if rows == null { return None; }
    r := SpellRows(rows, from);
    if r.Some? { AllSpelled(cat, names); }
  }

  lemma GroupedStep(table: string, enforced: bool, data: seq<ForeignKeyRow>, n: nat)
    requires n < |data|
    ensures LastId(data[..n + 1]) == data[n].id
    ensures var keys := Opened(table, enforced, data[..n], data[n]);
            Grouped(table, enforced, data[..n + 1]) == keys[|keys| - 1 := AddRow(keys[|keys| - 1], data[n])]
  {
    assert data[..n + 1] == data[..n] + [data[n]];
    GroupedRow(table, enforced, data[..n], data[n]);
  }

  /** One row: a new key when the id changes, then the row's columns to the last key. */
  method GroupRow(table: string, enforced: bool, keys: seq<ForeignKeyDef>, lastID: int, row: ForeignKeyRow,
                  ghost data: seq<ForeignKeyRow>, ghost n: nat)
    returns (keys': seq<ForeignKeyDef>, lastID': int)
    requires n < |data| && row == data[n] && keys == Grouped(table, enforced, data[..n]) && lastID == LastId(data[..n])
    ensures keys' == Grouped(table, enforced, data[..n + 1]) && lastID' == LastId(data[..n + 1])
  {
    GroupedStep(table, enforced, data, n);
    keys', lastID' := keys, lastID;
    if row.id != lastID {
      keys' := keys' + [NewKey(table, enforced, row)];
      lastID' := row.id;
    }
    keys' := keys'[|keys'| - 1 := AddRow(keys'[|keys'| - 1], row)];
  }

  /** The rows of pragma_foreign_key_list gathered into keys. */
  method GroupRows(conn: Conn, table: string, enforced: bool, data: seq<ForeignKeyRow>)
    returns (r: Option<seq<ForeignKeyDef>>)
    requires conn.held
    modifies conn.pool`free, conn.pool.env
    ensures conn.pool.free == old(conn.pool.free) && old(conn.pool.env.asked) <= conn.pool.env.asked
    ensures r.Some? <==> conn.pool.env.CalmSince(old(conn.pool.env.asked))
    ensures r.Some? ==> r.value == Grouped(table, enforced, data)
  {
    ghost var from := conn.pool.env.asked;
    var rows := conn.Query(data);
    if rows == null { return None; }
    var keys: seq<ForeignKeyDef> := [];
    var lastID: int := -1;
    ghost var n := 0;
    assert data[..0] == [];
    var has, row := rows.Fetch(from);
    while has
      invariant rows.home == conn.pool && !rows.holds && rows.data == data && fresh(rows)
      invariant rows.Fetched(from, has, row) && conn.pool.free == old(conn.pool.free)
      invariant rows.read == n + if has then 1 else 0
      invariant keys == Grouped(table, enforced, data[..n]) && lastID == LastId(data[..n])
      decreases |rows.data| - rows.read, has
    {
      if row.None? { rows.Close(); return None; }
      keys, lastID := GroupRow(table, enforced, keys, lastID, row.value, data, n);
      n := n + 1;
      has, row := rows.Fetch(from);
    }
    rows.Close();
    if rows.failed { return None; }
    assert data[..n] == data;
    return Some(keys);
  }

  /** The target's key columns in key order, for a key that names none. */
  method TargetKeyRows(conn: Conn, cat: Catalog, target: string) returns (r: Option<seq<string>>)
    requires conn.held
    modifies conn.pool`free, conn.pool.env
    ensures conn.pool.free == old(conn.pool.free) && old(conn.pool.env.asked) <= conn.pool.env.asked
    ensures r.Some? <==> conn.pool.env.CalmSince(old(conn.pool.env.asked))
    ensures r.Some? ==> r.value == TargetKey(cat.tables, target)
  {
    ghost var from := conn.pool.env.asked;
    var rows := conn.Query(TargetKey(cat.tables, target));
    if rows == null { return None; }
    r := Drain(rows, from);
  }

  /** One key with its target as the database spells it and, when it names no target column,
      with the target's key. */
  method ResolveKey(conn: Conn, cat: Catalog, key: ForeignKeyDef, spelled: map<string, string>)
    returns (r: Option<ForeignKeyDef>)
    requires conn.held && SpelledAs(cat, spelled)
    modifies conn.pool`free, conn.pool.env
    ensures conn.pool.free == old(conn.pool.free) && old(conn.pool.env.asked) <= conn.pool.env.asked
    ensures r.Some? <==> conn.pool.env.CalmSince(old(conn.pool.env.asked))
    ensures r.Some? ==> r.value == ResolvedKey(cat.tables, key)
  {
    var resolved := key;
    if Fold(resolved.target) in spelled {
      resolved := resolved.(target := spelled[Fold(resolved.target)]);
    }
    if |resolved.targetFields| == 0 {
      var fields := TargetKeyRows(conn, cat, resolved.target);
      if fields.None? { return None; }
      resolved := resolved.(targetFields := fields.value);
    }
    return Some(resolved);
  }

  /** The loop over the keys. */
  method ResolveKeys(conn: Conn, cat: Catalog, before: seq<ForeignKeyDef>, spelled: map<string, string>)
    returns (r: Option<seq<ForeignKeyDef>>)
    requires conn.held && (before != [] ==> SpelledAs(cat, spelled))
    modifies conn.pool`free, conn.pool.env
    ensures conn.pool.free == old(conn.pool.free) && old(conn.pool.env.asked) <= conn.pool.env.asked
    ensures r.Some? <==> conn.pool.env.CalmSince(old(conn.pool.env.asked))
    ensures r.Some? ==> r.value == ResolvedKeys(cat.tables, before)
  {
    ghost var from := conn.pool.env.asked;
    var keys := before;
    var i := 0;
    while i < |keys|
      invariant 0 <= i <= |keys| == |before| && conn.held && from <= conn.pool.env.asked
      invariant conn.pool.free == old(conn.pool.free) && conn.pool.env.CalmSince(from)
      invariant forall k | 0 <= k < |keys| :: keys[k] == if k < i then ResolvedKey(cat.tables, before[k]) else before[k]
    {
      ghost var mid := conn.pool.env.asked;
      var key := ResolveKey(conn, cat, keys[i], spelled);
      if key.None? { return None; }
      keys := keys[i := key.value];
      i := i + 1;
    }
    assert keys == ResolvedKeys(cat.tables, before);
    return Some(keys);
  }

  /** The queries made over the pinned connection, each after the one before. */
  method ForeignKeysOver(conn: Conn, cat: Catalog, table: string, enabled: bool) returns (r: Option<seq<ForeignKeyDef>>)
    requires conn.held && KeyedByFold(cat)
    modifies conn.pool`free, conn.pool.env
    ensures conn.pool.free == old(conn.pool.free) && old(conn.pool.env.asked) <= conn.pool.env.asked
    ensures r.Some? <==> conn.pool.env.CalmSince(old(conn.pool.env.asked))
    ensures r.Some? ==> r.value == ForeignKeysOf(cat, table, enabled)
  {
    ghost var env, from := conn.pool.env, conn.pool.env.asked;
    var state := conn.QueryRow(enabled);
    if state.None? { return None; }
    ghost var m1 := env.asked;
    var grouped := GroupRows(conn, table, state.value, KeyRows(cat, table));
    if grouped.None? { return None; }
    ghost var m2 := env.asked;
    var spelled := TableSpellings(conn, cat, grouped.value);
    if spelled.None? { return None; }
    ghost var m3 := env.asked;
    r := ResolveKeys(conn, cat, grouped.value, spelled.value);
  }

  /** readForeignKeys: one connection is taken once and given back on every path. */
  method ReadForeignKeys(pool: Pool, cat: Catalog, table: string, enabled: bool) returns (r: Option<seq<ForeignKeyDef>>)
    requires pool.free > 0 && KeyedByFold(cat)
    modifies pool, pool.env
    ensures pool.free == old(pool.free) && old(pool.env.asked) <= pool.env.asked
    ensures r.Some? <==> pool.env.CalmSince(old(pool.env.asked))
    ensures r.Some? ==> r.value == ForeignKeysOf(cat, table, enabled)
  {
    ghost var from := pool.env.asked;
    var conn := pool.Acquire();
    if conn == null { return None; }
    r := ForeignKeysOver(conn, cat, table, enabled);
    conn.Close();
  }
}
