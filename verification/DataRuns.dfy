/** What whole runs of schema calls keep of the data: a column that no call drops, renames or
    redefines keeps its value in every row of its table, whatever happens around it. And when, after
    a run, the rewrite of a column goes through. */
module DataRuns {
  import opened Text
  import opened DbSchema
  import opened SqlText
  import opened TypeMapping
  import opened SqlGen
  import opened Catalog
  import opened SchemaModifier
  import opened ColumnRewrite
  import opened RewriteSucceeds
  import opened LogicalSchema
  import opened AlterFollows
  import opened StoredValues
  import opened TablesKept
  import opened SchemaRuns

  // ---- One column of one table ----

  ghost predicate HasColumn(t: Table, x: string) { FindColumn(t.cols, x).Some? }

  ghost predicate SameCell(t: Table, t': Table, x: string, i: nat)
    requires HasColumn(t, x) && HasColumn(t', x) && i < |t.rows| == |t'.rows|
  {
    t'.rows[i][FindColumn(t'.cols, x).value] == t.rows[i][FindColumn(t.cols, x).value]
  }

  /** The table has the same rows in order, each with the value it had in the column x. */
  ghost predicate ColumnKept(t: Table, t': Table, x: string) {
    && HasColumn(t, x) && HasColumn(t', x) && |t'.rows| == |t.rows|
    && forall i: nat | i < |t.rows| :: SameCell(t, t', x, i)
  }

  /** The same between two catalogs, for the table under that folded name. */
  ghost predicate CellsKept(cat: Catalog, cat': Catalog, f: string, x: string) {
    f in cat.tables && f in cat'.tables && ColumnKept(cat.tables[f], cat'.tables[f], x)
  }

  lemma CellsThen(a: Catalog, b: Catalog, c: Catalog, f: string, x: string)
    requires CellsKept(a, b, f, x) && CellsKept(b, c, f, x)
    ensures CellsKept(a, c, f, x)
  {
    forall i: nat | i < |a.tables[f].rows| ensures SameCell(a.tables[f], c.tables[f], x, i) {
      assert SameCell(a.tables[f], b.tables[f], x, i) && SameCell(b.tables[f], c.tables[f], x, i);
    }
  }

  lemma UntouchedTable(cat: Catalog, cat': Catalog, f: string, x: string)
    requires f in cat.tables && f in cat'.tables && cat'.tables[f] == cat.tables[f] && HasColumn(cat.tables[f], x)
    ensures CellsKept(cat, cat', f, x)
  {
  }

  /** The column moved from place j to place k, with its values. */
  lemma ColumnMoved(t: Table, t': Table, x: string, k: nat)
    requires HasColumn(t, x) && DistinctColumns(t'.cols) && k < |t'.cols| && Fold(t'.cols[k].name) == Fold(x)
    requires |t'.rows| == |t.rows|
    requires forall i: nat | i < |t.rows| :: t'.rows[i][k] == t.rows[i][FindColumn(t.cols, x).value]
    ensures ColumnKept(t, t', x)
  {
    FindDistinct(t'.cols, x, k);
  }

  // ---- One operation ----

  /** The operation neither drops nor renames nor redefines the column, in any letter case. */
  predicate Spares(op: AlterOp, x: string) {
    match op
    case DropField(n) => Fold(n) != Fold(x)
    case RenameField(o, _) => Fold(o) != Fold(x)
    case ModifyField(n, _) => Fold(n) != Fold(x)
    case _ => true
  }

  /** One table reshaped, the others as they were. */
  ghost predicate OnlyChanges(cat: Catalog, cat': Catalog, f: string) {
    cat'.tables.Keys == cat.tables.Keys && forall g | g in cat.tables && g != f :: cat'.tables[g] == cat.tables[g]
  }

  lemma AddedCells(cat: Catalog, name: string, d: ColumnDecl, c1: Catalog, x: string)
    requires AddColumnStep(cat, name, d) == Some(c1)
    requires Fold(name) in cat.tables && HasColumn(cat.tables[Fold(name)], x)
    ensures OnlyChanges(cat, c1, Fold(name))
    ensures DistinctColumns(c1.tables[Fold(name)].cols) ==> CellsKept(cat, c1, Fold(name), x)
  {
    var t, t' := cat.tables[Fold(name)], c1.tables[Fold(name)];
    if DistinctColumns(t'.cols) { ColumnMoved(t, t', x, FindColumn(t.cols, x).value); }
  }

  lemma CellsWithout(t: Table, t': Table, x: string, i: nat)
    requires i < |t.cols| && t'.cols == Without(t.cols, i) && DistinctColumns(t'.cols)
    requires HasColumn(t, x) && FindColumn(t.cols, x) != Some(i) && |t'.rows| == |t.rows|
    requires forall r: nat | r < |t.rows| :: |t.rows[r]| == |t.cols| && t'.rows[r] == Without(t.rows[r], i)
    ensures ColumnKept(t, t', x)
  {
    var j := FindColumn(t.cols, x).value;
    var k: nat := if j < i then j else j - 1;
    assert t'.cols[k] == t.cols[j];
    forall r: nat | r < |t.rows| ensures t'.rows[r][k] == t.rows[r][j] { assert t'.rows[r] == Without(t.rows[r], i); }
    ColumnMoved(t, t', x, k);
  }

  lemma DroppedCells(cat: Catalog, name: string, column: string, c1: Catalog, x: string)
    requires DropColumnStep(cat, name, column) == Some(c1) && Fold(column) != Fold(x)
    requires Fold(name) in cat.tables && HasColumn(cat.tables[Fold(name)], x)
    ensures OnlyChanges(cat, c1, Fold(name))
    ensures DistinctColumns(c1.tables[Fold(name)].cols) ==> CellsKept(cat, c1, Fold(name), x)
  {
    var t, t' := cat.tables[Fold(name)], c1.tables[Fold(name)];
    if DistinctColumns(t'.cols) { CellsWithout(t, t', x, FindColumn(t.cols, column).value); }
  }

  lemma RenamedCells(cat: Catalog, name: string, o: string, n: string, c1: Catalog, x: string)
    requires RenameColumnStep(cat, name, o, n) == Some(c1) && Fold(o) != Fold(x)
    requires Fold(name) in cat.tables && HasColumn(cat.tables[Fold(name)], x)
    ensures OnlyChanges(cat, c1, Fold(name))
    ensures DistinctColumns(c1.tables[Fold(name)].cols) ==> CellsKept(cat, c1, Fold(name), x)
  {
    var t, t' := cat.tables[Fold(name)], c1.tables[Fold(name)];
    var j, i := FindColumn(t.cols, x).value, FindColumn(t.cols, o).value;
    assert i != j && t'.cols[j] == t.cols[j] && t'.rows == t.rows;
    if DistinctColumns(t'.cols) { ColumnMoved(t, t', x, j); }
  }

  /** The same tables but for markers. */
  lemma SameTablesCells(cat: Catalog, c1: Catalog, cat': Catalog, f: string, x: string)
    requires CellsKept(cat, c1, f, x) && cat'.tables == c1.tables
    ensures CellsKept(cat, cat', f, x)
  {
  }

  lemma FollowedDistinct(s: Schema, cat: Catalog, f: string)
    requires Follows(s, cat) && f in cat.tables
    ensures DistinctColumns(cat.tables[f].cols)
  {
    assert TableFollows(s[f], cat.tables[f]);
  }

  lemma AddKeepsCells(e: Storage, s: Schema, cat: Catalog, cat': Catalog, table: string, f: FieldDef, x: string)
    requires AddFieldMeaning(e, cat, table, f) == Some(cat') && Follows(s, cat')
    requires Fold(table) in cat.tables && HasColumn(cat.tables[Fold(table)], x)
    ensures CellsKept(cat, cat', Fold(table), x)
  {
    var st := AddColumnStatement(table, f).value;
    var c1 := Emitted(e, cat, st).value;
    assert AddColumnStep(cat, table, st.col) == Some(c1) && cat'.tables == c1.tables;
    AddedCells(cat, table, st.col, c1, x);
    FollowedDistinct(s, cat', Fold(table));
    SameTablesCells(cat, c1, cat', Fold(table), x);
  }

  lemma DropKeepsCells(e: Storage, s: Schema, cat: Catalog, cat': Catalog, table: string, n: string, choice: Choice,
                       x: string)
    requires DropFieldMeaning(e, cat, table, n, choice) == Some(cat') && Fold(n) != Fold(x) && Follows(s, cat')
    requires Fold(table) in cat.tables && HasColumn(cat.tables[Fold(table)], x)
    ensures CellsKept(cat, cat', Fold(table), x)
  {
    var c1 := Emitted(e, cat, SqlText.DropColumn(table, n)).value;
    assert DropColumnStep(cat, table, n) == Some(c1);
    AfterMarkerKeepsTables(c1, DeleteMarker(table, n), choice);
    DroppedCells(cat, table, n, c1, x);
    FollowedDistinct(s, cat', Fold(table));
    SameTablesCells(cat, c1, cat', Fold(table), x);
  }

  lemma RenameKeepsCells(e: Storage, s: Schema, cat: Catalog, cat': Catalog, table: string, o: string, n: string,
                         choice: Choice, x: string)
    requires RenameFieldMeaning(e, cat, table, o, n, choice) == Some(cat') && Fold(o) != Fold(x) && Follows(s, cat')
    requires Fold(table) in cat.tables && HasColumn(cat.tables[Fold(table)], x)
    ensures CellsKept(cat, cat', Fold(table), x)
  {
    var c1 := Emitted(e, cat, SqlText.RenameColumn(table, o, n)).value;
    assert RenameColumnStep(cat, table, o, n) == Some(c1);
    AfterMarkerKeepsTables(c1, UpdateMarker(table, o, n), choice);
    RenamedCells(cat, table, o, n, c1, x);
    FollowedDistinct(s, cat', Fold(table));
    SameTablesCells(cat, c1, cat', Fold(table), x);
  }

  /** A sound rewrite saw every column. */
  lemma SoundSeesAll(s: Schema, cat: Catalog, table: string, n: string, d: FieldDef, choice: Choice)
    requires Follows(s, cat) && Fold(table) in cat.tables && OpSound(s, table, ModifyField(n, d), choice)
    ensures Delivered(cat, table, choice) == cat.tables[Fold(table)].cols
  {
    assert TableFollows(s[Fold(table)], cat.tables[Fold(table)]);
  }

  lemma ModifyKeepsCells(e: Storage, s: Schema, cat: Catalog, cat': Catalog, table: string, n: string, d: FieldDef,
                         choice: Choice, x: string)
    requires Lawful(e) && Follows(s, cat) && Kept(e, cat) && OpSound(s, table, ModifyField(n, d), choice)
    requires OpChosen(e, cat, table, ModifyField(n, d), choice) == Some(cat') && Fold(n) != Fold(x)
    requires Fold(table) in cat.tables && HasColumn(cat.tables[Fold(table)], x)
    ensures CellsKept(cat, cat', Fold(table), x)
  {
    var t := cat.tables[Fold(table)];
    OpFollows(e, s, cat, table, ModifyField(n, d), choice);
    FollowedDistinct(ApplyOp(s, table, ModifyField(n, d)), cat', Fold(table));
    FollowsKept(s, cat);
    FollowedEmitted(s, cat, Fold(table));
    SoundSeesAll(s, cat, table, n, d, choice);
    assert StoredValues.AllStored(e, cat);
    RewriteHasEffect(e, cat, table, n, d, t.cols);
    RewritePreservesData(e, cat, table, n, d);
    var t' := cat'.tables[Fold(table)];
    var j := FindColumn(t.cols, x).value;
    assert t.cols[j].name != n;
    assert |NamesOf(t'.cols)| == |NamesOf(t.cols)| && NamesOf(t'.cols)[j] == NamesOf(t.cols)[j];
    forall i: nat | i < |t.rows| ensures t'.rows[i][j] == t.rows[i][j] { assert ValueAfter(e, t, t', n, d.typ, i, j); }
    ColumnMoved(t, t', x, j);
  }

  /** An operation that succeeded and was sound leaves every other table alone, and in its own the
      columns it spares. */
  lemma OpKeepsCells(e: Storage, s: Schema, cat: Catalog, cat': Catalog, table: string, op: AlterOp, choice: Choice,
                     f: string, x: string)
    requires Lawful(e) && Follows(s, cat) && Kept(e, cat) && OpSound(s, table, op, choice)
    requires OpChosen(e, cat, table, op, choice) == Some(cat') && (Fold(table) == f ==> Spares(op, x))
    requires f in cat.tables && HasColumn(cat.tables[f], x)
    ensures CellsKept(cat, cat', f, x)
  {
    if op.AddIndex? || op.RemoveIndex? {
      IndexOpKeepsTables(e, s, cat, cat', table, op, choice);
      UntouchedTable(cat, cat', f, x);
    } else if Fold(table) == f {
      OpFollows(e, s, cat, table, op, choice);
      OwnTableKept(e, s, cat, cat', table, op, choice, x);
    } else {
      OpKeepsOthers(e, s, cat, cat', table, op, choice, f);
      UntouchedTable(cat, cat', f, x);
    }
  }

  lemma OwnTableKept(e: Storage, s: Schema, cat: Catalog, cat': Catalog, table: string, op: AlterOp, choice: Choice,
                     x: string)
    requires Lawful(e) && Follows(s, cat) && Kept(e, cat) && OpSound(s, table, op, choice)
    requires Follows(ApplyOp(s, table, op), cat')
    requires OpChosen(e, cat, table, op, choice) == Some(cat') && Spares(op, x) && !op.AddIndex? && !op.RemoveIndex?
    requires Fold(table) in cat.tables && HasColumn(cat.tables[Fold(table)], x)
    ensures CellsKept(cat, cat', Fold(table), x)
  {
    var s' := ApplyOp(s, table, op);
    match op {
      case AddField(d) => AddKeepsCells(e, s', cat, cat', table, d, x);
      case DropField(n) => DropKeepsCells(e, s', cat, cat', table, n, choice, x);
      case RenameField(o, n) => RenameKeepsCells(e, s', cat, cat', table, o, n, choice, x);
      case ModifyField(n, d) => ModifyKeepsCells(e, s, cat, cat', table, n, d, choice, x);
    }
  }

  lemma IndexOpKeepsTables(e: Storage, s: Schema, cat: Catalog, cat': Catalog, table: string, op: AlterOp,
                           choice: Choice)
    requires Follows(s, cat) && OpChosen(e, cat, table, op, choice) == Some(cat') && (op.AddIndex? || op.RemoveIndex?)
    ensures cat'.tables == cat.tables
  {
    match op {
      case AddIndex(idx, opts) => AddIndexEffect(e, cat, table, idx, opts);
      case RemoveIndex(n, opts) => RemoveIndexEffect(e, cat, n, opts.ifExists);
    }
  }

  lemma FieldOpKeepsOthers(e: Storage, cat: Catalog, cat': Catalog, table: string, op: AlterOp, choice: Choice,
                           f: string)
    requires OpChosen(e, cat, table, op, choice) == Some(cat')
    requires f in cat.tables && Fold(table) != f && (op.AddField? || op.DropField? || op.RenameField?)
    ensures f in cat'.tables && cat'.tables[f] == cat.tables[f]
  {
    match op {
      case AddField(d) => var c1 := AddEffect(e, cat, table, d);
      case DropField(n) =>
        var c1, i := DropColumnEffect(e, cat, table, n, choice);
        AfterMarkerKeepsTables(c1, DeleteMarker(table, n), choice);
      case RenameField(o, n) =>
        var c1, i := RenameColumnEffect(e, cat, table, o, n, choice);
        AfterMarkerKeepsTables(c1, UpdateMarker(table, o, n), choice);
    }
  }

  lemma RewriteKeepsOthers(e: Storage, s: Schema, cat: Catalog, cat': Catalog, table: string, n: string, d: FieldDef,
                           seen: seq<Column>, f: string)
    requires Follows(s, cat) && RewriteSeeing(e, cat, table, n, d, seen) == Some(cat') && seen <= TableInfo(cat, table)
    requires f in cat.tables && Fold(table) != f
    ensures f in cat'.tables && cat'.tables[f] == cat.tables[f]
  {
    FollowsKept(s, cat);
    RewriteHasEffect(e, cat, table, n, d, seen);
  }

  lemma ModifyKeepsOthers(e: Storage, s: Schema, cat: Catalog, cat': Catalog, table: string, op: AlterOp,
                          choice: Choice, f: string)
    requires Follows(s, cat) && OpChosen(e, cat, table, op, choice) == Some(cat') && op.ModifyField?
    requires f in cat.tables && Fold(table) != f
    ensures f in cat'.tables && cat'.tables[f] == cat.tables[f]
  {
    RewriteKeepsOthers(e, s, cat, cat', table, op.name, op.newDef, Delivered(cat, table, choice), f);
  }

  lemma OpKeepsOthers(e: Storage, s: Schema, cat: Catalog, cat': Catalog, table: string, op: AlterOp, choice: Choice,
                      f: string)
    requires Follows(s, cat) && OpChosen(e, cat, table, op, choice) == Some(cat')
    requires f in cat.tables && Fold(table) != f && !op.AddIndex? && !op.RemoveIndex?
    ensures f in cat'.tables && cat'.tables[f] == cat.tables[f]
  {
    if op.ModifyField? {
      ModifyKeepsOthers(e, s, cat, cat', table, op, choice, f);
    } else {
      FieldOpKeepsOthers(e, cat, cat', table, op, choice, f);
    }
  }

  // ---- Calls and runs ----

  /** Sound operations that went through, and what holds after them. */
  ghost predicate OpsGo(e: Storage, s: Schema, cat: Catalog, table: string, ops: seq<AlterOp>, choices: seq<Choice>,
                        after: Catalog) {
    |choices| == |ops| && OpsSound(s, table, ops, choices) && AlterChosen(e, cat, table, ops, choices) == Some(after)
  }

  ghost predicate OpGoes(e: Storage, s: Schema, cat: Catalog, table: string, op: AlterOp, choice: Choice,
                         after: Catalog) {
    && Follows(s, cat) && Kept(e, cat) && OpSound(s, table, op, choice)
    && OpChosen(e, cat, table, op, choice) == Some(after)
  }

  lemma AlterLast(e: Storage, cat: Catalog, table: string, init: seq<AlterOp>, chosen: seq<Choice>, op: AlterOp,
                  choice: Choice, after: Catalog)
    returns (before: Catalog)
    requires |chosen| == |init| && AlterChosen(e, cat, table, init + [op], chosen + [choice]) == Some(after)
    ensures AlterChosen(e, cat, table, init, chosen) == Some(before)
    ensures OpChosen(e, before, table, op, choice) == Some(after)
  {
    assert (init + [op])[..|init|] == init && (chosen + [choice])[..|init|] == chosen;
    before := AlterChosen(e, cat, table, init, chosen).value;
  }

  lemma SoundLast(s: Schema, table: string, init: seq<AlterOp>, chosen: seq<Choice>, op: AlterOp, choice: Choice)
    requires |chosen| == |init| && OpsSound(s, table, init + [op], chosen + [choice])
    ensures OpsSound(s, table, init, chosen) && OpSound(ApplyOps(s, table, init), table, op, choice)
  {
    assert (init + [op])[..|init|] == init && (chosen + [choice])[..|init|] == chosen;
  }

  lemma LastOp(e: Storage, s: Schema, cat: Catalog, table: string, ops: seq<AlterOp>, choices: seq<Choice>,
               after: Catalog)
    returns (before: Catalog, init: seq<AlterOp>, chosen: seq<Choice>, op: AlterOp, choice: Choice)
    requires OpsGo(e, s, cat, table, ops, choices, after) && ops != []
    ensures ops == init + [op] && OpsGo(e, s, cat, table, init, chosen, before)
    ensures OpSound(ApplyOps(s, table, init), table, op, choice)
    ensures OpChosen(e, before, table, op, choice) == Some(after)
  {
    var n := |ops| - 1;
    init, chosen, op, choice := ops[..n], choices[..n], ops[n], choices[n];
    assert ops == init + [op] && choices == chosen + [choice];
    before := AlterLast(e, cat, table, init, chosen, op, choice, after);
    SoundLast(s, table, init, chosen, op, choice);
  }

  lemma StandsAfter(e: Storage, s: Schema, cat: Catalog, table: string, ops: seq<AlterOp>, choices: seq<Choice>,
                    after: Catalog)
    requires OpsGo(e, s, cat, table, ops, choices, after) && Follows(s, cat) && Kept(e, cat)
    ensures Follows(ApplyOps(s, table, ops), after) && Kept(e, after)
  {
    OpsFollow(e, s, cat, table, ops, choices);
    AlterCallKeeps(e, cat, table, ops, choices);
  }

  /** Where sound operations stand before the last of them. */
  lemma BeforeLastOp(e: Storage, s: Schema, cat: Catalog, table: string, ops: seq<AlterOp>, choices: seq<Choice>,
                     after: Catalog)
    returns (before: Catalog, init: seq<AlterOp>, chosen: seq<Choice>, s': Schema, op: AlterOp, choice: Choice)
    requires OpsGo(e, s, cat, table, ops, choices, after) && ops != [] && Follows(s, cat) && Kept(e, cat)
    ensures ops == init + [op] && OpsGo(e, s, cat, table, init, chosen, before)
    ensures OpGoes(e, s', before, table, op, choice, after)
  {
    before, init, chosen, op, choice := LastOp(e, s, cat, table, ops, choices, after);
    StandsAfter(e, s, cat, table, init, chosen, before);
    s' := ApplyOps(s, table, init);
  }

  lemma OpThen(e: Storage, s: Schema, cat: Catalog, before: Catalog, after: Catalog, table: string, op: AlterOp,
               choice: Choice, f: string, x: string)
    requires Lawful(e) && OpGoes(e, s, before, table, op, choice, after) && (Fold(table) == f ==> Spares(op, x))
    requires CellsKept(cat, before, f, x)
    ensures CellsKept(cat, after, f, x)
  {
    OpKeepsCells(e, s, before, after, table, op, choice, f, x);
    CellsThen(cat, before, after, f, x);
  }

  predicate AllSpare(ops: seq<AlterOp>, x: string) { forall i | 0 <= i < |ops| :: Spares(ops[i], x) }

  lemma OneMoreSpares(init: seq<AlterOp>, op: AlterOp, x: string)
    ensures AllSpare(init + [op], x) <==> AllSpare(init, x) && Spares(op, x)
  {
    var ops := init + [op];
    if AllSpare(ops, x) {
      assert ops[|init|] == op;
      forall i | 0 <= i < |init| ensures Spares(init[i], x) { assert ops[i] == init[i]; }
    }
  }

  lemma NoOpsKeepCells(e: Storage, s: Schema, cat: Catalog, table: string, ops: seq<AlterOp>, choices: seq<Choice>,
                       after: Catalog, f: string, x: string)
    requires OpsGo(e, s, cat, table, ops, choices, after) && ops == []
    requires f in cat.tables && HasColumn(cat.tables[f], x)
    ensures CellsKept(cat, after, f, x)
  {
    UntouchedTable(cat, after, f, x);
  }

  lemma {:induction false} OpsKeepCells(e: Storage, s: Schema, cat: Catalog, table: string, ops: seq<AlterOp>,
                                        choices: seq<Choice>, after: Catalog, f: string, x: string)
    requires Lawful(e) && Follows(s, cat) && Kept(e, cat) && OpsGo(e, s, cat, table, ops, choices, after)
    requires f in cat.tables && HasColumn(cat.tables[f], x) && (Fold(table) == f ==> AllSpare(ops, x))
    ensures CellsKept(cat, after, f, x)
    decreases |ops|
  {
    if ops == [] {
      NoOpsKeepCells(e, s, cat, table, ops, choices, after, f, x);
    } else {
      var before, init, chosen, s', op, choice := BeforeLastOp(e, s, cat, table, ops, choices, after);
      OneMoreSpares(init, op, x);
      OpsKeepCells(e, s, cat, table, init, chosen, before, f, x);
      OpThen(e, s', cat, before, after, table, op, choice, f, x);
    }
  }

  /** The call does not drop the table, and spares the column. */
  predicate CallSpares(call: Call, f: string, x: string) {
    match call
    case Create(_, _) => true
    case Drop(name, _) => Fold(name) != f
    case Alter(table, ops) => Fold(table) == f ==> AllSpare(ops, x)
  }

  lemma CreationLeaves(e: Storage, s: Schema, cat: Catalog, c: CollectionDef, o: Options, f: string)
    requires Follows(s, cat) && CreateMeaning(e, cat, c, o).Some? && f in cat.tables
    ensures f in CreateMeaning(e, cat, c, o).value.tables
    ensures CreateMeaning(e, cat, c, o).value.tables[f] == cat.tables[f]
  {
    var c2 := CreateSplit(e, cat, c, o);
  }

  lemma DropLeaves(e: Storage, cat: Catalog, name: string, o: Options, choice: Choice, f: string)
    requires DropChosen(e, cat, name, o, choice).Some? && f in cat.tables && Fold(name) != f
    ensures f in DropChosen(e, cat, name, o, choice).value.tables
    ensures DropChosen(e, cat, name, o, choice).value.tables[f] == cat.tables[f]
  {
    var c1 := DropSplit(e, cat, name, o, choice);
    assert DropTableStep(cat, name, o.ifExists) == Some(c1);
    AfterMarkerKeepsTables(c1, DeleteMarkers(name), choice);
  }

  lemma CallKeepsCells(e: Storage, s: Schema, cat: Catalog, call: Call, choices: seq<Choice>, f: string, x: string)
    requires Lawful(e) && Follows(s, cat) && Kept(e, cat) && Sound(s, call, choices) && CallSpares(call, f, x)
    requires Chosen(e, cat, call, choices).Some? && f in cat.tables && HasColumn(cat.tables[f], x)
    ensures CellsKept(cat, Chosen(e, cat, call, choices).value, f, x)
  {
    match call {
      case Create(c, o) =>
        CreationLeaves(e, s, cat, c, o, f);
        UntouchedTable(cat, CreateMeaning(e, cat, c, o).value, f, x);
      case Drop(name, o) =>
        DropLeaves(e, cat, name, o, choices[0], f);
        UntouchedTable(cat, DropChosen(e, cat, name, o, choices[0]).value, f, x);
      case Alter(table, ops) =>
        OpsKeepCells(e, s, cat, table, ops, choices, AlterChosen(e, cat, table, ops, choices).value, f, x);
    }
  }

  lemma EventKeepsCells(e: Storage, s: Schema, cat: Catalog, event: Event, cat': Catalog, f: string, x: string)
    requires Lawful(e) && Follows(s, cat) && Kept(e, cat) && EventGoes(e, cat, event, cat')
    requires event.ok ==> Sound(s, event.call, event.choices) && CallSpares(event.call, f, x)
    requires f in cat.tables && HasColumn(cat.tables[f], x)
    ensures CellsKept(cat, cat', f, x)
  {
    if event.ok { CallKeepsCells(e, s, cat, event.call, event.choices, f, x); } else { UntouchedTable(cat, cat, f, x); }
  }

  /** Every successful call spared the column. */
  predicate RunSpares(run: seq<Event>, f: string, x: string) {
    forall i | 0 <= i < |run| :: run[i].ok ==> CallSpares(run[i].call, f, x)
  }

  lemma SparesInit(run: seq<Event>, f: string, x: string)
    requires run != [] && RunSpares(run, f, x)
    ensures RunSpares(run[..|run| - 1], f, x)
  {
    assert forall i | 0 <= i < |run| - 1 :: run[..|run| - 1][i] == run[i];
  }

  /** Where a sound run stands before its last event. */
  lemma BeforeLast(e: Storage, s: Schema, cats: seq<Catalog>, run: seq<Event>)
    requires run != [] && IsRun(e, cats, run) && SoundRun(s, run) && Follows(s, cats[0]) && Kept(e, cats[0])
    ensures var n := |run| - 1;
            && IsRun(e, cats[..|run|], run[..n]) && SoundRun(s, run[..n]) && EventGoes(e, cats[n], run[n], cats[|run|])
            && Follows(SchemaAfter(s, run[..n]), cats[n]) && Kept(e, cats[n])
            && (run[n].ok ==> Sound(SchemaAfter(s, run[..n]), run[n].call, run[n].choices))
  {
    RunInit(e, cats, run);
    RunFollows(e, s, cats[..|run|], run[..|run| - 1]);
    RunKeeps(e, cats[..|run|], run[..|run| - 1]);
  }

  lemma EventThen(e: Storage, s: Schema, first: Catalog, cat: Catalog, event: Event, cat': Catalog, f: string,
                  x: string)
    requires Lawful(e) && Follows(s, cat) && Kept(e, cat) && EventGoes(e, cat, event, cat')
    requires event.ok ==> Sound(s, event.call, event.choices) && CallSpares(event.call, f, x)
    requires CellsKept(first, cat, f, x)
    ensures CellsKept(first, cat', f, x)
  {
    EventKeepsCells(e, s, cat, event, cat', f, x);
    CellsThen(first, cat, cat', f, x);
  }

  /** Over every sound run: a column that no successful call dropped, renamed or redefined, of a
      table none dropped, keeps its value in every row, and the table its rows in order; whatever
      columns are added, dropped, renamed and rewritten around it, and whatever calls fail. */
  lemma {:induction false} RunKeepsCells(e: Storage, s: Schema, cats: seq<Catalog>, run: seq<Event>, f: string,
                                         x: string)
    requires Lawful(e) && IsRun(e, cats, run) && SoundRun(s, run) && Follows(s, cats[0]) && Kept(e, cats[0])
    requires f in cats[0].tables && HasColumn(cats[0].tables[f], x) && RunSpares(run, f, x)
    ensures CellsKept(cats[0], cats[|run|], f, x)
    decreases |run|
  {
    if run == [] {
      UntouchedTable(cats[0], cats[0], f, x);
    } else {
      var n := |run| - 1;
      BeforeLast(e, s, cats, run);
      SparesInit(run, f, x);
      RunKeepsCells(e, s, cats[..|run|], run[..n], f, x);
      EventThen(e, SchemaAfter(s, run[..n]), cats[0], cats[n], run[n], cats[|run|], f, x);
    }
  }

  // ---- Rewrites after a run ----

  lemma EmittedBuilds(name: string, d: FieldDef, cols: seq<Column>)
    requires AllEmitted(cols) && SqliteTypeFor(d.typ).Some?
    ensures Builds(name, d, cols)
  {
    forall j | 0 <= j < |cols| ensures Typed(RewrittenFields(cols, name, d)[j]) {
      KeywordFixedPoint(cols[j].decl);
    }
  }

  /** After any sound run, a rewrite that keeps the type of a column goes through exactly when no
      row has a NULL in the key, or in the column if that is redefined so; whatever the run did to
      the rows, provided the names are free and can be written. */
  lemma RewriteGoesOverRuns(e: Storage, s: Schema, cats: seq<Catalog>, run: seq<Event>,
                            table: string, name: string, d: FieldDef)
    requires Lawful(e) && IsRun(e, cats, run) && SoundRun(s, run) && Follows(s, cats[0]) && Kept(e, cats[0])
    requires Fold(table) in cats[|run|].tables && FreeNames(cats[|run|], table)
    requires var cols := cats[|run|].tables[Fold(table)].cols;
             WritableNames(cols) && Sees(cols, name) && TypeKept(cols, name, d)
    ensures RewriteSeeing(e, cats[|run|], table, name, d, cats[|run|].tables[Fold(table)].cols).Some?
            <==> NoForbiddenNull(cats[|run|].tables[Fold(table)], name, d)
  {
    RunFollows(e, s, cats, run);
    RunKeeps(e, cats, run);
    var cat, s' := cats[|run|], SchemaAfter(s, run);
    var t := cat.tables[Fold(table)];
    FollowsKept(s', cat);
    FollowedEmitted(s', cat, Fold(table));
    assert TableFollows(s'[Fold(table)], t);
    assert StoredValues.AllStored(e, cat);
    var j :| 0 <= j < |t.cols| && t.cols[j].name == name;
    EmittedBuilds(name, d, t.cols);
    StoredRowsRewrite(e, cat, table, name, d);
  }
}
