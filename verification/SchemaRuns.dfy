/** Whole runs of schema calls: whatever succeeds and fails, and however far each success was
    carried out, the catalog follows the schema the successful calls describe, markers, kept
    texts and stored rows included. */
module SchemaRuns {
  import opened Text
  import opened DbSchema
  import opened TypeMapping
  import opened Catalog
  import opened SchemaModifier
  import opened ColumnRewrite
  import opened LogicalSchema
  import opened AlterFollows
  import opened StoredValues
  import opened TablesKept

  datatype Call =
    | Create(c: CollectionDef, o: Options)
    | Drop(name: string, opts: Options)
    | Alter(table: string, ops: seq<AlterOp>)

  /** How many steps of a call may be carried out in part. */
  function Steps(call: Call): nat {
    match call
    case Create(_, _) => 0
    case Drop(_, _) => 1
    case Alter(_, ops) => |ops|
  }

  /** What a call does when its steps are carried out so far. */
  function Chosen(e: Storage, cat: Catalog, call: Call, choices: seq<Choice>): Option<Catalog> {
    if |choices| != Steps(call) then None
    else match call
      case Create(c, o) => CreateMeaning(e, cat, c, o)
      case Drop(name, o) => DropChosen(e, cat, name, o, choices[0])
      case Alter(table, ops) => AlterChosen(e, cat, table, ops, choices)
  }

  function Meaning(e: Storage, cat: Catalog, call: Call): Option<Catalog> {
    match call
    case Create(c, o) => CreateMeaning(e, cat, c, o)
    case Drop(name, o) => DropMeaning(e, cat, name, o)
    case Alter(table, ops) => AlterMeaning(e, cat, table, ops)
  }

  /** Carried out whole, a call does what it means. */
  lemma WholeCall(e: Storage, cat: Catalog, call: Call, choices: seq<Choice>)
    requires |choices| == Steps(call) && AllWhole(choices)
    ensures Chosen(e, cat, call, choices) == Meaning(e, cat, call)
  {
    if call.Alter? { WholeIsMeant(e, cat, call.table, call.ops, choices); }
  }

  /** The logical schema after a call that succeeded. */
  function After(s: Schema, call: Call): Schema {
    match call
    case Create(c, _) => AfterCreate(s, c)
    case Drop(name, _) => s - {Fold(name)}
    case Alter(table, ops) => ApplyOps(s, table, ops)
  }

  /** What the caller checks before the call, and what the environment must not have spoilt. */
  predicate Sound(s: Schema, call: Call, choices: seq<Choice>) {
    |choices| == Steps(call)
    && match call
       case Create(c, _) => CreateSound(s, c)
       case Drop(name, _) => DropSound(s, name, choices[0])
       case Alter(table, ops) => OpsSound(s, table, ops, choices)
  }

  /** A call that succeeded and was sound leaves the catalog following. */
  lemma CallFollows(e: Storage, s: Schema, cat: Catalog, call: Call, choices: seq<Choice>)
    requires Follows(s, cat) && Sound(s, call, choices) && Chosen(e, cat, call, choices).Some?
    ensures Follows(After(s, call), Chosen(e, cat, call, choices).value)
  {
    match call {
      case Create(c, o) => CreateFollows(e, s, cat, c, o);
      case Drop(name, o) => DropFollows(e, s, cat, name, o, choices[0]);
      case Alter(table, ops) => OpsFollow(e, s, cat, table, ops, choices);
    }
  }

  /** A call that succeeded, sound or not, keeps every table's text its own and its rows stored. */
  lemma CallKeeps(e: Storage, cat: Catalog, call: Call, choices: seq<Choice>)
    requires Kept(e, cat) && Chosen(e, cat, call, choices).Some?
    ensures Kept(e, Chosen(e, cat, call, choices).value)
  {
    match call {
      case Create(c, o) => CreateCallKeeps(e, cat, c, o);
      case Drop(name, o) => DropCallKeeps(e, cat, name, o, choices[0]);
      case Alter(table, ops) => AlterCallKeeps(e, cat, table, ops, choices);
    }
  }

  // ---- Runs ----

  /** One call, whether it succeeded, and how far its steps were carried out. */
  datatype Event = Event(call: Call, ok: bool, choices: seq<Choice>)

  function SchemaAfter(s: Schema, run: seq<Event>): Schema {
    if run == [] then s
    else
      var before, last := SchemaAfter(s, run[..|run| - 1]), run[|run| - 1];
      if last.ok then After(before, last.call) else before
  }

  /** Every successful call was sound where it was made; failed calls may be anything. */
  predicate SoundRun(s: Schema, run: seq<Event>) {
    run == []
    || (var n := |run| - 1;
        SoundRun(s, run[..n]) && (run[n].ok ==> Sound(SchemaAfter(s, run[..n]), run[n].call, run[n].choices)))
  }

  /** A success is the call as far as it was carried out; a failure changes nothing. */
  ghost predicate EventGoes(e: Storage, cat: Catalog, event: Event, cat': Catalog) {
    if event.ok then Chosen(e, cat, event.call, event.choices) == Some(cat') else cat' == cat
  }

  /** The catalogs a run goes through. */
  ghost predicate IsRun(e: Storage, cats: seq<Catalog>, run: seq<Event>) {
    |cats| == |run| + 1 && forall i | 0 <= i < |run| :: EventGoes(e, cats[i], run[i], cats[i + 1])
  }

  lemma RunInit(e: Storage, cats: seq<Catalog>, run: seq<Event>)
    requires IsRun(e, cats, run) && run != []
    ensures IsRun(e, cats[..|run|], run[..|run| - 1]) && EventGoes(e, cats[|run| - 1], run[|run| - 1], cats[|run|])
  {
    forall i | 0 <= i < |run| - 1 ensures EventGoes(e, cats[..|run|][i], run[..|run| - 1][i], cats[..|run|][i + 1]) {
      assert EventGoes(e, cats[i], run[i], cats[i + 1]);
    }
  }

  /** Over every run, sound or not: each table's kept text is its own, and its rows are as SQLite
      stores them. */
  lemma {:induction false} RunKeeps(e: Storage, cats: seq<Catalog>, run: seq<Event>)
    requires IsRun(e, cats, run) && Kept(e, cats[0])
    ensures Kept(e, cats[|run|])
    decreases |run|
  {
    if run != [] {
      var n := |run| - 1;
      RunInit(e, cats, run);
      RunKeeps(e, cats[..|run|], run[..n]);
      if run[n].ok { CallKeeps(e, cats[n], run[n].call, run[n].choices); }
    }
  }

  /** Over every sound run: at every moment the tables are those of the logical schema, each
      table's markers are exactly its Time columns, no marker names a missing table. */
  lemma {:induction false} RunFollows(e: Storage, s: Schema, cats: seq<Catalog>, run: seq<Event>)
    requires IsRun(e, cats, run) && SoundRun(s, run) && Follows(s, cats[0])
    ensures Follows(SchemaAfter(s, run), cats[|run|])
    decreases |run|
  {
    if run != [] {
      var n := |run| - 1;
      RunInit(e, cats, run);
      RunFollows(e, s, cats[..|run|], run[..n]);
      if run[n].ok { CallFollows(e, SchemaAfter(s, run[..n]), cats[n], run[n].call, run[n].choices); }
    }
  }

  predicate TableColumnNamed(cat: Catalog, t: string, column: string) {
    Fold(t) in cat.tables && cat.tables[Fold(t)].name == t
    && exists j | 0 <= j < |cat.tables[Fold(t)].cols| ::
         cat.tables[Fold(t)].cols[j].name == column && cat.tables[Fold(t)].cols[j].decl == "TEXT"
  }

  /** From the empty database: after any sound run, every marker names an existing table and a
      TEXT column of it, both exactly as spelled, and the marked columns are exactly those the
      successful calls made Time. */
  lemma MarkersOverRuns(e: Storage, cats: seq<Catalog>, run: seq<Event>, t: string, column: string)
    requires IsRun(e, cats, run) && SoundRun(map[], run) && cats[0] == EMPTY
    ensures (t, column) in cats[|run|].markers <==> IsTimeColumn(SchemaAfter(map[], run), t, column)
    ensures (t, column) in cats[|run|].markers ==> TableColumnNamed(cats[|run|], t, column)
  {
    EmptyFollows();
    RunFollows(e, map[], cats, run);
    MarkerNamesColumn(SchemaAfter(map[], run), cats[|run|], t, column);
  }

  lemma MarkerNamesColumn(s: Schema, cat: Catalog, t: string, column: string)
    requires Follows(s, cat)
    ensures (t, column) in cat.markers <==> IsTimeColumn(s, t, column)
    ensures (t, column) in cat.markers ==> TableColumnNamed(cat, t, column)
  {
    if IsTimeColumn(s, t, column) {
      var c := s[Fold(t)];
      assert TableFollows(c, cat.tables[Fold(t)]);
      var j :| 0 <= j < |c.cols| && c.cols[j].typ == Time && c.cols[j].name == column;
      assert cat.tables[Fold(t)].cols[j] == PhysicalColumn(c.cols[j]);
    }
  }

  lemma FollowedEmitted(s: Schema, cat: Catalog, f: string)
    requires Follows(s, cat) && f in cat.tables
    ensures NumberedKey(cat.tables[f].cols) && AllEmitted(cat.tables[f].cols)
  {
    var c, t := s[f], cat.tables[f];
    assert TableFollows(c, t);
    forall j | 0 <= j < |t.cols| ensures IsEmitted(t.cols[j].decl) {
      assert t.cols[j] == PhysicalColumn(c.cols[j]);
      EmittedIsKeyword(c.cols[j].typ);
    }
  }

  /** After any sound run from a catalog whose rows are as SQLite stores them, a successful rewrite
      that saw the whole table keeps columns, key, the number of rows and every value outside the
      changed column: nothing is asked of the rows the run left, for it keeps them stored so. */
  lemma RewriteKeepsDataOverRuns(e: Storage, s: Schema, cats: seq<Catalog>, run: seq<Event>,
                                 table: string, name: string, d: FieldDef)
    requires Lawful(e) && IsRun(e, cats, run) && SoundRun(s, run) && Follows(s, cats[0]) && Kept(e, cats[0])
    requires Fold(table) in cats[|run|].tables
    requires RewriteSeeing(e, cats[|run|], table, name, d, TableInfo(cats[|run|], table)).Some?
    ensures SqliteTypeFor(d.typ).Some?
    ensures var cat' := RewriteSeeing(e, cats[|run|], table, name, d, TableInfo(cats[|run|], table)).value;
            && Fold(table) in cat'.tables
            && var t, t' := cats[|run|].tables[Fold(table)], cat'.tables[Fold(table)];
            NamesOf(t'.cols) == NamesOf(t.cols) && KeyOf(t'.cols) == KeyOf(t.cols) && DataKept(e, t, t', name, d.typ)
  {
    RunFollows(e, s, cats, run);
    RunKeeps(e, cats, run);
    var cat, s' := cats[|run|], SchemaAfter(s, run);
    FollowsKept(s', cat);
    FollowedEmitted(s', cat, Fold(table));
    assert StoredValues.AllStored(e, cat);
    RewritePreservesData(e, cat, table, name, d);
  }

  // ---- The engine makes such runs ----

  /** The call succeeded exactly when all its steps could, and then did all it means. */
  ghost predicate Faithful(e: Storage, cat: Catalog, event: Event, cat': Catalog) {
    && AllWhole(event.choices)
    && match Meaning(e, cat, event.call)
       case None => !event.ok && cat' == cat
       case Some(c) => event.ok && cat' == c
  }

  ghost predicate FaithfulRun(e: Storage, cats: seq<Catalog>, run: seq<Event>) {
    |cats| == |run| + 1 && forall i | 0 <= i < |run| :: Faithful(e, cats[i], run[i], cats[i + 1])
  }

  method Perform(db: Database, call: Call) returns (ok: bool, ghost choices: seq<Choice>)
    modifies db, db.env
    ensures old(db.env.asked) <= db.env.asked
    ensures EventGoes(db.e, old(db.committed), Event(call, ok, choices), db.committed)
    ensures db.env.CalmSince(old(db.env.asked)) ==>
              Faithful(db.e, old(db.committed), Event(call, ok, choices), db.committed)
  {
    match call
    case Create(c, o) =>
      ok := db.CreateCollection(c, o);
      choices := [];
    case Drop(name, o) =>
      ghost var choice;
      ok, choice := db.DropCollection(name, o);
      choices := [choice];
    case Alter(table, ops) =>
      ok, choices := db.AlterCollection(table, ops);
      if AllWhole(choices) { WholeCall(db.e, old(db.committed), call, choices); }
  }

  /** What holds along a run and of one more event holds along the longer run. */
  lemma OneMore<A, B>(goes: (A, B, A) -> bool, states: seq<A>, run: seq<B>, event: B, state: A)
    requires |states| == |run| + 1 && goes(states[|run|], event, state)
    requires forall i | 0 <= i < |run| :: goes(states[i], run[i], states[i + 1])
    ensures forall i | 0 <= i <= |run| :: goes((states + [state])[i], (run + [event])[i], (states + [state])[i + 1])
  {
    var states', run' := states + [state], run + [event];
    forall i | 0 <= i <= |run| ensures goes(states'[i], run'[i], states'[i + 1]) {
      if i < |run| { assert states'[i] == states[i] && run'[i] == run[i] && states'[i + 1] == states[i + 1]; }
    }
  }

  lemma RunExtended(e: Storage, cats: seq<Catalog>, run: seq<Event>, event: Event, cat': Catalog)
    requires IsRun(e, cats, run) && EventGoes(e, cats[|run|], event, cat')
    ensures IsRun(e, cats + [cat'], run + [event])
  {
    OneMore((c, ev, c') => EventGoes(e, c, ev, c'), cats, run, event, cat');
  }

  lemma FaithfulExtended(e: Storage, cats: seq<Catalog>, run: seq<Event>, event: Event, cat': Catalog)
    requires FaithfulRun(e, cats, run) && Faithful(e, cats[|run|], event, cat')
    ensures FaithfulRun(e, cats + [cat'], run + [event])
  {
    OneMore((c, ev, c') => Faithful(e, c, ev, c'), cats, run, event, cat');
  }

  /** A client making calls one after another: what the database goes through is a run of exactly
      these calls, and unless the environment refused something each of them did all it means. */
  method PerformAll(db: Database, calls: seq<Call>) returns (ghost cats: seq<Catalog>, ghost run: seq<Event>)
    modifies db, db.env
    ensures old(db.env.asked) <= db.env.asked
    ensures |run| == |calls| && forall i | 0 <= i < |calls| :: run[i].call == calls[i]
    ensures IsRun(db.e, cats, run) && cats[0] == old(db.committed) && cats[|calls|] == db.committed
    ensures db.env.CalmSince(old(db.env.asked)) ==> FaithfulRun(db.e, cats, run)
  {
    cats, run := [db.committed], [];
    ghost var from := db.env.asked;
    var i := 0;
    while i < |calls|
      invariant 0 <= i <= |calls| && |run| == i && from <= db.env.asked
      invariant forall k | 0 <= k < i :: run[k].call == calls[k]
      invariant IsRun(db.e, cats, run) && cats[0] == old(db.committed) && cats[i] == db.committed
      invariant db.env.CalmSince(from) ==> FaithfulRun(db.e, cats, run)
    {
      ghost var before := db.env.asked;
      var ok;
      ghost var choices;
      ok, choices := Perform(db, calls[i]);
      ghost var event := Event(calls[i], ok, choices);
      db.env.Split(from, before, db.env.asked);
      RunExtended(db.e, cats, run, event, db.committed);
      if db.env.CalmSince(from) { FaithfulExtended(db.e, cats, run, event, db.committed); }
      cats, run := cats + [db.committed], run + [event];
      i := i + 1;
    }
  }
}
