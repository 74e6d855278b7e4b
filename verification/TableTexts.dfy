/** The text the catalog keeps for a table: it is the CREATE TABLE of the table's present shape
    after every statement, the key clause perhaps in another letter case than the columns, and it
    shows AUTOINCREMENT exactly when the table has it, provided no name of the table spells the
    words looked for. */
module TableTexts {
  import opened Text
  import opened SqlText
  import opened TypeMapping
  import opened KeyOrder
  import opened Catalog
  import opened ColumnRewrite
  import opened LogicalSchema

  // ---- Every statement keeps the texts ----

  /** The CREATE TABLE of a table with its key clause spelled so. */
  function TextWithKey(name: string, cols: seq<Column>, auto: bool, key: seq<string>): string {
    StatementText(CreateTable(false, name, DeclsOf(cols, auto), if auto then [] else key))
  }

  ghost predicate OwnText(t: TableData) {
    exists key :: Alike(key, KeyOf(t.cols)) && t.sql == TextWithKey(t.name, t.cols, t.auto, key)
  }

  lemma CanonicalOwn(t: TableData)
    requires t.sql == TableText(t.name, t.cols, t.auto)
    ensures OwnText(t)
  {
    assert Alike(KeyOf(t.cols), KeyOf(t.cols));
    assert TableText(t.name, t.cols, t.auto) == TextWithKey(t.name, t.cols, t.auto, KeyOf(t.cols));
  }

  ghost predicate TextsOwn(cat: Catalog) { forall f | f in cat.tables :: OwnText(cat.tables[f]) }

  /** The created table's text is that of its columns. */
  ghost predicate OwnStatement(st: Statement)
    requires st.CreateTable?
  {
    OwnText(NewTable(st.name, st.decls, st.key))
  }

  lemma OneTextChanged(cat: Catalog, f: string, t: Table)
    requires TextsOwn(cat) && OwnText(t)
    ensures TextsOwn(cat.(tables := cat.tables[f := t]))
  {
  }

  lemma CreateKeepsTexts(cat: Catalog, st: Statement)
    requires TextsOwn(cat) && st.CreateTable? && CreateTableStep(cat, st).Some?
    requires Fold(st.name) !in cat.tables ==> OwnStatement(st)
    ensures TextsOwn(CreateTableStep(cat, st).value)
  {
    if Fold(st.name) !in cat.tables { OneTextChanged(cat, Fold(st.name), NewTable(st.name, st.decls, st.key)); }
  }

  lemma CopyKeepsTexts(e: Storage, cat: Catalog, st: Statement)
    requires TextsOwn(cat) && st.CopyRows? && CopyStep(e, cat, st).Some?
    ensures TextsOwn(CopyStep(e, cat, st).value)
  {
    var t, s := cat.tables[Fold(st.target)], cat.tables[Fold(st.source)];
    var places := Resolve(s.cols, st.cols).value;
    var raws := seq(|s.rows|, i requires 0 <= i < |s.rows| => Offered(t.cols, st.into, places, s.rows[i]));
    InsertRowsLaw(e, t, raws);
    OneTextChanged(cat, Fold(st.target), InsertRows(e, t, raws).value);
  }

  lemma AddColumnKeepsTexts(cat: Catalog, name: string, d: ColumnDecl)
    requires TextsOwn(cat) && AddColumnStep(cat, name, d).Some?
    ensures TextsOwn(AddColumnStep(cat, name, d).value)
  {
    CanonicalOwn(AddColumnStep(cat, name, d).value.tables[Fold(name)]);
  }

  lemma DropColumnKeepsTexts(cat: Catalog, name: string, column: string)
    requires TextsOwn(cat) && DropColumnStep(cat, name, column).Some?
    ensures TextsOwn(DropColumnStep(cat, name, column).value)
  {
    CanonicalOwn(DropColumnStep(cat, name, column).value.tables[Fold(name)]);
  }

  lemma RenameColumnKeepsTexts(cat: Catalog, name: string, o: string, n: string)
    requires TextsOwn(cat) && RenameColumnStep(cat, name, o, n).Some?
    ensures TextsOwn(RenameColumnStep(cat, name, o, n).value)
  {
    CanonicalOwn(RenameColumnStep(cat, name, o, n).value.tables[Fold(name)]);
  }

  lemma TableStepsKeepTexts(cat: Catalog, st: Statement, c': Option<Catalog>)
    requires TextsOwn(cat)
    requires || (st.RenameTable? && c' == RenameTableStep(cat, st.table, st.newName))
             || (st.DropTable? && c' == DropTableStep(cat, st.name, st.ifExists))
             || (st.DropIndex? && c' == DropIndexStep(cat, st.name, st.ifExists))
    ensures c'.Some? ==> TextsOwn(c'.value)
  {
    if st.RenameTable? && c'.Some? { CanonicalOwn(c'.value.tables[Fold(st.newName)]); }
  }

  lemma IndexKeepsTexts(e: Storage, cat: Catalog, st: Statement)
    requires TextsOwn(cat) && st.CreateIndex? && CreateIndexStep(e, cat, st).Some?
    ensures TextsOwn(CreateIndexStep(e, cat, st).value)
  {
  }

  lemma StepKeepsTexts(e: Storage, cat: Catalog, st: Statement)
    requires TextsOwn(cat) && Step(e, cat, st).Some?
    requires st.CreateTable? && Fold(st.name) !in cat.tables ==> OwnStatement(st)
    ensures TextsOwn(Step(e, cat, st).value)
  {
    if st.CreateTable? { CreateKeepsTexts(cat, st); }
    else if st.CopyRows? { CopyKeepsTexts(e, cat, st); }
    else if st.CreateIndex? { IndexKeepsTexts(e, cat, st); }
    else if st.AddColumn? { AddColumnKeepsTexts(cat, st.table, st.col); }
    else if st.DropColumn? { DropColumnKeepsTexts(cat, st.table, st.name); }
    else if st.RenameColumn? { RenameColumnKeepsTexts(cat, st.table, st.oldName, st.newName); }
    else { TableStepsKeepTexts(cat, st, Step(e, cat, st)); }
  }

  // ---- What the text shows ----

  lemma KeyColumn(cols: seq<Column>, k: nat) returns (j: nat)
    requires k < |KeyOf(cols)|
    ensures j < |cols| && cols[j].name == KeyOf(cols)[k]
  {
    var s := KeyEntries(cols);
    SortMembers(s);
    var x := SortByOrder(s)[k];
    assert x in SortByOrder(s);
    KeyEntriesMembers(cols, x);
    j :| 0 <= j < |cols| && cols[j].pk > 0 && x == PkEntry(cols[j].name, cols[j].pk);
  }

  /** The words looked for: no occurrence crosses a quote, a comma or a parenthesis. */
  predicate Searched(p: string) { p == "AUTOINCREMENT" || p == "WITHOUT ROWID" }

  predicate Shows(s: string, p: string) { Contains(Upper(s), p) }

  lemma ShowsAround(a: string, d: char, b: string, p: string)
    requires Searched(p) && (d == '"' || d == ',' || d == '(' || d == ')')
    ensures Shows(a + ([d] + b), p) <==> Shows(a, p) || Shows(b, p)
  {
    assert a + ([d] + b) == (a + [d]) + b;
    FoldConcat(a + [d], b);
    FoldConcat(a, [d]);
    assert Upper([d]) == [d];
    ContainsSplit(Upper(a), d, Upper(b), p);
  }

  lemma {:induction false} DoubledShows(name: string, p: string)
    requires Searched(p)
    ensures Shows(DoubleQuotes(name), p) <==> Shows(name, p)
    decreases |name|
  {
    var i := QuoteAt(name);
    if i == |name| {
      NoQuotes(name);
    } else {
      DoubledShows(name[i + 1..], p);
      DoubledAt(name, i);
      ShowsAround(name[..i], '"', "\"" + DoubleQuotes(name[i + 1..]), p);
      ShowsAround("", '"', DoubleQuotes(name[i + 1..]), p);
      assert "" + ("\"" + DoubleQuotes(name[i + 1..])) == "\"" + DoubleQuotes(name[i + 1..]);
      ShortLacks(Upper(""), p);
      assert name == name[..i] + (['"'] + name[i + 1..]);
      ShowsAround(name[..i], '"', name[i + 1..], p);
    }
  }

  function QuoteAt(name: string): (i: nat)
    ensures i <= |name| && '"' !in name[..i] && (i < |name| ==> name[i] == '"')
  {
    if name == "" || name[0] == '"' then 0
    else var k := QuoteAt(name[1..]); assert name[..k + 1] == [name[0]] + name[1..][..k]; k + 1
  }

  lemma {:induction false} NoQuotes(name: string)
    requires '"' !in name
    ensures DoubleQuotes(name) == name
    decreases |name|
  {
    if name != "" {
      NoQuotes(name[1..]);
      assert name[0] in name;
    }
  }

  lemma {:induction false} DoubledAt(name: string, i: nat)
    requires i < |name| && name[i] == '"' && '"' !in name[..i]
    ensures DoubleQuotes(name) == name[..i] + (['"'] + ("\"" + DoubleQuotes(name[i + 1..])))
    decreases i
  {
    if i > 0 {
      assert name[1..][..i - 1] == name[..i][1..];
      DoubledAt(name[1..], i - 1);
      assert name[1..][i..] == name[i + 1..];
      assert name[0] == name[..i][0];
      assert name[..i] == [name[0]] + name[1..][..i - 1];
    } else {
      assert name[..0] == "";
    }
  }

  /** Around a quoted name that does not show p, only what stands before and after can. */
  lemma QuotedShows(lead: string, name: string, rest: string, p: string)
    requires Searched(p) && !Shows(name, p)
    ensures Shows(lead + (QuoteIdentifier(name) + rest), p) <==> Shows(lead, p) || Shows(rest, p)
  {
    DoubledShows(name, p);
    var inner := DoubleQuotes(name) + (['"'] + rest);
    assert lead + (QuoteIdentifier(name) + rest) == lead + (['"'] + inner);
    ShowsAround(lead, '"', inner, p);
    ShowsAround(DoubleQuotes(name), '"', rest, p);
  }

  predicate PartShows(lead: string, parts: seq<string>, p: string) {
    exists i | 0 <= i < |parts| :: Shows((if i == 0 then lead else " ") + parts[i], p)
  }

  lemma {:induction false} JoinShows(lead: string, parts: seq<string>, p: string)
    requires Searched(p) && parts != []
    ensures Shows(lead + Join(parts, ", "), p) <==> PartShows(lead, parts, p)
    decreases |parts|
  {
    if |parts| == 1 {
    } else {
      var rest := parts[1..];
      JoinShows(" ", rest, p);
      assert parts[0] + ", " + Join(rest, ", ") == parts[0] + ([','] + (" " + Join(rest, ", ")));
      assert lead + (parts[0] + ([','] + (" " + Join(rest, ", "))))
        == (lead + parts[0]) + ([','] + (" " + Join(rest, ", ")));
      ShowsAround(lead + parts[0], ',', " " + Join(rest, ", "), p);
      if PartShows(" ", rest, p) {
        var i :| 0 <= i < |rest| && Shows((if i == 0 then " " else " ") + rest[i], p);
        assert Shows(" " + parts[i + 1], p);
      }
      if PartShows(lead, parts, p) {
        var i :| 0 <= i < |parts| && Shows((if i == 0 then lead else " ") + parts[i], p);
        if i > 0 { assert rest[i - 1] == parts[i] && Shows((if i - 1 == 0 then " " else " ") + rest[i - 1], p); }
      }
    }
  }

  lemma ColumnShows(lead: string, c: ColumnDecl, p: string)
    requires Searched(p) && !Shows(c.name, p) && !Shows(lead, p)
    requires IsEmitted(c.decl) && c.suffix != RowidKey && (c.suffix == AutoRowidKey ==> c.decl == "INTEGER")
    ensures Shows(lead + ColumnText(c), p) <==> p == "AUTOINCREMENT" && c.suffix == AutoRowidKey
  {
    var tail := " " + (c.decl + SuffixText(c.suffix));
    QuotedShows(lead, c.name, tail, p);
    assert lead + ColumnText(c) == lead + (QuoteIdentifier(c.name) + tail);
    TailShows(c, p);
  }

  /** Letters already in upper case, none of them a W or an x. */
  predicate Plainly(s: string, x: char) {
    forall i | 0 <= i < |s| :: UpperChar(s[i]) == s[i] && s[i] != 'W' && s[i] != x
  }

  lemma PlainlyLacks(s: string, x: char, p: string)
    requires Plainly(s, x) && Searched(p) && x in "AUTOINCREMENT"
    ensures !Shows(s, p)
  {
    assert Upper(s) == s;
    if p == "WITHOUT ROWID" { MissingCharLacks(s, p, 'W'); } else { MissingCharLacks(s, p, x); }
  }

  lemma PlainDecl(decl: string)
    requires IsEmitted(decl)
    ensures Plainly(decl, if decl == "NUMERIC" then 'A' else 'C')
  {
  }

  lemma TailShows(c: ColumnDecl, p: string)
    requires Searched(p) && IsEmitted(c.decl) && c.suffix != RowidKey
             && (c.suffix == AutoRowidKey ==> c.decl == "INTEGER")
    ensures Shows(" " + (c.decl + SuffixText(c.suffix)), p) <==> p == "AUTOINCREMENT" && c.suffix == AutoRowidKey
  {
    var tail := " " + (c.decl + SuffixText(c.suffix));
    if c.suffix == AutoRowidKey {
      AutoTail(p);
    } else {
      var x := if c.decl == "NUMERIC" then 'A' else 'C';
      PlainDecl(c.decl);
      assert Plainly(SuffixText(c.suffix), x);
      assert Plainly(tail, x);
      PlainlyLacks(tail, x, p);
    }
  }

  lemma AutoTail(p: string)
    requires Searched(p)
    ensures Shows(" " + ("INTEGER" + " PRIMARY KEY AUTOINCREMENT"), p) <==> p == "AUTOINCREMENT"
  {
    var lead, word := " INTEGER PRIMARY KEY ", "AUTOINCREMENT";
    AutoText(lead, word);
    FoldConcat(lead, word);
    AutoLead(lead);
    AutoWord(word);
    if p == word {
      ContainsMonotone(lead, word, p);
    } else {
      MissingCharLacks(lead + word, p, 'W');
    }
  }

  lemma AutoText(lead: string, word: string)
    requires lead == " INTEGER PRIMARY KEY " && word == "AUTOINCREMENT"
    ensures " " + ("INTEGER" + " PRIMARY KEY AUTOINCREMENT") == lead + word
  {
  }

  lemma AutoLead(lead: string)
    requires lead == " INTEGER PRIMARY KEY "
    ensures Upper(lead) == lead && 'W' !in lead
  {
  }

  lemma AutoWord(word: string)
    requires word == "AUTOINCREMENT"
    ensures Upper(word) == word && 'W' !in word && Contains(word, word)
  {
    assert word[0..|word|] == word;
    ContainsAt(word, word, 0);
  }

  lemma KeyShows(lead: string, key: seq<string>, p: string)
    requires Searched(p) && key != [] && (lead == "" || lead == " ") && forall i | 0 <= i < |key| :: !Shows(key[i], p)
    ensures !Shows(lead + KeyText(key), p)
  {
    var names := Join(Quoted(key), ", ");
    var head := lead + "PRIMARY KEY ";
    assert lead + KeyText(key) == head + (['('] + (names + ([')'] + "")));
    ShowsAround(head, '(', names + ([')'] + ""), p);
    ShowsAround(names, ')', "", p);
    ShortLacks(Upper(""), p);
    assert Plainly(head, 'C');
    PlainlyLacks(head, 'C', p);
    NamesShow(key, p);
  }

  lemma NamesShow(key: seq<string>, p: string)
    requires Searched(p) && key != [] && forall i | 0 <= i < |key| :: !Shows(key[i], p)
    ensures !Shows(Join(Quoted(key), ", "), p)
  {
    assert "" + Join(Quoted(key), ", ") == Join(Quoted(key), ", ");
    JoinShows("", Quoted(key), p);
    forall i | 0 <= i < |key| ensures !Shows((if i == 0 then "" else " ") + Quoted(key)[i], p) {
      var l := if i == 0 then "" else " ";
      QuotedShows(l, key[i], "", p);
      assert Quoted(key)[i] == QuoteIdentifier(key[i]) + "";
      ShortLacks(Upper(l), p);
      ShortLacks(Upper(""), p);
    }
  }

  predicate CleanColumns(cols: seq<Column>, p: string) {
    forall j | 0 <= j < |cols| :: IsEmitted(cols[j].decl) && !Shows(cols[j].name, p)
  }

  predicate HasInline(cols: seq<Column>, auto: bool) { auto && exists j | 0 <= j < |cols| :: cols[j].pk == 1 }

  lemma BodyShows(cols: seq<Column>, auto: bool, key: seq<string>, p: string)
    requires Searched(p) && cols != [] && CleanColumns(cols, p) && forall i | 0 <= i < |key| :: !Shows(key[i], p)
    requires auto ==> forall j | 0 <= j < |cols| && cols[j].pk == 1 :: cols[j].decl == "INTEGER"
    ensures Shows(Join(BodyParts(DeclsOf(cols, auto), key), ", "), p) <==> p == "AUTOINCREMENT" && HasInline(cols, auto)
  {
    var decls := DeclsOf(cols, auto);
    var parts := BodyParts(decls, key);
    assert "" + Join(parts, ", ") == Join(parts, ", ");
    JoinShows("", parts, p);
    forall i | 0 <= i < |parts|
      ensures Shows((if i == 0 then "" else " ") + parts[i], p)
              <==> i < |cols| && p == "AUTOINCREMENT" && auto && cols[i].pk == 1
    {
      var lead := if i == 0 then "" else " ";
      ShortLacks(Upper(lead), p);
      if i < |cols| {
        assert parts[i] == ColumnText(decls[i]);
        ColumnShows(lead, decls[i], p);
      } else {
        KeyShows(lead, key, p);
      }
    }
    if HasInline(cols, auto) && p == "AUTOINCREMENT" {
      var j :| 0 <= j < |cols| && cols[j].pk == 1;
      assert Shows((if j == 0 then "" else " ") + parts[j], p);
    }
  }

  lemma KeyNamesClean(cols: seq<Column>, key: seq<string>, p: string)
    requires CleanColumns(cols, p) && Alike(key, KeyOf(cols))
    ensures forall i | 0 <= i < |key| :: !Shows(key[i], p)
  {
    forall i | 0 <= i < |key| ensures !Shows(key[i], p) {
      var j := KeyColumn(cols, i);
      FoldIsUpperEquality(key[i], cols[j].name);
    }
  }

  /** The kept text shows AUTOINCREMENT exactly when the table has an inline auto-increment key,
      and never WITHOUT ROWID, when no name of the table spells the word. */
  lemma TextShows(name: string, cols: seq<Column>, auto: bool, clause: seq<string>, p: string)
    requires Alike(clause, KeyOf(cols))
    requires Searched(p) && cols != [] && CleanColumns(cols, p) && !Shows(name, p)
    requires auto ==> forall j | 0 <= j < |cols| && cols[j].pk == 1 :: cols[j].decl == "INTEGER"
    ensures Shows(TextWithKey(name, cols, auto, clause), p) <==> p == "AUTOINCREMENT" && HasInline(cols, auto)
  {
    var key := if auto then [] else clause;
    KeyNamesClean(cols, clause, p);
    BodyShows(cols, auto, key, p);
    FrameShows(name, Join(BodyParts(DeclsOf(cols, auto), key), ", "), p);
  }

  lemma FrameShows(name: string, body: string, p: string)
    requires Searched(p) && !Shows(name, p)
    ensures Shows("CREATE TABLE " + ("" + (QuoteIdentifier(name) + (" (" + (body + ")")))), p) <==> Shows(body, p)
  {
    var create := "CREATE TABLE ";
    assert Upper(create) == create;
    MissingCharLacks(create, "AUTOINCREMENT", 'O');
    MissingCharLacks(create, "WITHOUT ROWID", 'W');
    assert "" + (QuoteIdentifier(name) + (" (" + (body + ")"))) == QuoteIdentifier(name) + (" (" + (body + ")"));
    QuotedShows(create, name, " (" + (body + ")"), p);
    assert " (" + (body + ")") == " " + (['('] + (body + ([')'] + "")));
    ShowsAround(" ", '(', body + ([')'] + ""), p);
    ShowsAround(body, ')', "", p);
    ShortLacks(Upper(" "), p);
    ShortLacks(Upper(""), p);
  }
}
