/** A recursive-descent reader of the generated grammar, written from SQLite's rules for
    quoted identifiers, and the proof that it undoes the generator. */
module SqlParser {
  import opened Text
  import opened SqlText

  datatype Parsed<+T> = Fail | Got(value: T, rest: string)

  /** The body of a quoted identifier: up to a quote that is not doubled. SQLite's
      tokenizer ends the statement at a NUL, so a NUL makes the identifier unterminated. */
  function ScanQuoted(s: string): (r: Parsed<string>)
    ensures r.Got? ==> |r.rest| < |s|
  {
    if s == "" || s[0] == '\0' then Fail
    else if s[0] != '"' then
      match ScanQuoted(s[1..]) case Fail => Fail case Got(v, rest) => Got([s[0]] + v, rest)
    else if |s| >= 2 && s[1] == '"' then
      match ScanQuoted(s[2..]) case Fail => Fail case Got(v, rest) => Got(['"'] + v, rest)
    else Got("", s[1..])
  }

  function Expect(s: string, literal: string): (r: Parsed<()>)
    ensures r.Got? ==> s == literal + r.rest
  {
    if literal <= s then Got((), s[|literal|..]) else Fail
  }

  function ParseIdent(s: string): (r: Parsed<string>)
    ensures r.Got? ==> |r.rest| < |s|
  {
    if s != "" && s[0] == '"' then ScanQuoted(s[1..]) else Fail
  }

  predicate IsUpper(c: char) { 'A' <= c <= 'Z' }

  predicate IsKeyword(w: string) {
    w != "" && forall i | 0 <= i < |w| :: IsUpper(w[i])
  }

  /** A maximal run of upper-case letters: a type keyword. */
  function ScanWord(s: string): (r: (string, string))
    ensures |r.1| <= |s|
  {
    if s == "" || !IsUpper(s[0]) then ("", s)
    else var (w, rest) := ScanWord(s[1..]); ([s[0]] + w, rest)
  }

  function ParseSuffix(s: string): (r: (Suffix, string))
    ensures |r.1| <= |s|
  {
    if " PRIMARY KEY AUTOINCREMENT" <= s then (AutoRowidKey, s[26..])
    else if " PRIMARY KEY" <= s then (RowidKey, s[12..])
    else if " NOT NULL" <= s then (NotNull, s[9..])
    else (Plain, s)
  }

  function ParseColumn(s: string): (r: Parsed<ColumnDecl>)
    ensures r.Got? ==> |r.rest| < |s|
  {
    match ParseIdent(s)
    case Fail => Fail
    case Got(name, s1) =>
      match Expect(s1, " ")
      case Fail => Fail
      case Got(_, s2) =>
        var (decl, s3) := ScanWord(s2);
        if decl == "" then Fail
        else var (suffix, s4) := ParseSuffix(s3); Got(ColumnDecl(name, decl, suffix), s4)
  }

  function ParseIdents(s: string): (r: Parsed<seq<string>>)
    ensures r.Got? ==> |r.rest| < |s|
    decreases |s|
  {
    match ParseIdent(s)
    case Fail => Fail
    case Got(name, s1) =>
      match Expect(s1, ", ")
      case Fail => Got([name], s1)
      case Got(_, s2) =>
        match ParseIdents(s2) case Fail => Fail case Got(names, s3) => Got([name] + names, s3)
  }

  /** "(" idents ")", the opening bracket with its keyword already read. */
  function ParseIdentList(s: string): (r: Parsed<seq<string>>)
    ensures r.Got? ==> |r.rest| < |s|
  {
    match ParseIdents(s)
    case Fail => Fail
    case Got(names, s1) => match Expect(s1, ")") case Fail => Fail case Got(_, s2) => Got(names, s2)
  }

  datatype Body = Body(cols: seq<ColumnDecl>, key: seq<string>)

  /** The names of a key clause and the two closing brackets. */
  function ParseKey(s: string): (r: Parsed<seq<string>>)
    ensures r.Got? ==> |r.rest| < |s|
  {
    match ParseIdentList(s)
    case Fail => Fail
    case Got(key, s1) => match Expect(s1, ")") case Fail => Fail case Got(_, s2) => Got(key, s2)
  }

  /** A table body: columns, then at most one key clause, then the closing bracket. */
  function ParseBody(s: string): (r: Parsed<Body>)
    ensures r.Got? ==> |r.rest| < |s|
    decreases |s|
  {
    match ParseColumn(s)
    case Fail => Fail
    case Got(col, s1) =>
      match Expect(s1, ")")
      case Got(_, s2) => Got(Body([col], []), s2)
      case Fail =>
        match Expect(s1, ", ")
        case Fail => Fail
        case Got(_, s2) =>
          match Expect(s2, "PRIMARY KEY (")
          case Got(_, s3) =>
            (match ParseKey(s3) case Fail => Fail case Got(key, s4) => Got(Body([col], key), s4))
          case Fail =>
            match ParseBody(s2)
            case Fail => Fail
            case Got(b, s3) => Got(Body([col] + b.cols, b.key), s3)
  }

  /** An optional phrase: whether it was there, and what follows. */
  function Optional(s: string, literal: string): (bool, string) {
    if literal <= s then (true, s[|literal|..]) else (false, s)
  }

  function ParseCreateTable(s: string): Parsed<Statement> {
    var (ine, s1) := Optional(s, "IF NOT EXISTS ");
    match ParseIdent(s1)
    case Fail => Fail
    case Got(name, s2) =>
      match Expect(s2, " (")
      case Fail => Fail
      case Got(_, s3) =>
        match ParseBody(s3) case Fail => Fail case Got(b, s4) => Got(CreateTable(ine, name, b.cols, b.key), s4)
  }

  function ParseCreateIndex(s: string, unique: bool): Parsed<Statement> {
    var (ine, s1) := Optional(s, "IF NOT EXISTS ");
    match ParseIdent(s1)
    case Fail => Fail
    case Got(name, s2) =>
      match Expect(s2, " ON ")
      case Fail => Fail
      case Got(_, s3) =>
        match ParseIdent(s3)
        case Fail => Fail
        case Got(table, s4) =>
          match Expect(s4, " (")
          case Fail => Fail
          case Got(_, s5) =>
            match ParseIdentList(s5)
            case Fail => Fail
            case Got(cols, s6) => Got(CreateIndex(unique, ine, name, table, cols), s6)
  }

  /** The phrase a statement or an ALTER TABLE action begins with. */
  datatype Verb =
    | CreateTableVerb | CreateUniqueIndexVerb | CreateIndexVerb | DropTableVerb | DropIndexVerb
    | AlterTableVerb | InsertVerb | AddVerb | DropColumnVerb | RenameToVerb | RenameColumnVerb

  function VerbText(v: Verb): string {
    match v
    case CreateTableVerb => "CREATE TABLE "
    case CreateUniqueIndexVerb => "CREATE UNIQUE INDEX "
    case CreateIndexVerb => "CREATE INDEX "
    case DropTableVerb => "DROP TABLE "
    case DropIndexVerb => "DROP INDEX "
    case AlterTableVerb => "ALTER TABLE "
    case InsertVerb => "INSERT INTO "
    case AddVerb => " ADD COLUMN "
    case DropColumnVerb => " DROP COLUMN "
    case RenameToVerb => " RENAME TO "
    case RenameColumnVerb => " RENAME COLUMN "
  }

  function ReadVerb(s: string, verbs: seq<Verb>): Parsed<Verb> {
    if verbs == [] then Fail
    else if VerbText(verbs[0]) <= s then Got(verbs[0], s[|VerbText(verbs[0])|..])
    else ReadVerb(s, verbs[1..])
  }

  const STATEMENTS := [CreateTableVerb, CreateUniqueIndexVerb, CreateIndexVerb, DropTableVerb, DropIndexVerb,
                       AlterTableVerb, InsertVerb]
  const ACTIONS := [AddVerb, DropColumnVerb, RenameToVerb, RenameColumnVerb]

  function ParseAction(table: string, v: Verb, s: string): Parsed<Statement> {
    match v
    case AddVerb => (match ParseColumn(s) case Fail => Fail case Got(c, r) => Got(AddColumn(table, c), r))
    case DropColumnVerb => (match ParseIdent(s) case Fail => Fail case Got(n, r) => Got(DropColumn(table, n), r))
    case RenameToVerb => (match ParseIdent(s) case Fail => Fail case Got(n, r) => Got(RenameTable(table, n), r))
    case RenameColumnVerb =>
      (match ParseIdent(s)
       case Fail => Fail
       case Got(o, s2) =>
         match Expect(s2, " TO ")
         case Fail => Fail
         case Got(_, s3) => match ParseIdent(s3) case Fail => Fail case Got(n, r) => Got(RenameColumn(table, o, n), r))
    case _ => Fail
  }

  function ParseAlter(s: string): Parsed<Statement> {
    match ParseIdent(s)
    case Fail => Fail
    case Got(table, s1) =>
      match ReadVerb(s1, ACTIONS) case Fail => Fail case Got(v, s2) => ParseAction(table, v, s2)
  }

  function ParseDrop(s: string, table: bool): Parsed<Statement> {
    var (ie, s1) := Optional(s, "IF EXISTS ");
    match ParseIdent(s1)
    case Fail => Fail
    case Got(n, r) => Got(if table then DropTable(ie, n) else DropIndex(ie, n), r)
  }

  function ParseSelect(target: string, into: seq<string>, s: string): Parsed<Statement> {
    match Expect(s, " SELECT ")
    case Fail => Fail
    case Got(_, s1) =>
      match ParseIdents(s1)
      case Fail => Fail
      case Got(cols, s2) =>
        match Expect(s2, " FROM ")
        case Fail => Fail
        case Got(_, s3) =>
          match ParseIdent(s3) case Fail => Fail case Got(source, r) => Got(CopyRows(target, into, cols, source), r)
  }

  function ParseCopy(s: string): Parsed<Statement> {
    match ParseIdent(s)
    case Fail => Fail
    case Got(target, s1) =>
      match Expect(s1, " (")
      case Fail => Fail
      case Got(_, s2) =>
        match ParseIdentList(s2) case Fail => Fail case Got(into, s3) => ParseSelect(target, into, s3)
  }

  function ParseBy(v: Verb, s: string): Parsed<Statement> {
    match v
    case CreateTableVerb => ParseCreateTable(s)
    case CreateUniqueIndexVerb => ParseCreateIndex(s, true)
    case CreateIndexVerb => ParseCreateIndex(s, false)
    case DropTableVerb => ParseDrop(s, true)
    case DropIndexVerb => ParseDrop(s, false)
    case AlterTableVerb => ParseAlter(s)
    case InsertVerb => ParseCopy(s)
    case _ => Fail
  }

  function ParseHead(s: string): Parsed<Statement> {
    match ReadVerb(s, STATEMENTS) case Fail => Fail case Got(v, rest) => ParseBy(v, rest)
  }

  /** The statement a text denotes; the whole text must be used. */
  function ParseStatement(s: string): Option<Statement> {
    match ParseHead(s)
    case Fail => None
    case Got(st, rest) => if rest == "" then Some(st) else None
  }

  // ---- What the generator writes is read back ----

  predicate NulFree(s: string) { '\0' !in s }

  predicate NulFreeAll(names: seq<string>) {
    forall i | 0 <= i < |names| :: NulFree(names[i])
  }

  /** What may follow an identifier without joining it. */
  predicate NoQuote(rest: string) { rest == "" || rest[0] != '"' }

  /** What may follow a column declaration. */
  predicate EndsColumn(rest: string) { rest == "" || rest[0] == ',' || rest[0] == ')' }

  /** Reading a quoted name gives back exactly the name and the untouched rest; a name
      with a NUL is not read at all. */
  lemma {:induction false} ScanQuotedText(n: string, rest: string)
    requires NoQuote(rest)
    ensures ScanQuoted(DoubleQuotes(n) + "\"" + rest) == if NulFree(n) then Got(n, rest) else Fail
    decreases n
  {
    var s := DoubleQuotes(n) + "\"" + rest;
    if n == "" {
      assert s == "\"" + rest;
      assert s[1..] == rest;
    } else {
      ScanQuotedText(n[1..], rest);
      var t := DoubleQuotes(n[1..]) + "\"" + rest;
      assert n == [n[0]] + n[1..];
      assert NulFree(n) <==> n[0] != '\0' && NulFree(n[1..]);
      if n[0] == '"' {
        assert s == "\"\"" + t;
        assert s[2..] == t;
      } else {
        assert s == [n[0]] + t;
        assert s[1..] == t;
      }
    }
  }

  /** The identifier law: a quoted name is read back exactly when it has no NUL. */
  lemma IdentRoundTrip(n: string, rest: string)
    requires NoQuote(rest)
    ensures ParseIdent(QuoteIdentifier(n) + rest) == if NulFree(n) then Got(n, rest) else Fail
  {
    var s := QuoteIdentifier(n) + rest;
    assert s[1..] == DoubleQuotes(n) + "\"" + rest;
    ScanQuotedText(n, rest);
  }

  lemma IdentEnd(n: string)
    ensures ParseIdent(QuoteIdentifier(n)) == if NulFree(n) then Got(n, "") else Fail
  {
    IdentRoundTrip(n, "");
    assert QuoteIdentifier(n) + "" == QuoteIdentifier(n);
  }

  lemma ExpectLiteral(literal: string, rest: string)
    ensures Expect(literal + rest, literal) == Got((), rest)
  {
    assert literal <= literal + rest;
    assert (literal + rest)[|literal|..] == rest;
  }

  lemma {:induction false} ScanWordText(w: string, rest: string)
    requires forall i | 0 <= i < |w| :: IsUpper(w[i])
    requires rest == "" || !IsUpper(rest[0])
    ensures ScanWord(w + rest) == (w, rest)
    decreases w
  {
    if w == "" {
      assert w + rest == rest;
    } else {
      assert (w + rest)[1..] == w[1..] + rest;
      ScanWordText(w[1..], rest);
      assert IsUpper((w + rest)[0]) && w == [w[0]] + w[1..];
    }
  }

  lemma SuffixRoundTrip(x: Suffix, rest: string)
    requires EndsColumn(rest)
    ensures ParseSuffix(SuffixText(x) + rest) == (x, rest)
  {
    var s := SuffixText(x) + rest;
    assert s[|SuffixText(x)|..] == rest;
    match x {
      case Plain =>
        assert s == rest;
        assert " PRIMARY KEY AUTOINCREMENT"[0] == ' ' && " PRIMARY KEY"[0] == ' ' && " NOT NULL"[0] == ' ';
      case NotNull =>
        assert s[1] == 'N';
        assert " PRIMARY KEY AUTOINCREMENT"[1] == 'P' && " PRIMARY KEY"[1] == 'P';
      case RowidKey =>
        assert |s| > 12 ==> s[12] == rest[0];
        assert " PRIMARY KEY AUTOINCREMENT"[12] == ' ';
      case AutoRowidKey =>
    }
  }

  lemma ColumnRoundTrip(c: ColumnDecl, rest: string)
    requires IsKeyword(c.decl) && EndsColumn(rest)
    ensures ParseColumn(ColumnText(c) + rest) == if NulFree(c.name) then Got(c, rest) else Fail
  {
    var tail := SuffixText(c.suffix) + rest;
    var s2 := c.decl + tail;
    assert ColumnText(c) + rest == QuoteIdentifier(c.name) + (" " + s2);
    IdentRoundTrip(c.name, " " + s2);
    ExpectLiteral(" ", s2);
    assert tail != "" ==> tail[0] in {' ', ',', ')'};
    ScanWordText(c.decl, tail);
    SuffixRoundTrip(c.suffix, rest);
  }

  lemma ColumnEnd(c: ColumnDecl)
    requires IsKeyword(c.decl)
    ensures ParseColumn(ColumnText(c)) == if NulFree(c.name) then Got(c, "") else Fail
  {
    ColumnRoundTrip(c, "");
    assert ColumnText(c) + "" == ColumnText(c);
  }

  lemma JoinStep(head: string, more: seq<string>, rest: string)
    requires more != []
    ensures Join([head] + more, ", ") + rest == head + (", " + (Join(more, ", ") + rest))
  {
    assert ([head] + more)[1..] == more;
  }

  lemma QuotedStep(names: seq<string>)
    requires names != []
    ensures Quoted(names) == [QuoteIdentifier(names[0])] + Quoted(names[1..])
  {
  }

  lemma {:induction false} IdentsRoundTrip(names: seq<string>, rest: string)
    requires names != [] && NoQuote(rest) && Expect(rest, ", ").Fail?
    ensures ParseIdents(Join(Quoted(names), ", ") + rest) == if NulFreeAll(names) then Got(names, rest) else Fail
    decreases |names|
  {
    QuotedStep(names);
    assert names == [names[0]] + names[1..];
    assert NulFreeAll(names) <==> NulFree(names[0]) && NulFreeAll(names[1..]);
    if |names| == 1 {
      assert Join(Quoted(names), ", ") == QuoteIdentifier(names[0]) && names == [names[0]];
      IdentRoundTrip(names[0], rest);
    } else {
      var more := Join(Quoted(names[1..]), ", ") + rest;
      JoinStep(QuoteIdentifier(names[0]), Quoted(names[1..]), rest);
      IdentRoundTrip(names[0], ", " + more);
      ExpectLiteral(", ", more);
      IdentsRoundTrip(names[1..], rest);
    }
  }

  lemma IdentListRoundTrip(names: seq<string>, rest: string)
    requires names != []
    ensures ParseIdentList(Join(Quoted(names), ", ") + (")" + rest)) == if NulFreeAll(names) then Got(names, rest)
            else Fail
  {
    var r := ")" + rest;
    assert r[0] == ')' && ", "[0] == ',';
    IdentsRoundTrip(names, r);
    ExpectLiteral(")", rest);
  }

  lemma IdentListEnd(names: seq<string>)
    requires names != []
    ensures ParseIdentList(Join(Quoted(names), ", ") + ")") == if NulFreeAll(names) then Got(names, "") else Fail
  {
    IdentListRoundTrip(names, "");
    assert ")" + "" == ")";
  }

  predicate KeywordTypes(cols: seq<ColumnDecl>) {
    forall i | 0 <= i < |cols| :: IsKeyword(cols[i].decl)
  }

  predicate NulFreeColumns(cols: seq<ColumnDecl>) {
    forall i | 0 <= i < |cols| :: NulFree(cols[i].name)
  }

  lemma OneColumnBody(col: ColumnDecl, rest: string)
    requires IsKeyword(col.decl)
    ensures ParseBody(ColumnText(col) + (")" + rest)) == if NulFree(col.name) then Got(Body([col], []), rest) else Fail
  {
    ColumnRoundTrip(col, ")" + rest);
    ExpectLiteral(")", rest);
  }

  lemma KeyRoundTrip(key: seq<string>, rest: string)
    requires key != []
    ensures ParseKey(Join(Quoted(key), ", ") + (")" + (")" + rest))) == if NulFreeAll(key) then Got(key, rest) else Fail
  {
    IdentListRoundTrip(key, ")" + rest);
    ExpectLiteral(")", rest);
  }

  lemma ColumnThenKey(col: ColumnDecl, key: seq<string>, rest: string)
    requires IsKeyword(col.decl) && key != []
    ensures ParseBody(ColumnText(col) + (", " + (KeyText(key) + (")" + rest))))
            == if NulFree(col.name) && NulFreeAll(key) then Got(Body([col], key), rest) else Fail
  {
    var inner := Join(Quoted(key), ", ") + (")" + (")" + rest));
    var more := KeyText(key) + (")" + rest);
    assert more == "PRIMARY KEY (" + inner;
    assert (", " + more)[0] == ',';
    ColumnRoundTrip(col, ", " + more);
    ExpectLiteral(", ", more);
    assert Expect(", " + more, ")").Fail? by { assert ")"[0] == ')'; }
    ExpectLiteral("PRIMARY KEY (", inner);
    KeyRoundTrip(key, rest);
  }

  lemma ColumnThenBody(col: ColumnDecl, more: string, b: Parsed<Body>)
    requires IsKeyword(col.decl)
    requires more != "" && more[0] == '"' && ParseBody(more) == b
    ensures ParseBody(ColumnText(col) + (", " + more))
            == if NulFree(col.name) && b.Got? then Got(Body([col] + b.value.cols, b.value.key), b.rest) else Fail
  {
    assert (", " + more)[0] == ',';
    ColumnRoundTrip(col, ", " + more);
    ExpectLiteral(", ", more);
    assert Expect(", " + more, ")").Fail? by { assert ")"[0] == ')'; }
    assert Expect(more, "PRIMARY KEY (").Fail? by { assert "PRIMARY KEY ("[0] == 'P'; }
  }

  lemma BodyPartsStep(cols: seq<ColumnDecl>, key: seq<string>)
    requires cols != []
    ensures BodyParts(cols, key) == [ColumnText(cols[0])] + BodyParts(cols[1..], key)
  {
  }

  predicate ReadableBody(cols: seq<ColumnDecl>, key: seq<string>) {
    cols != [] && NulFreeColumns(cols) && NulFreeAll(key)
  }

  /** A table body is read back exactly when it has a column and no name has a NUL. */
  lemma {:induction false} BodyRoundTrip(cols: seq<ColumnDecl>, key: seq<string>, rest: string)
    requires KeywordTypes(cols)
    ensures ParseBody(Join(BodyParts(cols, key), ", ") + (")" + rest))
            == if ReadableBody(cols, key) then Got(Body(cols, key), rest) else Fail
    decreases |cols|
  {
    if cols == [] {
      NoColumnBody(key, rest);
    } else {
      BodyPartsStep(cols, key);
      assert cols == [cols[0]] + cols[1..];
      assert NulFreeColumns(cols) <==> NulFree(cols[0].name) && NulFreeColumns(cols[1..]);
      if |cols| == 1 && key == [] {
        assert BodyParts(cols, key) == [ColumnText(cols[0])] && cols == [cols[0]];
        OneColumnBody(cols[0], rest);
      } else {
        var parts := BodyParts(cols[1..], key);
        JoinStep(ColumnText(cols[0]), parts, ")" + rest);
        if |cols| == 1 {
          assert parts == [KeyText(key)] && cols == [cols[0]];
          assert Join(parts, ", ") == KeyText(key);
          ColumnThenKey(cols[0], key, rest);
        } else {
          var more := Join(parts, ", ") + (")" + rest);
          assert more[0] == '"' by { BodyPartsStep(cols[1..], key); assert parts[0][0] == '"'; }
          BodyRoundTrip(cols[1..], key, rest);
          ColumnThenBody(cols[0], more, ParseBody(more));
        }
      }
    }
  }

  lemma NoColumnBody(key: seq<string>, rest: string)
    ensures ParseBody(Join(BodyParts([], key), ", ") + (")" + rest)).Fail?
  {
    var s := Join(BodyParts([], key), ", ") + (")" + rest);
    if key == [] {
      assert BodyParts([], key) == [];
      assert s[0] == ')';
    } else {
      assert BodyParts([], key) == [KeyText(key)];
      assert Join(BodyParts([], key), ", ") == KeyText(key);
      assert s[0] == 'P';
    }
  }

  /** The shapes the generator emits: keyword types, no empty index or copy list. */
  predicate Emittable(st: Statement) {
    match st
    case CreateTable(_, _, decls, _) => KeywordTypes(decls)
    case CreateIndex(_, _, _, _, cols) => cols != []
    case AddColumn(_, col) => IsKeyword(col.decl)
    case CopyRows(_, into, cols, _) => into != [] && cols != []
    case _ => true
  }

  /** The statements SQLite can read: a table has a column, and no name has a NUL. */
  predicate Readable(st: Statement) {
    match st
    case CreateTable(_, name, decls, key) => NulFree(name) && ReadableBody(decls, key)
    case CreateIndex(_, _, name, table, cols) => NulFree(name) && NulFree(table) && NulFreeAll(cols)
    case DropTable(_, name) => NulFree(name)
    case DropIndex(_, name) => NulFree(name)
    case AddColumn(table, col) => NulFree(table) && NulFree(col.name)
    case DropColumn(table, name) => NulFree(table) && NulFree(name)
    case RenameColumn(table, o, n) => NulFree(table) && NulFree(o) && NulFree(n)
    case RenameTable(table, n) => NulFree(table) && NulFree(n)
    case CopyRows(t, into, cols, s) => NulFree(t) && NulFree(s) && NulFreeAll(into) && NulFreeAll(cols)
  }

  function Outcome(st: Statement): Parsed<Statement> {
    if Readable(st) then Got(st, "") else Fail
  }

  lemma OptionalText(present: bool, literal: string, n: string, rest: string)
    requires literal != "" && literal[0] != '"'
    ensures Optional(Flag(present, literal) + (QuoteIdentifier(n) + rest), literal)
            == (present, QuoteIdentifier(n) + rest)
  {
    var t := QuoteIdentifier(n) + rest;
    assert "" + t == t;
    assert (literal + t)[|literal|..] == t;
    assert t[0] == '"';
  }

  lemma OptionalEnd(present: bool, literal: string, n: string)
    requires literal != "" && literal[0] != '"'
    ensures Optional(Flag(present, literal) + QuoteIdentifier(n), literal) == (present, QuoteIdentifier(n))
  {
    OptionalText(present, literal, n, "");
    assert QuoteIdentifier(n) + "" == QuoteIdentifier(n);
  }

  lemma PrefixDiffers(a: string, b: string, rest: string, k: nat)
    requires k < |a| && k < |b| && a[k] != b[k]
    ensures !(a <= b + rest)
  {
    assert (b + rest)[k] == b[k];
  }

  predicate IsAction(v: Verb) { v.AddVerb? || v.DropColumnVerb? || v.RenameToVerb? || v.RenameColumnVerb? }

  /** A character of the phrase at which it differs from the others of its list. */
  function Mark(v: Verb, k: nat): char {
    match v
    case CreateTableVerb => if k == 0 then 'C' else 'T'
    case CreateUniqueIndexVerb => if k == 0 then 'C' else 'U'
    case CreateIndexVerb => if k == 0 then 'C' else 'I'
    case DropTableVerb => if k == 0 then 'D' else 'T'
    case DropIndexVerb => if k == 0 then 'D' else 'I'
    case AlterTableVerb => 'A'
    case InsertVerb => 'I'
    case AddVerb => 'A'
    case DropColumnVerb => 'D'
    case RenameToVerb => if k == 1 then 'R' else 'T'
    case RenameColumnVerb => if k == 1 then 'R' else 'C'
  }

  predicate Marked(v: Verb, text: string) {
    && |text| > 8
    && (!IsAction(v) ==> text[0] == Mark(v, 0))
    && (IsAction(v) ==> text[1] == Mark(v, 1))
    && (v.CreateTableVerb? || v.CreateUniqueIndexVerb? || v.CreateIndexVerb? ==> text[7] == Mark(v, 7))
    && (v.DropTableVerb? || v.DropIndexVerb? ==> text[5] == Mark(v, 5))
    && (v.RenameToVerb? || v.RenameColumnVerb? ==> text[8] == Mark(v, 8))
  }

  lemma VerbMarked(v: Verb)
    ensures Marked(v, VerbText(v))
  {
    match v {
      case CreateTableVerb => assert VerbText(v)[7] == 'T';
      case CreateUniqueIndexVerb => assert VerbText(v)[7] == 'U';
      case CreateIndexVerb => assert VerbText(v)[7] == 'I';
      case DropTableVerb => assert VerbText(v)[5] == 'T';
      case DropIndexVerb => assert VerbText(v)[5] == 'I';
      case AlterTableVerb => assert VerbText(v)[0] == 'A';
      case InsertVerb => assert VerbText(v)[0] == 'I';
      case AddVerb => assert VerbText(v)[1] == 'A';
      case DropColumnVerb => assert VerbText(v)[1] == 'D';
      case RenameToVerb => assert VerbText(v)[8] == 'T';
      case RenameColumnVerb => assert VerbText(v)[8] == 'C';
    }
  }

  lemma MarkedDiffer(a: Verb, b: Verb, ta: string, tb: string) returns (k: nat)
    requires a != b && IsAction(a) == IsAction(b) && Marked(a, ta) && Marked(b, tb)
    ensures k < |ta| && k < |tb| && ta[k] != tb[k]
  {
    k := if IsAction(a) then (if Mark(a, 1) == Mark(b, 1) then 8 else 1)
         else if Mark(a, 0) != Mark(b, 0) then 0
         else if a.DropTableVerb? || a.DropIndexVerb? then 5 else 7;
  }

  lemma {:induction false} VerbRoundTrip(v: Verb, rest: string, verbs: seq<Verb>)
    requires v in verbs && forall i | 0 <= i < |verbs| :: IsAction(verbs[i]) == IsAction(v)
    ensures ReadVerb(VerbText(v) + rest, verbs) == Got(v, rest)
    decreases |verbs|
  {
    var text := VerbText(v);
    assert (text + rest)[|text|..] == rest;
    if verbs[0] != v {
      VerbMarked(v);
      VerbMarked(verbs[0]);
      var k := MarkedDiffer(verbs[0], v, VerbText(verbs[0]), text);
      PrefixDiffers(VerbText(verbs[0]), text, rest, k);
      VerbRoundTrip(v, rest, verbs[1..]);
    }
  }

  lemma HeadText(v: Verb, rest: string)
    requires !IsAction(v)
    ensures ParseHead(VerbText(v) + rest) == ParseBy(v, rest)
  {
    assert v in STATEMENTS by {
      assert STATEMENTS[0].CreateTableVerb? && STATEMENTS[1].CreateUniqueIndexVerb? && STATEMENTS[2].CreateIndexVerb?;
      assert STATEMENTS[3].DropTableVerb? && STATEMENTS[4].DropIndexVerb? && STATEMENTS[5].AlterTableVerb?;
      assert STATEMENTS[6].InsertVerb?;
    }
    VerbRoundTrip(v, rest, STATEMENTS);
  }

  lemma ActionVerb(v: Verb, rest: string)
    requires IsAction(v)
    ensures ReadVerb(VerbText(v) + rest, ACTIONS) == Got(v, rest)
  {
    assert v in ACTIONS by {
      assert ACTIONS[0].AddVerb? && ACTIONS[1].DropColumnVerb? && ACTIONS[2].RenameToVerb?
        && ACTIONS[3].RenameColumnVerb?;
    }
    VerbRoundTrip(v, rest, ACTIONS);
  }

  lemma CreateTableRoundTrip(st: Statement)
    requires st.CreateTable? && Emittable(st)
    ensures ParseHead(StatementText(st)) == Outcome(st)
  {
    var body := Join(BodyParts(st.decls, st.key), ", ") + ")";
    var s := Flag(st.ifNotExists, "IF NOT EXISTS ") + (QuoteIdentifier(st.name) + (" (" + body));
    HeadText(CreateTableVerb, s);
    OptionalText(st.ifNotExists, "IF NOT EXISTS ", st.name, " (" + body);
    IdentRoundTrip(st.name, " (" + body);
    ExpectLiteral(" (", body);
    BodyRoundTrip(st.decls, st.key, "");
    assert ")" + "" == ")";
  }

  lemma CreateIndexRoundTrip(st: Statement)
    requires st.CreateIndex? && Emittable(st)
    ensures ParseHead(StatementText(st)) == Outcome(st)
  {
    var list := Join(Quoted(st.cols), ", ") + ")";
    var s3 := QuoteIdentifier(st.table) + (" (" + list);
    var s := Flag(st.ifNotExists, "IF NOT EXISTS ") + (QuoteIdentifier(st.name) + (" ON " + s3));
    var verb := if st.unique then CreateUniqueIndexVerb else CreateIndexVerb;
    assert StatementText(st) == VerbText(verb) + s;
    HeadText(verb, s);
    OptionalText(st.ifNotExists, "IF NOT EXISTS ", st.name, " ON " + s3);
    IdentRoundTrip(st.name, " ON " + s3);
    ExpectLiteral(" ON ", s3);
    IdentRoundTrip(st.table, " (" + list);
    ExpectLiteral(" (", list);
    IdentListEnd(st.cols);
  }

  lemma DropBody(ifExists: bool, name: string, table: bool)
    ensures ParseDrop(Flag(ifExists, "IF EXISTS ") + QuoteIdentifier(name), table)
            == if NulFree(name) then Got(if table then DropTable(ifExists, name) else DropIndex(ifExists, name), "")
              else Fail
  {
    OptionalEnd(ifExists, "IF EXISTS ", name);
    IdentEnd(name);
  }

  lemma DropTableRoundTrip(ie: bool, name: string)
    ensures ParseHead(StatementText(DropTable(ie, name))) == Outcome(DropTable(ie, name))
  {
    var s := Flag(ie, "IF EXISTS ") + QuoteIdentifier(name);
    assert StatementText(DropTable(ie, name)) == VerbText(DropTableVerb) + s;
    HeadText(DropTableVerb, s);
    DropBody(ie, name, true);
  }

  lemma DropIndexRoundTrip(ie: bool, name: string)
    ensures ParseHead(StatementText(DropIndex(ie, name))) == Outcome(DropIndex(ie, name))
  {
    var s := Flag(ie, "IF EXISTS ") + QuoteIdentifier(name);
    assert StatementText(DropIndex(ie, name)) == VerbText(DropIndexVerb) + s;
    HeadText(DropIndexVerb, s);
    DropBody(ie, name, false);
  }

  predicate IsAlter(st: Statement) { st.AddColumn? || st.DropColumn? || st.RenameColumn? || st.RenameTable? }

  /** The phrase after the table's name, and what follows it. */
  function ActionOf(st: Statement): Verb
    requires IsAlter(st)
  {
    match st
    case AddColumn(_, _) => AddVerb
    case DropColumn(_, _) => DropColumnVerb
    case RenameTable(_, _) => RenameToVerb
    case RenameColumn(_, _, _) => RenameColumnVerb
  }

  function ActionBody(st: Statement): string
    requires IsAlter(st)
  {
    match st
    case AddColumn(_, col) => ColumnText(col)
    case DropColumn(_, name) => QuoteIdentifier(name)
    case RenameTable(_, n) => QuoteIdentifier(n)
    case RenameColumn(_, o, n) => QuoteIdentifier(o) + (" TO " + QuoteIdentifier(n))
  }

  lemma ActionRoundTrip(st: Statement)
    requires IsAlter(st) && Emittable(st) && NulFree(st.table)
    ensures ParseAction(st.table, ActionOf(st), ActionBody(st)) == Outcome(st)
  {
    match st {
      case AddColumn(_, col) => ColumnEnd(col);
      case DropColumn(_, name) => IdentEnd(name);
      case RenameTable(_, n) => IdentEnd(n);
      case RenameColumn(_, o, n) =>
        IdentRoundTrip(o, " TO " + QuoteIdentifier(n));
        ExpectLiteral(" TO ", QuoteIdentifier(n));
        IdentEnd(n);
    }
  }

  lemma AlterBody(table: string, v: Verb, s3: string)
    requires IsAction(v)
    ensures ParseAlter(QuoteIdentifier(table) + (VerbText(v) + s3)) == if NulFree(table) then ParseAction(table, v, s3)
            else Fail
  {
    var s2 := VerbText(v) + s3;
    assert s2[0] == VerbText(v)[0] == ' ';
    IdentRoundTrip(table, s2);
    ActionVerb(v, s3);
  }

  lemma AlterText(st: Statement)
    requires IsAlter(st)
    ensures StatementText(st)
            == VerbText(AlterTableVerb) + (QuoteIdentifier(st.table) + (VerbText(ActionOf(st)) + ActionBody(st)))
    ensures IsAction(ActionOf(st))
  {
    assert VerbText(AlterTableVerb) == "ALTER TABLE ";
    match st {
      case AddColumn(_, _) => assert VerbText(AddVerb) == " ADD COLUMN ";
      case DropColumn(_, _) => assert VerbText(DropColumnVerb) == " DROP COLUMN ";
      case RenameTable(_, _) => assert VerbText(RenameToVerb) == " RENAME TO ";
      case RenameColumn(_, _, _) => assert VerbText(RenameColumnVerb) == " RENAME COLUMN ";
    }
  }

  lemma AlterRoundTrip(st: Statement)
    requires IsAlter(st) && Emittable(st)
    ensures ParseHead(StatementText(st)) == Outcome(st)
  {
    AlterText(st);
    HeadText(AlterTableVerb, QuoteIdentifier(st.table) + (VerbText(ActionOf(st)) + ActionBody(st)));
    AlterBody(st.table, ActionOf(st), ActionBody(st));
    if NulFree(st.table) { ActionRoundTrip(st); }
  }

  lemma SelectRoundTrip(st: Statement)
    requires st.CopyRows? && Emittable(st)
    ensures ParseSelect(st.target, st.into,
              " SELECT " + (Join(Quoted(st.cols), ", ") + (" FROM " + QuoteIdentifier(st.source))))
            == if NulFreeAll(st.cols) && NulFree(st.source) then Got(st, "") else Fail
  {
    var s2 := " FROM " + QuoteIdentifier(st.source);
    ExpectLiteral(" SELECT ", Join(Quoted(st.cols), ", ") + s2);
    assert s2[0] == ' ' && ", "[0] == ',';
    IdentsRoundTrip(st.cols, s2);
    ExpectLiteral(" FROM ", QuoteIdentifier(st.source));
    IdentEnd(st.source);
  }

  lemma CopyHead(target: string, into: seq<string>, s3: string)
    requires into != []
    ensures ParseCopy(QuoteIdentifier(target) + (" (" + (Join(Quoted(into), ", ") + (")" + s3))))
            == if NulFree(target) && NulFreeAll(into) then ParseSelect(target, into, s3) else Fail
  {
    var s2 := Join(Quoted(into), ", ") + (")" + s3);
    IdentRoundTrip(target, " (" + s2);
    ExpectLiteral(" (", s2);
    IdentListRoundTrip(into, s3);
  }

  lemma CopyRoundTrip(st: Statement)
    requires st.CopyRows? && Emittable(st)
    ensures ParseHead(StatementText(st)) == Outcome(st)
  {
    var s3 := " SELECT " + (Join(Quoted(st.cols), ", ") + (" FROM " + QuoteIdentifier(st.source)));
    var s := QuoteIdentifier(st.target) + (" (" + (Join(Quoted(st.into), ", ") + (")" + s3)));
    assert StatementText(st) == VerbText(InsertVerb) + s;
    HeadText(InsertVerb, s);
    CopyHead(st.target, st.into, s3);
    SelectRoundTrip(st);
  }

  /** Every emitted statement is what its text denotes when SQLite can read it, and its
      text denotes nothing when it cannot. */
  lemma RoundTrip(st: Statement)
    requires Emittable(st)
    ensures ParseStatement(StatementText(st)) == if Readable(st) then Some(st) else None
  {
    match st {
      case CreateTable(_, _, _, _) => CreateTableRoundTrip(st);
      case CreateIndex(_, _, _, _, _) => CreateIndexRoundTrip(st);
      case DropTable(ie, name) => DropTableRoundTrip(ie, name);
      case DropIndex(ie, name) => DropIndexRoundTrip(ie, name);
      case CopyRows(_, _, _, _) => CopyRoundTrip(st);
      case _ => AlterRoundTrip(st);
    }
  }
}
