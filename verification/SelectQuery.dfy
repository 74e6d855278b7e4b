/** The one SELECT the row reader sends: its text, a reader of that text, and what the terms read
    from it give on a row. */
module SelectQuery {
  import opened Text
  import opened SqlText
  import opened Catalog
  import opened SqlParser

  // ---- What is asked for, and its text ----

  /** A term of the projection: a column's value, or the name of its storage class. */
  datatype Term = ValueOf(column: string) | ClassOf(column: string)

  datatype Order = ByColumns(columns: seq<string>) | ByRowid(alias: string)

  /** SQLite's names for the hidden rowid, in the order they are tried. */
  const ALIASES := ["_rowid_", "rowid", "oid"]

  function TermText(t: Term): string {
    var quoted := QuoteIdentifier(t.column);
    match t
    case ValueOf(_) =>
      "CASE WHEN typeof(" + quoted + ")='text' THEN CAST(" + quoted + " AS TEXT) ELSE " + quoted + " END"
    case ClassOf(_) => "typeof(" + quoted + ")"
  }

  function TermTexts(ts: seq<Term>): (r: seq<string>)
    ensures |r| == |ts|
  {
    seq(|ts|, i requires 0 <= i < |ts| => TermText(ts[i]))
  }

  function OrderText(o: Order): string {
    match o
    case ByColumns(columns) => Join(Quoted(columns), ", ")
    case ByRowid(alias) => alias
  }

  function SelectText(ts: seq<Term>, table: string, o: Order): string {
    "SELECT " + Join(TermTexts(ts), ", ") + " FROM " + QuoteIdentifier(table) + " ORDER BY " + OrderText(o)
  }

  // ---- Reading it ----

  /** The expressions of the grammar: a column, the storage class of one, and one of two columns by
      whether a third holds text, the first of them cast to it. */
  datatype Expr = Bare(name: string) | TypeOf(name: string) | WhenText(test: string, cast: string, other: string)

  datatype Select = Select(exprs: seq<Expr>, table: string, order: Order)

  /** A name and what must follow it. */
  function NameThen(s: string, literal: string): (r: Parsed<string>)
    ensures r.Got? ==> |r.rest| < |s|
  {
    match ParseIdent(s)
    case Fail => Fail
    case Got(name, s1) => match Expect(s1, literal) case Fail => Fail case Got(_, s2) => Got(name, s2)
  }

  function ParseCase(s: string): (r: Parsed<Expr>)
    ensures r.Got? ==> |r.rest| < |s|
  {
    match NameThen(s, ")='text' THEN CAST(")
    case Fail => Fail
    case Got(test, s1) =>
      match NameThen(s1, " AS TEXT) ELSE ")
      case Fail => Fail
      case Got(cast, s2) =>
        match NameThen(s2, " END") case Fail => Fail case Got(other, s3) => Got(WhenText(test, cast, other), s3)
  }

  function ParseExpr(s: string): (r: Parsed<Expr>)
    ensures r.Got? ==> |r.rest| < |s|
  {
    match Expect(s, "typeof(")
    case Got(_, s1) => (match NameThen(s1, ")") case Fail => Fail case Got(name, s2) => Got(TypeOf(name), s2))
    case Fail =>
      match Expect(s, "CASE WHEN typeof(")
      case Got(_, s1) => ParseCase(s1)
      case Fail => match ParseIdent(s) case Fail => Fail case Got(name, s1) => Got(Bare(name), s1)
  }

  function ParseExprs(s: string): (r: Parsed<seq<Expr>>)
    ensures r.Got? ==> |r.rest| < |s|
    decreases |s|
  {
    match ParseExpr(s)
    case Fail => Fail
    case Got(x, s1) =>
      match Expect(s1, ", ")
      case Fail => Got([x], s1)
      case Got(_, s2) => match ParseExprs(s2) case Fail => Fail case Got(xs, s3) => Got([x] + xs, s3)
  }

  function ParseOrder(s: string): Option<Order> {
    if s in ALIASES then Some(ByRowid(s))
    else match ParseIdents(s)
      case Fail => None
      case Got(names, rest) => if rest == "" then Some(ByColumns(names)) else None
  }

  function ParseTable(exprs: seq<Expr>, s: string): Option<Select> {
    match NameThen(s, " ORDER BY ")
    case Fail => None
    case Got(table, s1) => match ParseOrder(s1) case None => None case Some(o) => Some(Select(exprs, table, o))
  }

  function ParseSelect(s: string): Option<Select> {
    match Expect(s, "SELECT ")
    case Fail => None
    case Got(_, s1) =>
      match ParseExprs(s1)
      case Fail => None
      case Got(exprs, s2) => match Expect(s2, " FROM ") case Fail => None case Got(_, s3) => ParseTable(exprs, s3)
  }

  // ---- The reader undoes the text ----

  function ExprOf(t: Term): Expr {
    match t case ValueOf(c) => WhenText(c, c, c) case ClassOf(c) => TypeOf(c)
  }

  function ExprsOf(ts: seq<Term>): (r: seq<Expr>)
    ensures |r| == |ts|
  {
    seq(|ts|, i requires 0 <= i < |ts| => ExprOf(ts[i]))
  }

  lemma NameThenText(n: string, literal: string, rest: string)
    requires literal != "" && literal[0] != '"'
    ensures NameThen(QuoteIdentifier(n) + (literal + rest), literal) == if NulFree(n) then Got(n, rest) else Fail
  {
    assert (literal + rest)[0] == literal[0];
    IdentRoundTrip(n, literal + rest);
    ExpectLiteral(literal, rest);
  }

  lemma ExprText(t: Term, rest: string)
    ensures ParseExpr(TermText(t) + rest) == if NulFree(t.column) then Got(ExprOf(t), rest) else Fail
  {
    var q := QuoteIdentifier(t.column);
    if t.ClassOf? {
      assert TermText(t) + rest == "typeof(" + (q + (")" + rest));
      ExpectLiteral("typeof(", q + (")" + rest));
      NameThenText(t.column, ")", rest);
    } else {
      var c := q + (" END" + rest);
      var b := q + (" AS TEXT) ELSE " + c);
      var a := q + (")='text' THEN CAST(" + b);
      assert TermText(t) + rest == "CASE WHEN typeof(" + a;
      assert (TermText(t) + rest)[0] == 'C' && "typeof("[0] == 't';
      ExpectLiteral("CASE WHEN typeof(", a);
      NameThenText(t.column, ")='text' THEN CAST(", b);
      NameThenText(t.column, " AS TEXT) ELSE ", c);
      NameThenText(t.column, " END", rest);
    }
  }

  predicate NulFreeTerms(ts: seq<Term>) { forall i | 0 <= i < |ts| :: NulFree(ts[i].column) }

  lemma {:induction false} ExprsText(ts: seq<Term>, rest: string)
    requires ts != [] && Expect(rest, ", ").Fail?
    ensures ParseExprs(Join(TermTexts(ts), ", ") + rest) == if NulFreeTerms(ts) then Got(ExprsOf(ts), rest) else Fail
    decreases |ts|
  {
    assert TermTexts(ts) == [TermText(ts[0])] + TermTexts(ts[1..]);
    assert ExprsOf(ts) == [ExprOf(ts[0])] + ExprsOf(ts[1..]);
    assert NulFreeTerms(ts) <==> NulFree(ts[0].column) && NulFreeTerms(ts[1..]) by { assert ts == [ts[0]] + ts[1..]; }
    if |ts| == 1 {
      assert Join(TermTexts(ts), ", ") == TermText(ts[0]) && ExprsOf(ts) == [ExprOf(ts[0])];
      ExprText(ts[0], rest);
    } else {
      var more := Join(TermTexts(ts[1..]), ", ") + rest;
      JoinStep(TermText(ts[0]), TermTexts(ts[1..]), rest);
      ExprText(ts[0], ", " + more);
      ExpectLiteral(", ", more);
      ExprsText(ts[1..], rest);
    }
  }

  /** An order the reader can make: by columns, at least one, or by an alias of the rowid. */
  predicate WellOrdered(o: Order) {
    match o
    case ByColumns(columns) => columns != []
    case ByRowid(alias) => alias in ALIASES
  }

  predicate NulFreeOrder(o: Order) { o.ByColumns? ==> NulFreeAll(o.columns) }

  lemma OrderReads(o: Order)
    requires WellOrdered(o)
    ensures ParseOrder(OrderText(o)) == if NulFreeOrder(o) then Some(o) else None
  {
    if o.ByColumns? {
      IdentsRoundTrip(o.columns, "");
      var s := OrderText(o);
      assert s + "" == s;
      QuotedStep(o.columns);
      assert s[0] == '"' by {
        if |o.columns| > 1 { JoinStep(QuoteIdentifier(o.columns[0]), Quoted(o.columns[1..]), ""); }
      }
      assert forall a | a in ALIASES :: a[0] != '"';
    }
  }

  /** The text of the SELECT is read back as exactly its terms, its table and its order, or not at
      all when a name has a NUL. */
  lemma SelectRoundTrip(ts: seq<Term>, table: string, o: Order)
    requires ts != [] && WellOrdered(o)
    ensures ParseSelect(SelectText(ts, table, o))
            == if NulFreeTerms(ts) && NulFree(table) && NulFreeOrder(o) then Some(Select(ExprsOf(ts), table, o))
               else None
  {
    var tail := QuoteIdentifier(table) + (" ORDER BY " + OrderText(o));
    var terms := Join(TermTexts(ts), ", ");
    SelectNested(ts, table, o);
    ExpectLiteral("SELECT ", terms + (" FROM " + tail));
    TermsThen(ts, tail);
    ExpectLiteral(" FROM ", tail);
    TableReads(ExprsOf(ts), table, o);
  }

  lemma SelectNested(ts: seq<Term>, table: string, o: Order)
    ensures SelectText(ts, table, o)
            == "SELECT " + (Join(TermTexts(ts), ", ")
                            + (" FROM " + (QuoteIdentifier(table) + (" ORDER BY " + OrderText(o)))))
  {
  }

  lemma TermsThen(ts: seq<Term>, tail: string)
    requires ts != []
    ensures ParseExprs(Join(TermTexts(ts), ", ") + (" FROM " + tail))
            == if NulFreeTerms(ts) then Got(ExprsOf(ts), " FROM " + tail) else Fail
  {
    assert (" FROM " + tail)[0] == ' ' && ", "[0] == ',';
    ExprsText(ts, " FROM " + tail);
  }

  lemma TableReads(exprs: seq<Expr>, table: string, o: Order)
    requires WellOrdered(o)
    ensures ParseTable(exprs, QuoteIdentifier(table) + (" ORDER BY " + OrderText(o)))
            == if NulFree(table) && NulFreeOrder(o) then Some(Select(exprs, table, o)) else None
  {
    NameThenText(table, " ORDER BY ", OrderText(o));
    OrderReads(o);
  }

  // ---- What an expression gives on a row ----

  function ClassName(v: Value): string {
    match v
    case VNull => "null"
    case VInteger(_) => "integer"
    case VReal(_) => "real"
    case VText(_) => "text"
    case VBlob(_) => "blob"
  }

  /** A quoted name is the column of that name in any letter case. */
  function ColumnValue(name: string, cols: seq<Column>, row: seq<Value>): Value {
    match FindColumn(cols, name) case None => VNull case Some(i) => if i < |row| then row[i] else VNull
  }

  /** CAST ... AS TEXT leaves text alone; what it makes of anything else is a parameter. */
  function CastText(others: Value -> Value, v: Value): Value { if v.VText? then v else others(v) }

  function Evaluated(x: Expr, others: Value -> Value, cols: seq<Column>, row: seq<Value>): Value {
    match x
    case Bare(n) => ColumnValue(n, cols, row)
    case TypeOf(n) => VText(ClassName(ColumnValue(n, cols, row)))
    case WhenText(test, cast, other) =>
      if ClassName(ColumnValue(test, cols, row)) == "text" then CastText(others, ColumnValue(cast, cols, row))
      else ColumnValue(other, cols, row)
  }

  function Results(xs: seq<Expr>, others: Value -> Value, cols: seq<Column>, row: seq<Value>): (r: seq<Value>)
    ensures |r| == |xs|
  {
    seq(|xs|, i requires 0 <= i < |xs| => Evaluated(xs[i], others, cols, row))
  }

  /** A value's term gives the column's value as it is, whatever the casts of other values do. */
  lemma TermsGive(t: Term, others: Value -> Value, cols: seq<Column>, row: seq<Value>)
    ensures Evaluated(ExprOf(t), others, cols, row)
            == if t.ValueOf? then ColumnValue(t.column, cols, row)
               else VText(ClassName(ColumnValue(t.column, cols, row)))
  {
    var v := ColumnValue(t.column, cols, row);
    assert ClassName(v) == "text" ==> v.VText? by {
      assert "null"[0] != "text"[0] && "integer"[0] != "text"[0] && "real"[0] != "text"[0] && "blob"[0] != "text"[0];
    }
  }
}
