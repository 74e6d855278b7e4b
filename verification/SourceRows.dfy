/** Streaming the rows of a table: the projection and order of the query, and the pairing of each
    column's value with its storage class. */
module SourceRows {
  import opened Text
  import opened DbSchema
  import opened SqlText
  import opened SelectQuery
  import opened TypeMapping
  import opened KeyOrder
  import opened Catalog
  import opened ConnectionPool
  import opened ForeignKeys
  import SchemaReader
  import SqlParser

  // ---- The query ----

  /** The n values, then the n classes. */
  function Projection(names: seq<string>): (r: seq<Term>)
    ensures |r| == 2 * |names|
    ensures forall i | 0 <= i < |names| :: r[i] == ValueOf(names[i]) && r[|names| + i] == ClassOf(names[i])
  {
    seq(2 * |names|, i requires 0 <= i < 2 * |names| => if i < |names| then ValueOf(names[i])
        else ClassOf(names[i - |names|]))
  }

  function Names(cols: seq<Column>): (r: seq<string>)
    ensures |r| == |cols|
  {
    seq(|cols|, i requires 0 <= i < |cols| => cols[i].name)
  }

  predicate Shadowed(names: seq<string>, alias: string) {
    exists i | 0 <= i < |names| :: Fold(names[i]) == Fold(alias)
  }

  function FirstUnshadowed(names: seq<string>, aliases: seq<string>): Option<string> {
    if aliases == [] then None
    else if Shadowed(names, aliases[0]) then FirstUnshadowed(names, aliases[1..])
    else Some(aliases[0])
  }

  /** The key in key order, or the first alias of the rowid that no column shadows. */
  function OrderOf(cols: seq<Column>): Option<Order> {
    if KeyEntries(cols) != [] then Some(ByColumns(KeyOf(cols)))
    else match FirstUnshadowed(Names(cols), ALIASES) case None => None case Some(a) => Some(ByRowid(a))
  }

  /** There is no order exactly for a keyless table that shadows every alias; a keyed one is
      ordered by a permutation of its key columns, ascending in key position; a keyless one by
      the first alias that names no column. */
  lemma OrderLaw(cols: seq<Column>)
    ensures OrderOf(cols).None?
            <==> (forall j | 0 <= j < |cols| :: cols[j].pk == 0) && forall a | a in ALIASES :: Shadowed(Names(cols), a)
    ensures OrderOf(cols).Some? && OrderOf(cols).value.ByColumns? ==>
              && OrderOf(cols).value.columns == KeyNames(SortByOrder(KeyEntries(cols)))
              && Ascending(SortByOrder(KeyEntries(cols)))
                 && multiset(SortByOrder(KeyEntries(cols))) == multiset(KeyEntries(cols))
    ensures OrderOf(cols).Some? && OrderOf(cols).value.ByRowid? ==>
              exists k | 0 <= k < |ALIASES| ::
                ALIASES[k] == OrderOf(cols).value.alias && !Shadowed(Names(cols), ALIASES[k])
                && forall i | 0 <= i < k :: Shadowed(Names(cols), ALIASES[i])
  {
    SortLaws(KeyEntries(cols));
    Keyless(cols);
    FirstLaw(Names(cols), ALIASES);
  }

  lemma {:induction false} Keyless(cols: seq<Column>)
    ensures KeyEntries(cols) == [] <==> forall j | 0 <= j < |cols| :: cols[j].pk == 0
    decreases |cols|
  {
    if cols != [] { Keyless(cols[..|cols| - 1]); }
  }

  lemma {:induction false} FirstLaw(names: seq<string>, aliases: seq<string>)
    ensures FirstUnshadowed(names, aliases).None? <==> forall a | a in aliases :: Shadowed(names, a)
    ensures FirstUnshadowed(names, aliases).Some? ==>
              exists k | 0 <= k < |aliases| ::
                aliases[k] == FirstUnshadowed(names, aliases).value && !Shadowed(names, aliases[k])
                && forall i | 0 <= i < k :: Shadowed(names, aliases[i])
    decreases |aliases|
  {
    if aliases != [] {
      FirstLaw(names, aliases[1..]);
      if Shadowed(names, aliases[0]) && FirstUnshadowed(names, aliases[1..]).Some? {
        var k :| 0 <= k < |aliases[1..]| && aliases[1..][k] == FirstUnshadowed(names, aliases[1..]).value
          && !Shadowed(names, aliases[1..][k])
                 && forall i | 0 <= i < k :: Shadowed(names, aliases[1..][i]);
        assert aliases[k + 1] == aliases[1..][k];
        forall i | 0 <= i < k + 1 ensures Shadowed(names, aliases[i]) {
          if i > 0 { assert aliases[1..][i - 1] == aliases[i]; }
        }
      }
    }
  }

  // ---- The rows of the query ----

  /** A term on a row. */
  function TermValue(t: Term, cols: seq<Column>, row: seq<Value>): Value {
    if t.ValueOf? then ColumnValue(t.column, cols, row) else VText(ClassName(ColumnValue(t.column, cols, row)))
  }

  function Cells(ts: seq<Term>, cols: seq<Column>, row: seq<Value>): (r: seq<Value>)
    ensures |r| == |ts|
  {
    seq(|ts|, i requires 0 <= i < |ts| => TermValue(ts[i], cols, row))
  }

  /** Cell i of a projected row is the row's value i, and cell n+i its storage class. */
  lemma CellsAligned(cols: seq<Column>, row: seq<Value>, i: nat)
    requires DistinctColumns(cols) && |row| == |cols| && i < |cols|
    ensures var cells := Cells(Projection(Names(cols)), cols, row);
            cells[i] == row[i] && cells[|cols| + i] == VText(ClassName(row[i]))
  {
    FindDistinct(cols, cols[i].name, i);
    assert Projection(Names(cols))[i] == ValueOf(cols[i].name);
    assert Projection(Names(cols))[|cols| + i] == ClassOf(cols[i].name);
  }

  /** What the expressions read from the text give on a row is its cells. */
  lemma ResultsAreCells(ts: seq<Term>, others: Value -> Value, cols: seq<Column>, row: seq<Value>)
    ensures Results(ExprsOf(ts), others, cols, row) == Cells(ts, cols, row)
  {
    forall i | 0 <= i < |ts| ensures Results(ExprsOf(ts), others, cols, row)[i] == Cells(ts, cols, row)[i] {
      TermsGive(ts[i], others, cols, row);
    }
  }

  /** What a statement asks for: None when it cannot be read or names a table that does not exist. */
  function Asked(cat: Catalog, statement: string): (r: Option<Select>)
    ensures r.Some? ==> Fold(r.value.table) in cat.tables
  {
    match ParseSelect(statement) case None => None
    case Some(q) => if Fold(q.table) in cat.tables then Some(q) else None
  }

  /** The engine reads a statement and runs it: every row of its table once, in the order asked for,
      each as the statement's expressions give it. */
  method RunSelect(pool: Pool, cat: Catalog, statement: string, others: Value -> Value)
    returns (rows: Rows?<seq<Value>>, ghost delivered: seq<seq<Value>>)
    requires pool.free > 0
    modifies pool, pool.env
    ensures pool.env.asked == old(pool.env.asked) + 1 && pool.free == old(pool.free) - if rows == null then 0 else 1
    ensures rows != null <==> Asked(cat, statement).Some? && pool.env.Granted(old(pool.env.asked))
    ensures rows != null ==> fresh(rows) && rows.home == pool && rows.holds && rows.Started(rows.data)
    ensures rows != null ==>
              var q := Asked(cat, statement).value;
              var t := cat.tables[Fold(q.table)];
              multiset(delivered) == multiset(t.rows) && |rows.data| == |delivered|
              && forall k | 0 <= k < |delivered| :: rows.data[k] == Results(q.exprs, others, t.cols, delivered[k])
  {
    delivered := [];
    var asked := Asked(cat, statement);
    if asked.None? {
      var refused := pool.env.Ask();
      return null, [];
    }
    var q, t := asked.value, cat.tables[Fold(asked.value.table)];
    var sorted := t.rows;
    var i := 0;
    while i < |sorted|
      invariant 0 <= i <= |sorted| && multiset(sorted) == multiset(t.rows)
    {
      var j: int := *;
      if 0 <= j < |sorted| { sorted := sorted[i := sorted[j]][j := sorted[i]]; }
      i := i + 1;
    }
    delivered := sorted;
    var data := seq(|sorted|, k requires 0 <= k < |sorted| => Results(q.exprs, others, t.cols, sorted[k]));
    rows := pool.Query(data);
  }

  // ---- Reading a row ----

  datatype SourceValue =
    | SNull
    | SInteger(n: int)
    | SReal(bits: int)
    | SText(s: string)
    | SBlob(bytes: seq<bv8>)
    | SBool(b: bool)
    | SDecimal(digits: string)

  /** The shortest decimal of a binary64 value, None when it is not finite. */
  type Renderer = int -> Option<string>

  function IntText(n: int): string { if n < 0 then "-" + Itoa(-n) else Itoa(n) }

  function Native(v: Value): SourceValue {
    match v
    case VNull => SNull
    case VInteger(n) => SInteger(n)
    case VReal(b) => SReal(b)
    case VText(s) => SText(s)
    case VBlob(b) => SBlob(b)
  }

  /** The value reported for a cell; None where the reader refuses the row. */
  function Reported(v: Value, boolean: bool, decimal: bool, render: Renderer): Option<SourceValue> {
    if boolean then
      if v == VNull then Some(SNull)
      else if v == VInteger(0) || v == VInteger(1) then Some(SBool(v.n == 1))
      else None
    else if decimal && v.VInteger? then Some(SDecimal(IntText(v.n)))
    else if decimal && v.VReal? then (match render(v.bits) case None => None case Some(s) => Some(SDecimal(s)))
    else Some(Native(v))
  }

  lemma {:induction false} DigitsOnly(n: nat)
    ensures Itoa(n) != "" && Itoa(n)[0] != '-'
    decreases n
  {
    if n >= 10 { DigitsOnly(n / 10); }
  }

  /** Rendering a decimal stored as INTEGER loses nothing. */
  lemma IntTextInjective(a: int, b: int)
    requires IntText(a) == IntText(b)
    ensures a == b
  {
    if a >= 0 { DigitsOnly(a); }
    if b >= 0 { DigitsOnly(b); }
    if a < 0 && b < 0 {
      assert IntText(a)[1..] == Itoa(-a) && IntText(b)[1..] == Itoa(-b);
      ItoaInjective(-a, -b);
    } else if a >= 0 && b >= 0 {
      ItoaInjective(a, b);
    }
  }

  predicate IsDecimalColumn(c: Column) {
    var r := DbschemaTypeFromSQLite(c.decl); r.ok && r.typ == Decimal
  }

  predicate IsBooleanColumn(c: Column) {
    var r := DbschemaTypeFromSQLite(c.decl); r.ok && r.typ == Bool
  }

  function DecimalFlags(cols: seq<Column>): (r: seq<bool>)
    ensures |r| == |cols|
  {
    seq(|cols|, i requires 0 <= i < |cols| => IsDecimalColumn(cols[i]))
  }

  function BooleanFlags(cols: seq<Column>): (r: seq<bool>)
    ensures |r| == |cols|
  {
    seq(|cols|, i requires 0 <= i < |cols| => IsBooleanColumn(cols[i]))
  }

  datatype SourceRow = SourceRow(values: map<string, SourceValue>, classes: map<string, string>)

  datatype NextRow = Row(row: SourceRow) | Eof | Refused

  /** Every name with the value wanted for it and its class; None when a value is refused. */
  function PairedRow(names: seq<string>, want: seq<Option<SourceValue>>, kinds: seq<string>): Option<SourceRow>
    requires |names| == |want| == |kinds|
  {
    if names == [] then Some(SourceRow(map[], map[]))
    else
      var n := |names| - 1;
      match (PairedRow(names[..n], want[..n], kinds[..n]), want[n])
      case (Some(r), Some(v)) => Some(SourceRow(r.values[names[n] := v], r.classes[names[n] := kinds[n]]))
      case _ => None
  }

  /** Exactly these names, each with its own value and its own class. */
  ghost predicate PairsUp(names: seq<string>, want: seq<Option<SourceValue>>, kinds: seq<string>, r: SourceRow)
    requires |names| == |want| == |kinds|
  {
    && r.values.Keys == r.classes.Keys
    && (forall x | x in r.values :: x in names)
    && forall i | 0 <= i < |names| ::
       names[i] in r.values && want[i] == Some(r.values[names[i]]) && r.classes[names[i]] == kinds[i]
  }

  lemma PairsUpStep(names: seq<string>, want: seq<Option<SourceValue>>, kinds: seq<string>, r: SourceRow,
                    v: SourceValue)
    requires |names| == |want| == |kinds| > 0
    requires var n := |names| - 1;
             PairsUp(names[..n], want[..n], kinds[..n], r) && want[n] == Some(v) && forall i | 0 <= i < n ::
               names[i] != names[n]
    ensures var n := |names| - 1; PairsUp(names, want, kinds,
                                          SourceRow(r.values[names[n] := v], r.classes[names[n] := kinds[n]]))
  {
    var n := |names| - 1;
    assert names == names[..n] + [names[n]];
    forall i | 0 <= i < n
      ensures names[i] in r.values && want[i] == Some(r.values[names[i]]) && r.classes[names[i]] == kinds[i] {
      assert names[..n][i] == names[i] && want[..n][i] == want[i] && kinds[..n][i] == kinds[i];
    }
  }

  /** A row is refused exactly when one of its values is. */
  lemma {:induction false} RefusedRow(names: seq<string>, want: seq<Option<SourceValue>>, kinds: seq<string>)
    requires |names| == |want| == |kinds|
    ensures PairedRow(names, want, kinds).Some? <==> forall i | 0 <= i < |want| :: want[i].Some?
    decreases |names|
  {
    if names != [] {
      var n := |names| - 1;
      RefusedRow(names[..n], want[..n], kinds[..n]);
      assert want == want[..n] + [want[n]];
    }
  }

  lemma PrefixRefused(names: seq<string>, want: seq<Option<SourceValue>>, kinds: seq<string>, k: nat)
    requires |names| == |want| == |kinds| && k <= |names| && PairedRow(names[..k], want[..k], kinds[..k]).None?
    ensures PairedRow(names, want, kinds).None?
  {
    RefusedRow(names, want, kinds);
    RefusedRow(names[..k], want[..k], kinds[..k]);
    var i :| 0 <= i < k && want[..k][i].None?;
    assert want[i].None?;
  }

  /** Otherwise its names are those given, each with its own value and its own class. */
  lemma {:induction false} PairedRowLaw(names: seq<string>, want: seq<Option<SourceValue>>, kinds: seq<string>)
    requires |names| == |want| == |kinds| && forall i, j | 0 <= i < j < |names| :: names[i] != names[j]
    requires PairedRow(names, want, kinds).Some?
    ensures PairsUp(names, want, kinds, PairedRow(names, want, kinds).value)
    decreases |names|
  {
    if names != [] {
      var n := |names| - 1;
      PairedRowLaw(names[..n], want[..n], kinds[..n]);
      PairsUpStep(names, want, kinds, PairedRow(names[..n], want[..n], kinds[..n]).value, want[n].value);
    }
  }

  lemma PairedRowStep(names: seq<string>, want: seq<Option<SourceValue>>, kinds: seq<string>, i: nat)
    requires |names| == |want| == |kinds| && i < |names|
    ensures PairedRow(names[..i + 1], want[..i + 1], kinds[..i + 1])
            == match (PairedRow(names[..i], want[..i], kinds[..i]), want[i])
               case (Some(r), Some(v)) => Some(SourceRow(r.values[names[i] := v], r.classes[names[i] := kinds[i]]))
               case _ => None
  {
    assert names[..i + 1][..i] == names[..i] && want[..i + 1][..i] == want[..i] && kinds[..i + 1][..i] == kinds[..i];
  }

  function Wanted(row: seq<Value>, boolean: seq<bool>, decimal: seq<bool>,
                  render: Renderer): (r: seq<Option<SourceValue>>)
    requires |row| == |boolean| == |decimal|
    ensures |r| == |row|
  {
    seq(|row|, i requires 0 <= i < |row| => Reported(row[i], boolean[i], decimal[i], render))
  }

  function Kinds(row: seq<Value>): (r: seq<string>)
    ensures |r| == |row|
  {
    seq(|row|, i requires 0 <= i < |row| => ClassName(row[i]))
  }

  /** A row of the table as it is reported. */
  function RowOf(cols: seq<Column>, row: seq<Value>, render: Renderer): Option<SourceRow>
    requires |row| == |cols|
  {
    PairedRow(Names(cols), Wanted(row, BooleanFlags(cols), DecimalFlags(cols), render), Kinds(row))
  }

  function ReportedCell(cols: seq<Column>, row: seq<Value>, render: Renderer, i: nat): Option<SourceValue>
    requires i < |cols| == |row|
  {
    Reported(row[i], IsBooleanColumn(cols[i]), IsDecimalColumn(cols[i]), render)
  }

  /** The column's name carries its own value and its own storage class. */
  ghost predicate CellAligned(cols: seq<Column>, row: seq<Value>, render: Renderer, i: nat, r: SourceRow)
    requires i < |cols| == |row|
  {
    && cols[i].name in r.values && cols[i].name in r.classes
    && ReportedCell(cols, row, render, i) == Some(r.values[cols[i].name])
       && r.classes[cols[i].name] == ClassName(row[i])
  }

  /** Every column's cell is aligned, no other name appears, and a row is refused exactly when
      the value of one of its columns is. */
  lemma RowAligned(cols: seq<Column>, row: seq<Value>, render: Renderer)
    requires DistinctColumns(cols) && |row| == |cols|
    ensures RowOf(cols, row, render).Some? <==> forall i: nat | i < |cols| :: ReportedCell(cols, row, render, i).Some?
    ensures RowOf(cols, row, render).Some? ==>
              var r := RowOf(cols, row, render).value;
              && r.values.Keys == r.classes.Keys && (forall x | x in r.values :: x in Names(cols))
              && forall i: nat | i < |cols| :: CellAligned(cols, row, render, i, r)
  {
    var names, want, kinds := Names(cols), Wanted(row, BooleanFlags(cols), DecimalFlags(cols), render), Kinds(row);
    forall i, j | 0 <= i < j < |names| ensures names[i] != names[j] { assert Fold(cols[i].name) != Fold(cols[j].name); }
    RefusedRow(names, want, kinds);
    forall i: nat | i < |cols| ensures want[i] == ReportedCell(cols, row, render, i) {}
    if RowOf(cols, row, render).Some? {
      var r := RowOf(cols, row, render).value;
      PairedRowLaw(names, want, kinds);
      forall i: nat | i < |cols| ensures CellAligned(cols, row, render, i, r) {
        assert names[i] in r.values && want[i] == Some(r.values[names[i]]) && r.classes[names[i]] == kinds[i];
      }
    }
  }

  // ---- What a cell reads as, by its declaration and its value ----

  /** The decimal text of an integer: its digits without a leading zero, behind a sign when it is
      negative. */
  predicate Denotes(s: string, n: int) {
    if n < 0 then s != "" && s[0] == '-' && DenotesNat(s[1..], -n) else DenotesNat(s, n)
  }

  lemma IntTextDenotes(n: int)
    ensures Denotes(IntText(n), n)
  {
    if n < 0 {
      ItoaDenotes(-n);
      assert IntText(n)[1..] == Itoa(-n);
    } else {
      ItoaDenotes(n);
    }
  }

  ghost predicate DecimalDeclared(declared: string) { exists p :: DecimalSpelled(declared, p) }

  /** The value as it is stored. */
  predicate AsStored(v: Value, out: SourceValue) {
    match v
    case VNull => out == SNull
    case VInteger(n) => out == SInteger(n)
    case VReal(bits) => out == SReal(bits)
    case VText(s) => out == SText(s)
    case VBlob(bytes) => out == SBlob(bytes)
  }

  /** Under a Boolean declaration 0 is false, 1 is true and NULL is null, and nothing else reads at
      all. Under a decimal one an integer reads as its decimal text and a finite real as its
      rendering. Anything else reads as it is stored. */
  ghost predicate CellReads(declared: string, v: Value, render: Renderer, out: SourceValue) {
    if BoolSpelled(declared) then
      || (v == VInteger(1) && out == SBool(true))
      || (v == VInteger(0) && out == SBool(false))
      || (v == VNull && out == SNull)
    else if DecimalDeclared(declared) && v.VInteger? then out.SDecimal? && Denotes(out.digits, v.n)
    else if DecimalDeclared(declared) && v.VReal? then out.SDecimal? && render(v.bits) == Some(out.digits)
    else AsStored(v, out)
  }

  /** The name SQLite's typeof gives the class of a value. */
  predicate ClassIs(v: Value, class': string) {
    match v
    case VNull => class' == "null"
    case VInteger(_) => class' == "integer"
    case VReal(_) => class' == "real"
    case VText(_) => class' == "text"
    case VBlob(_) => class' == "blob"
  }

  lemma LastDigit(s: string, value: nat)
    requires DenotesNat(s, value)
    ensures var n := |s| - 1;
            && s == s[..n] + [s[n]] && s[n] == Digit(value % 10)
            && (n > 0 ==> value >= 10 && DenotesNat(s[..n], value / 10)) && (n == 0 ==> value < 10)
  {
    var n := |s| - 1;
    assert IsDigit(s[n]);
    assert s[..0] == "";
    if n > 0 { PositiveDigits(s[..n]); }
  }

  lemma {:induction false} DigitsDecide(a: string, b: string, value: nat)
    requires DenotesNat(a, value) && DenotesNat(b, value)
    ensures a == b
    decreases |a|
  {
    LastDigit(a, value);
    LastDigit(b, value);
    if |a| > 1 { DigitsDecide(a[..|a| - 1], b[..|b| - 1], value / 10); }
  }

  lemma {:induction false} PositiveDigits(s: string)
    requires Digits(s) && s[0] != '0'
    ensures DecimalValue(s) > 0
    decreases |s|
  {
    if |s| > 1 { PositiveDigits(s[..|s| - 1]); } else { assert s[..0] == ""; }
  }

  /** A cell reads as a value exactly when that is what is reported. */
  lemma ReportedReads(c: Column, v: Value, render: Renderer, out: SourceValue)
    ensures Reported(v, IsBooleanColumn(c), IsDecimalColumn(c), render) == Some(out)
            <==> CellReads(c.decl, v, render, out)
  {
    WordLaw(c.decl);
    assert IsDecimalColumn(c) <==> DecimalDeclared(c.decl) by {
      if p :| DecimalSpelled(c.decl, p) { assert DbschemaTypeFromSQLite(c.decl) == Recognised(Decimal, p, true); }
    }
    if !IsBooleanColumn(c) && IsDecimalColumn(c) && v.VInteger? {
      IntTextDenotes(v.n);
      if out.SDecimal? && Denotes(out.digits, v.n) { OneText(out.digits, IntText(v.n), v.n); }
    }
  }

  lemma OneText(a: string, b: string, n: int)
    requires Denotes(a, n) && Denotes(b, n)
    ensures a == b
  {
    if n < 0 {
      DigitsDecide(a[1..], b[1..], -n);
      assert a == [a[0]] + a[1..] && b == [b[0]] + b[1..];
    } else {
      DigitsDecide(a, b, n);
    }
  }

  ghost predicate Reads(declared: string, v: Value, render: Renderer) {
    exists out :: CellReads(declared, v, render, out)
  }

  lemma ReportedSome(cols: seq<Column>, row: seq<Value>, render: Renderer, i: nat)
    requires i < |cols| == |row|
    ensures ReportedCell(cols, row, render, i).Some? <==> Reads(cols[i].decl, row[i], render)
  {
    var w := ReportedCell(cols, row, render, i);
    if w.Some? { ReportedReads(cols[i], row[i], render, w.value); }
    if out :| CellReads(cols[i].decl, row[i], render, out) { ReportedReads(cols[i], row[i], render, out); }
  }

  /** The column's name carries what its own cell reads as and the class of its own value. */
  ghost predicate CellGiven(c: Column, v: Value, render: Renderer, r: SourceRow) {
    && c.name in r.values && c.name in r.classes && CellReads(c.decl, v, render, r.values[c.name])
    && ClassIs(v, r.classes[c.name])
  }

  lemma AlignedGiven(cols: seq<Column>, row: seq<Value>, render: Renderer, i: nat, r: SourceRow)
    requires i < |cols| == |row| && CellAligned(cols, row, render, i, r)
    ensures CellGiven(cols[i], row[i], render, r)
  {
    ReportedReads(cols[i], row[i], render, r.values[cols[i].name]);
  }

  /** A row is given exactly when every cell reads as something, and then it has exactly the
      columns' names, each with what its own cell reads as and the class of its own value. */
  lemma RowLaw(cols: seq<Column>, row: seq<Value>, render: Renderer)
    requires DistinctColumns(cols) && |row| == |cols|
    ensures RowOf(cols, row, render).Some? <==> forall i: nat | i < |cols| :: Reads(cols[i].decl, row[i], render)
    ensures RowOf(cols, row, render).Some? ==>
              var r := RowOf(cols, row, render).value;
              && r.values.Keys == r.classes.Keys && (forall x | x in r.values :: x in Names(cols))
              && forall i: nat | i < |cols| :: CellGiven(cols[i], row[i], render, r)
  {
    RowAligned(cols, row, render);
    forall i: nat | i < |cols|
      ensures ReportedCell(cols, row, render, i).Some? <==> Reads(cols[i].decl, row[i], render) {
      ReportedSome(cols, row, render, i);
    }
    if r: SourceRow :| RowOf(cols, row, render) == Some(r) {
      forall i: nat | i < |cols| ensures CellGiven(cols[i], row[i], render, r) {
        AlignedGiven(cols, row, render, i, r);
      }
    }
  }

  class SourceRowsCursor {
    const rows: Rows<seq<Value>>
    const names: seq<string>
    const decimal: seq<bool>
    const boolean: seq<bool>
    const render: Renderer
    ghost const cols: seq<Column>
    ghost const delivered: seq<seq<Value>>

    constructor (rows: Rows<seq<Value>>, names: seq<string>, decimal: seq<bool>, boolean: seq<bool>, render: Renderer,
                 ghost cols: seq<Column>, ghost delivered: seq<seq<Value>>)
      ensures this.rows == rows && this.names == names && this.decimal == decimal && this.boolean == boolean
      ensures this.render == render && this.cols == cols && this.delivered == delivered
    {
      this.rows, this.names, this.decimal, this.boolean := rows, names, decimal, boolean;
      this.render, this.cols, this.delivered := render, cols, delivered;
    }

    ghost predicate Valid()
      reads this, rows
    {
      && DistinctColumns(cols) && names == Names(cols) && decimal == DecimalFlags(cols) && boolean == BooleanFlags(cols)
      && |rows.data| == |delivered| && rows.read <= |rows.data| && (rows.open ==> !rows.failed)
      && forall k | 0 <= k < |delivered| ::
         |delivered[k]| == |cols| && rows.data[k] == Cells(Projection(names), cols, delivered[k])
    }

    /** What Next answers for row k when every call goes well. */
    ghost function Answer(k: nat): NextRow
      requires Valid() && k <= |delivered|
      reads this, rows
    {
      if k == |delivered| then Eof
      else match RowOf(cols, delivered[k], render) case None => Refused case Some(x) => Row(x)
    }

    /** The next row as it is reported, or the end exactly after the last one; a row with a value
        that is refused is refused, and so is one whose calls did not go well. */
    method Next() returns (r: NextRow)
      requires Valid()
      modifies rows, rows.home`free, rows.home.env
      ensures Valid() && old(rows.home.env.asked) <= rows.home.env.asked
      ensures !old(rows.open) ==> r == if old(rows.failed) then Refused else Eof
      ensures old(rows.open) ==> r == if rows.home.env.CalmSince(old(rows.home.env.asked)) then old(Answer(rows.read))
              else Refused
      ensures rows.read == old(rows.read) + (if r.Row? then 1 else 0) || r.Refused?
      ensures r.Eof? ==> !rows.open && !rows.failed
    {
      ghost var env, from := rows.home.env, rows.home.env.asked;
      env.One(from);
      env.One(from + 1);
      env.Split(from, from + 1, from + 2);
      var has := rows.Next();
      if !has {
        if rows.failed { return Refused; }
        return Eof;
      }
      var scanned := rows.Scan();
      if scanned.None? { return Refused; }
      r := Pair(scanned.value, delivered[rows.read - 1]);
    }

    /** One column of a scanned row: its value and its class under its name. */
    method PairCell(cells: seq<Value>, ghost row: seq<Value>, i: nat, out: SourceRow) returns (next: Option<SourceRow>)
      requires DistinctColumns(cols) && names == Names(cols) && decimal == DecimalFlags(cols)
               && boolean == BooleanFlags(cols)
      requires |row| == |cols| && i < |cols| && cells == Cells(Projection(names), cols, row)
      requires PairedRow(names[..i], Wanted(row, boolean, decimal, render)[..i], Kinds(row)[..i]) == Some(out)
      ensures next == PairedRow(names[..i + 1], Wanted(row, boolean, decimal, render)[..i + 1], Kinds(row)[..i + 1])
    {
      var count := |names|;
      CellsAligned(cols, row, i);
      PairedRowStep(names, Wanted(row, boolean, decimal, render), Kinds(row), i);
      assert cells[count + i].VText?;
      var class' := cells[count + i].s;
      var value := ReadCell(cells[i], class', boolean[i], decimal[i]);
      if value.None? { return None; }
      return Some(SourceRow(out.values[names[i] := value.value], out.classes[names[i] := class']));
    }

    /** The loop over the columns of one scanned row. */
    method Pair(cells: seq<Value>, ghost row: seq<Value>) returns (r: NextRow)
      requires DistinctColumns(cols) && names == Names(cols) && decimal == DecimalFlags(cols)
               && boolean == BooleanFlags(cols)
      requires |row| == |cols| && cells == Cells(Projection(names), cols, row)
      ensures r == match RowOf(cols, row, render) case None => Refused case Some(x) => Row(x)
    {
      ghost var want, kinds := Wanted(row, boolean, decimal, render), Kinds(row);
      var out := SourceRow(map[], map[]);
      var i := 0;
      while i < |names|
        invariant 0 <= i <= |names| == |want| == |kinds|
        invariant PairedRow(names[..i], want[..i], kinds[..i]) == Some(out)
      {
        var next := PairCell(cells, row, i, out);
        if next.None? {
          PrefixRefused(names, want, kinds, i + 1);
          return Refused;
        }
        out := next.value;
        i := i + 1;
      }
      assert names[..i] == names && want[..i] == want && kinds[..i] == kinds;
      return Row(out);
    }

    /** One cell, decided by its storage class and by how its column is declared. */
    method ReadCell(cell: Value, class': string, isBoolean: bool, isDecimal: bool) returns (r: Option<SourceValue>)
      requires class' == ClassName(cell)
      ensures r == Reported(cell, isBoolean, isDecimal, render)
    {
      var value := Native(cell);
      if isBoolean {
        if class' == "null" {
          value := SNull;
        } else if class' == "integer" {
          if !value.SInteger? || (value.n != 0 && value.n != 1) { return None; }
          value := SBool(value.n == 1);
        } else {
          return None;
        }
      }
      if isDecimal {
        if value.SInteger? {
          value := SDecimal(IntText(value.n));
        } else if value.SReal? {
          var text := render(value.bits);
          if text.None? { return None; }
          value := SDecimal(text.value);
        }
      }
      return Some(value);
    }

    method Close()
      requires Valid()
      modifies rows, rows.home`free
      ensures Valid() && !rows.open
      ensures rows.home.free == old(rows.home.free) + old(rows.Held())
    {
      rows.Close();
    }
  }

  // ---- Opening ----

  /** What the loop over the columns gathers. */
  datatype Gathered = Gathered(names: seq<string>, decimal: seq<bool>, boolean: seq<bool>, pk: seq<PkEntry>)

  function GatheredFrom(cols: seq<Column>): Gathered {
    Gathered(Names(cols), DecimalFlags(cols), BooleanFlags(cols), KeyEntries(cols))
  }

  lemma GatheredStep(cols: seq<Column>, n: nat)
    requires n < |cols|
    ensures Names(cols[..n + 1]) == Names(cols[..n]) + [cols[n].name]
    ensures DecimalFlags(cols[..n + 1]) == DecimalFlags(cols[..n]) + [IsDecimalColumn(cols[n])]
    ensures BooleanFlags(cols[..n + 1]) == BooleanFlags(cols[..n]) + [IsBooleanColumn(cols[n])]
    ensures KeyEntries(cols[..n + 1]) == KeyEntries(cols[..n])
            + if cols[n].pk > 0 then [PkEntry(cols[n].name, cols[n].pk)] else []
  {
    KeyStep(cols[..n], cols[n]);
    FlagsStep(cols[..n], cols[n]);
    assert cols[..n + 1] == cols[..n] + [cols[n]];
  }

  lemma KeyStep(init: seq<Column>, c: Column)
    ensures KeyEntries(init + [c]) == KeyEntries(init) + if c.pk > 0 then [PkEntry(c.name, c.pk)] else []
  {
    assert (init + [c])[..|init|] == init;
  }

  lemma FlagsStep(init: seq<Column>, c: Column)
    ensures Names(init + [c]) == Names(init) + [c.name]
    ensures DecimalFlags(init + [c]) == DecimalFlags(init) + [IsDecimalColumn(c)]
    ensures BooleanFlags(init + [c]) == BooleanFlags(init) + [IsBooleanColumn(c)]
  {
  }

  /** One column of pragma_table_info. */
  method GatherColumn(g: Gathered, c: Column, ghost cols: seq<Column>, ghost n: nat) returns (g': Gathered)
    requires n < |cols| && c == cols[n] && g == GatheredFrom(cols[..n])
    ensures g' == GatheredFrom(cols[..n + 1])
  {
    GatheredStep(cols, n);
    var pk := g.pk;
    if c.pk > 0 {
      pk := pk + [PkEntry(c.name, c.pk)];
    }
    return Gathered(g.names + [c.name], g.decimal + [IsDecimalColumn(c)], g.boolean + [IsBooleanColumn(c)], pk);
  }

  method ReadColumns(pool: Pool, cols: seq<Column>) returns (r: Option<Gathered>)
    requires pool.free > 0
    modifies pool, pool.env
    ensures pool.free == old(pool.free) && old(pool.env.asked) <= pool.env.asked
    ensures r.Some? <==> pool.env.CalmSince(old(pool.env.asked))
    ensures r.Some? ==> r.value == GatheredFrom(cols)
  {
    ghost var from := pool.env.asked;
    var rows := pool.Query(cols);
    if rows == null { return None; }
    var g := Gathered([], [], [], []);
    ghost var n := 0;
    assert cols[..0] == [];
    var has, row := rows.Fetch(from);
    while has
      invariant rows.home == pool && rows.holds && rows.data == cols && fresh(rows)
      invariant rows.Fetched(from, has, row) && pool.free == old(pool.free) - if has then 1 else 0
      invariant rows.read == n + (if has then 1 else 0) && g == GatheredFrom(cols[..n])
      decreases |rows.data| - rows.read, has
    {
      if row.None? { rows.Close(); return None; }
      g := GatherColumn(g, row.value, cols, n);
      n := n + 1;
      has, row := rows.Fetch(from);
    }
    rows.Close();
    if rows.failed { return None; }
    assert cols[..n] == cols;
    return Some(g);
  }

  lemma TermStep(ts: seq<Term>, i: nat)
    requires i < |ts|
    ensures TermTexts(ts[..i + 1]) == TermTexts(ts[..i]) + [TermText(ts[i])]
  {
  }

  method BuildProjection(names: seq<string>) returns (selects: seq<string>)
    ensures selects == TermTexts(Projection(names))
  {
    ghost var all := Projection(names);
    selects := [];
    var i := 0;
    while i < |names|
      invariant 0 <= i <= |names| && selects == TermTexts(all[..i])
    {
      var quoted := QuoteIdentifier(names[i]);
      TermStep(all, i);
      assert all[i] == ValueOf(names[i]);
      selects := selects
        + ["CASE WHEN typeof(" + quoted + ")='text' THEN CAST(" + quoted + " AS TEXT) ELSE " + quoted + " END"];
      i := i + 1;
    }
    i := 0;
    while i < |names|
      invariant 0 <= i <= |names| && selects == TermTexts(all[..|names| + i])
    {
      TermStep(all, |names| + i);
      assert all[|names| + i] == ClassOf(names[i]);
      selects := selects + ["typeof(" + QuoteIdentifier(names[i]) + ")"];
      i := i + 1;
    }
    assert all[..|names| + i] == all;
  }

  /** The first candidate no column shadows; empty when there is none. */
  method ChooseAlias(names: seq<string>) returns (order: string)
    ensures order == match FirstUnshadowed(names, ALIASES) case None => "" case Some(a) => a
  {
    order := "";
    var k := 0;
    while k < |ALIASES|
      invariant 0 <= k <= |ALIASES| && order == ""
      invariant FirstUnshadowed(names, ALIASES) == FirstUnshadowed(names, ALIASES[k..])
    {
      var candidate := ALIASES[k];
      var shadowed := false;
      var i := 0;
      while i < |names|
        invariant 0 <= i <= |names| && !shadowed
        invariant forall j | 0 <= j < i :: Fold(names[j]) != Fold(candidate)
      {
        if Fold(names[i]) == Fold(candidate) { shadowed := true; break; }
        i := i + 1;
      }
      assert shadowed == Shadowed(names, candidate);
      assert ALIASES[k..][0] == candidate && ALIASES[k..][1..] == ALIASES[k + 1..];
      if !shadowed { order := candidate; break; }
      k := k + 1;
    }
  }

  method BuildOrder(g: Gathered, ghost cols: seq<Column>) returns (order: string)
    requires g == GatheredFrom(cols)
    ensures order == match OrderOf(cols) case None => "" case Some(o) => OrderText(o)
  {
    if |g.pk| > 0 {
      var pk := SortedKey(g.pk);
      var ordered: seq<string> := [];
      var i := 0;
      while i < |pk|
        invariant 0 <= i <= |pk| && |ordered| == i
        invariant forall k | 0 <= k < i :: ordered[k] == QuoteIdentifier(pk[k])
      {
        ordered := ordered + [QuoteIdentifier(pk[i])];
        i := i + 1;
      }
      assert ordered == Quoted(KeyOf(cols));
      return Join(ordered, ", ");
    }
    order := ChooseAlias(g.names);
  }

  /** An order text is empty only when there is no order. */
  lemma OrderNotEmpty(cols: seq<Column>)
    ensures OrderOf(cols).Some? ==> OrderText(OrderOf(cols).value) != ""
  {
    FirstLaw(Names(cols), ALIASES);
    if KeyEntries(cols) != [] {
      SortMembers(KeyEntries(cols));
      assert |Quoted(KeyOf(cols))| > 0;
      JoinNotEmpty(Quoted(KeyOf(cols)));
    }
  }

  lemma JoinNotEmpty(parts: seq<string>)
    requires |parts| > 0 && parts[0] != ""
    ensures Join(parts, ", ") != ""
  {
  }

  /** The names can be written into a statement. */
  predicate Writable(table: string, cols: seq<Column>) {
    SqlParser.NulFree(table) && SqlParser.NulFreeAll(Names(cols))
  }

  /** The table can be streamed: it exists, has columns, none of them hidden, can be ordered, and its
      names can be written. */
  predicate Streamable(cat: Catalog, table: string) {
    && table != "" && Fold(table) in cat.tables && Writable(table, cat.tables[Fold(table)].cols)
    && cat.tables[Fold(table)].hidden == [] && cat.tables[Fold(table)].cols != []
    && OrderOf(cat.tables[Fold(table)].cols).Some?
  }

  lemma DeliveredWidths(t: Table, delivered: seq<seq<Value>>)
    requires multiset(delivered) == multiset(t.rows)
    ensures forall k | 0 <= k < |delivered| :: |delivered[k]| == |t.cols|
  {
    forall k | 0 <= k < |delivered| ensures |delivered[k]| == |t.cols| {
      assert delivered[k] in multiset(delivered);
      assert delivered[k] in t.rows;
    }
  }

  lemma OrderIsWell(cols: seq<Column>)
    requires OrderOf(cols).Some? && SqlParser.NulFreeAll(Names(cols))
    ensures WellOrdered(OrderOf(cols).value) && NulFreeOrder(OrderOf(cols).value)
  {
    SortMembers(KeyEntries(cols));
    FirstLaw(Names(cols), ALIASES);
    var key := KeyOf(cols);
    forall k | 0 <= k < |key| ensures SqlParser.NulFree(key[k]) {
      var x := SortByOrder(KeyEntries(cols))[k];
      assert x in SortByOrder(KeyEntries(cols));
      EntryNamed(cols, x);
      var j :| 0 <= j < |cols| && cols[j].name == x.colName;
      assert Names(cols)[j] == key[k];
    }
  }

  lemma {:induction false} EntryNamed(cols: seq<Column>, x: PkEntry)
    requires x in KeyEntries(cols)
    ensures exists j | 0 <= j < |cols| :: cols[j].name == x.colName
    decreases |cols|
  {
    var n := |cols| - 1;
    if x in KeyEntries(cols[..n]) {
      EntryNamed(cols[..n], x);
      var j :| 0 <= j < n && cols[..n][j].name == x.colName;
      assert cols[j].name == x.colName;
    } else {
      assert cols[n].name == x.colName;
    }
  }

  /** The statement is read exactly when its names can be written, and then asks for the projection
      of the table in its order. */
  lemma StatementAsks(cat: Catalog, table: string, cols: seq<Column>)
    requires Fold(table) in cat.tables && cols != [] && OrderOf(cols).Some?
    ensures var ts := Projection(Names(cols));
            Asked(cat, SelectText(ts, table, OrderOf(cols).value))
            == if Writable(table, cols) then Some(Select(ExprsOf(ts), table, OrderOf(cols).value)) else None
  {
    var names, ts := Names(cols), Projection(Names(cols));
    assert NulFreeTerms(ts) <==> SqlParser.NulFreeAll(names) by {
      forall i | 0 <= i < |names| ensures ts[i].column == names[i] && ts[|names| + i].column == names[i] {}
      if NulFreeTerms(ts) {
        forall i | 0 <= i < |names| ensures SqlParser.NulFree(names[i]) { assert ts[i].column == names[i]; }
      }
      if SqlParser.NulFreeAll(names) {
        forall i | 0 <= i < |ts| ensures SqlParser.NulFree(ts[i].column) {
          assert ts[i].column == names[if i < |names| then i else i - |names|];
        }
      }
    }
    OrderHasText(cols);
    SelectRoundTrip(ts, table, OrderOf(cols).value);
    if SqlParser.NulFreeAll(names) { OrderIsWell(cols); }
  }

  lemma OrderHasText(cols: seq<Column>)
    requires OrderOf(cols).Some?
    ensures WellOrdered(OrderOf(cols).value)
  {
    SortMembers(KeyEntries(cols));
    FirstLaw(Names(cols), ALIASES);
  }

  /** The query of a table that can be streamed, and the cursor over its rows. */
  method OpenCursor(pool: Pool, cat: Catalog, table: string, g: Gathered, render: Renderer, others: Value -> Value)
    returns (cursor: SourceRowsCursor?)
    requires pool.free > 0 && Fold(table) in cat.tables
    requires var cols := cat.tables[Fold(table)].cols; cols != [] && DistinctColumns(cols) && g == GatheredFrom(cols)
    modifies pool, pool.env
    ensures pool.free == old(pool.free) - (if cursor == null then 0 else 1) && old(pool.env.asked) <= pool.env.asked
    ensures var t := cat.tables[Fold(table)];
            cursor != null <==>
            OrderOf(t.cols).Some? && Writable(table, t.cols) && pool.env.CalmSince(old(pool.env.asked))
    ensures cursor != null ==> fresh(cursor) && fresh(cursor.rows) && cursor.Valid() && cursor.rows.home == pool
    ensures cursor != null ==> cursor.rows.holds && cursor.rows.open && cursor.rows.read == 0
    ensures cursor != null ==>
              var t := cat.tables[Fold(table)];
              cursor.render == render && cursor.cols == t.cols && multiset(cursor.delivered) == multiset(t.rows)
  {
    var t := cat.tables[Fold(table)];
    var selects := BuildProjection(g.names);
    var order := BuildOrder(g, t.cols);
    OrderNotEmpty(t.cols);
    if order == "" { return null; }
    var statement := "SELECT " + Join(selects, ", ") + " FROM " + QuoteIdentifier(table) + " ORDER BY " + order;
    StatementAsks(cat, table, t.cols);
    pool.env.One(pool.env.asked);
    var result, delivered := RunSelect(pool, cat, statement, others);
    if result == null { return null; }
    DeliveredWidths(t, delivered);
    forall k | 0 <= k < |delivered| ensures result.data[k] == Cells(Projection(g.names), t.cols, delivered[k]) {
      ResultsAreCells(Projection(g.names), others, t.cols, delivered[k]);
    }
    cursor := new SourceRowsCursor(result, g.names, g.decimal, g.boolean, render, t.cols, delivered);
  }

  /** OpenSourceRows: a cursor over every row of the table once, holding the connection, exactly
      when the table can be streamed and every call went well; otherwise nothing, holding none. */
  method OpenSourceRows(pool: Pool, cat: Catalog, table: string, render: Renderer, others: Value -> Value)
    returns (cursor: SourceRowsCursor?)
    requires pool.free > 0
    requires forall f | f in cat.tables :: DistinctColumns(cat.tables[f].cols)
    modifies pool, pool.env
    ensures pool.free == old(pool.free) - (if cursor == null then 0 else 1) && old(pool.env.asked) <= pool.env.asked
    ensures cursor != null <==> Streamable(cat, table) && pool.env.CalmSince(old(pool.env.asked))
    ensures cursor != null ==> fresh(cursor) && fresh(cursor.rows) && cursor.Valid() && cursor.rows.home == pool
    ensures cursor != null ==> cursor.rows.holds && cursor.rows.open && cursor.rows.read == 0
    ensures cursor != null ==> cursor.render == render && cursor.cols == cat.tables[Fold(table)].cols
                               && multiset(cursor.delivered) == multiset(cat.tables[Fold(table)].rows)
  {
    if table == "" { return null; }
    ghost var from := pool.env.asked;
    var search := SchemaReader.RejectHiddenSourceColumns(pool, cat, table);
    if !search.NoneHidden? { return null; }
    ghost var m1 := pool.env.asked;
    var gathered := ReadColumns(pool, TableInfo(cat, table));
    if gathered.None? { return null; }
    if |gathered.value.names| == 0 { return null; }
    ghost var m2 := pool.env.asked;
    cursor := OpenCursor(pool, cat, table, gathered.value, render, others);
  }
}
