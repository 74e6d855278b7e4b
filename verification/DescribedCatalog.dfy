/** What describing any collection answers, whoever made it: each field of the answer said of the
    column it describes, the key, the indexes, and when there is no description. */
module DescribedCatalog {
  import opened Text
  import opened DbSchema
  import opened TypeMapping
  import opened KeyOrder
  import opened Catalog
  import opened SchemaReader

  // ---- Types ----

  /** The type and precision a declared type stands for. */
  ghost predicate DescribesType(typ: Type, p: Option<Precision>, declared: string) {
    match typ
    case Time => TimeSpelled(declared) && p.None?
    case Bool => BoolSpelled(declared) && p.None?
    case Decimal => DecimalSpelled(declared, p)
    case Int => AffinityOf(declared) == INTEGER && p.None?
    case String => AffinityOf(declared) == TEXT && p.None?
    case Float => AffinityOf(declared) == REAL && p.None?
    case Bytes => AffinityOf(declared) == BLOB && TrimSpace(declared) != "" && p.None?
    case _ => false
  }

  /** A declared type is recognised as exactly the type it stands for, and not at all when it stands
      for none. */
  lemma TypeLaw(declared: string)
    ensures var r := DbschemaTypeFromSQLite(declared);
            && (r.ok ==> DescribesType(r.typ, r.precision, declared))
            && (forall typ, p :: DescribesType(typ, p, declared) ==> r == Recognised(typ, p, true))
  {
    WordLaw(declared);
    RecognitionRefinesAffinity(declared);
    PlainPrecision(Upper(TrimSpace(declared)));
  }

  lemma PlainPrecision(u: string)
    ensures var r := RecogniseUpper(u);
            (r.precision.Some? ==> r.typ == Decimal) && (r.typ == Unknown ==> !r.ok) && (r.typ == Null ==> !r.ok)
  {
  }

  ghost predicate Describable(c: Column, marks: set<string>) {
    c.name in marks || exists typ, p :: DescribesType(typ, p, c.decl)
  }

  lemma DescribableIs(c: Column, marks: set<string>)
    ensures Describable(c, marks) <==> Recognisable(c, marks)
  {
    TypeLaw(c.decl);
    var r := DbschemaTypeFromSQLite(c.decl);
    if r.ok { assert DescribesType(r.typ, r.precision, c.decl); }
  }

  // ---- One field ----

  /** The column is the rowid of its table as the reader finds it. */
  predicate RowidColumn(t: TableData, c: Column) {
    && |KeyOf(t.cols)| == 1 && c.pk == 1 && Fold(TrimSpace(c.decl)) == "integer" && !HasKeyIndex(t)
    && !Contains(Upper(t.sql), "WITHOUT ROWID")
  }

  /** An unmarked column of INTEGER affinity first in the key. */
  predicate IntKey(c: Column, marks: set<string>) {
    c.pk == 1 && c.name !in marks && AffinityOf(c.decl) == INTEGER
  }

  /** Field j: the column's name; a Time when it is marked, and otherwise the type its declaration
      stands for; it may be NULL unless it is NOT NULL or the rowid; AUTOINCREMENT when the probe
      answered so and no later column is an integer first in the key. */
  ghost predicate FieldDescribed(f: FieldDef, t: TableData, j: nat, marks: set<string>, auto: bool)
    requires j < |t.cols|
  {
    var c := t.cols[j];
    && f.name == c.name
    && (if c.name in marks then f.typ == Time && f.precision.None? else DescribesType(f.typ, f.precision, c.decl))
    && (f.nullable <==> !c.notNull && !RowidColumn(t, c))
    && (f.autoIncrement <==> auto && IntKey(c, marks) && forall i | j < i < |t.cols| :: !IntKey(t.cols[i], marks))
  }

  lemma {:induction false} AutoFieldLaw(fields: seq<FieldDef>, cols: seq<Column>, marks: set<string>)
    requires |fields| == |cols|
    requires forall i | 0 <= i < |cols| :: fields[i].typ == Int && cols[i].pk == 1 <==> IntKey(cols[i], marks)
    ensures forall j: nat | j < |cols| ::
              AutoField(fields, cols) == Some(j)
              <==> IntKey(cols[j], marks) && forall i | j < i < |cols| :: !IntKey(cols[i], marks)
    decreases |cols|
  {
    if cols != [] {
      var n := |cols| - 1;
      AutoFieldLaw(fields[..n], cols[..n], marks);
      forall j: nat | j < |cols|
        ensures AutoField(fields, cols) == Some(j)
                <==> IntKey(cols[j], marks) && forall i | j < i < |cols| :: !IntKey(cols[i], marks) {
        if j < n { assert cols[..n][j] == cols[j]; }
      }
    }
  }

  lemma IntIs(c: Column, marks: set<string>)
    requires Recognisable(c, marks)
    ensures FieldOf(c, marks).typ == Int && c.pk == 1 <==> IntKey(c, marks)
  {
    RecognitionRefinesAffinity(c.decl);
  }

  lemma KeyListed(cat: Catalog, name: string)
    requires Exists(cat, name)
    ensures (forall i | 0 <= i < |ListedIndexes(cat, name)| :: !ListedIndexes(cat, name)[i].fromKey)
            <==> !HasKeyIndex(cat.tables[Fold(name)])
  {
    var listed, own := ListedIndexes(cat, name), TableIndexes(cat.indexes, Fold(name));
    forall i | 0 <= i < |own| ensures !listed[i].fromKey {}
    if HasKeyIndex(cat.tables[Fold(name)]) { assert listed[|own|].fromKey; }
  }

  lemma RowidIs(cat: Catalog, name: string, j: nat)
    requires Exists(cat, name) && j < |TableInfo(cat, name)|
    ensures var t := cat.tables[Fold(name)];
            IsRowid(t.cols[j], |KeyOf(t.cols)|, SourceOf(cat, name)) <==> RowidColumn(t, t.cols[j])
  {
    KeyListed(cat, name);
  }

  lemma AutoIs(cols: seq<Column>, marks: set<string>, j: nat)
    requires AllRecognisable(cols, marks) && j < |cols|
    ensures AutoField(FieldsOf(cols, marks), cols) == Some(j)
            <==> IntKey(cols[j], marks) && forall i | j < i < |cols| :: !IntKey(cols[i], marks)
  {
    var read := FieldsOf(cols, marks);
    forall i | 0 <= i < |cols| ensures read[i].typ == Int && cols[i].pk == 1 <==> IntKey(cols[i], marks) {
      IntIs(cols[i], marks);
    }
    AutoFieldLaw(read, cols, marks);
  }

  /** The field before nullability is settled. */
  lemma ReadIs(c: Column, marks: set<string>)
    requires Recognisable(c, marks)
    ensures var f := FieldOf(c, marks);
            && f.name == c.name && f.nullable == !c.notNull && !f.autoIncrement
            && if c.name in marks then f.typ == Time && f.precision.None? else DescribesType(f.typ, f.precision, c.decl)
  {
    TypeLaw(c.decl);
  }

  /** How field j is put together. */
  lemma FieldShape(cat: Catalog, name: string, enforced: bool, auto: bool, j: nat)
    requires Exists(cat, name) && j < |TableInfo(cat, name)|
    ensures var cols, marks := TableInfo(cat, name), MarksOf(cat, name);
            && |DescriptionOf(cat, name, enforced, auto).fields| == |cols|
            && DescriptionOf(cat, name, enforced, auto).fields[j]
               == FieldOf(cols[j], marks).(
                    autoIncrement := if AutoField(FieldsOf(cols, marks), cols) == Some(j) then auto
                                     else FieldOf(cols[j], marks).autoIncrement,
                    nullable := !IsRowid(cols[j], |KeyOf(cols)|, SourceOf(cat, name))
                                && FieldOf(cols[j], marks).nullable)
  {
    var cols, marks := TableInfo(cat, name), MarksOf(cat, name);
    var read := FieldsOf(cols, marks);
    var fields := WithAuto(read, AutoField(read, cols), auto);
    assert fields[j] == read[j].(
                          autoIncrement := if AutoField(read, cols) == Some(j) then auto else read[j].autoIncrement);
  }

  lemma FieldIs(cat: Catalog, name: string, enforced: bool, auto: bool, j: nat)
    requires Exists(cat, name) && AllRecognisable(TableInfo(cat, name), MarksOf(cat, name))
    requires j < |TableInfo(cat, name)|
    ensures var d := DescriptionOf(cat, name, enforced, auto);
            |d.fields| == |TableInfo(cat, name)|
            && FieldDescribed(d.fields[j], cat.tables[Fold(name)], j, MarksOf(cat, name), auto)
  {
    var cols, marks := TableInfo(cat, name), MarksOf(cat, name);
    FieldShape(cat, name, enforced, auto, j);
    AutoIs(cols, marks, j);
    ReadIs(cols[j], marks);
    RowidIs(cat, name, j);
  }

  // ---- Key and indexes ----

  /** The key columns with their positions, in ascending order of position. */
  ghost predicate KeyDescribed(key: seq<string>, cols: seq<Column>) {
    exists entries :: KeyNames(entries) == key && Ascending(entries) && multiset(entries) == multiset(KeyEntries(cols))
  }

  /** The fields are the terms in order, none of them an expression. */
  predicate PlainTerms(fields: seq<string>, terms: seq<Option<string>>) {
    |fields| == |terms| && forall k | 0 <= k < |terms| :: terms[k] == Some(fields[k])
  }

  lemma {:induction false} NamedTermsLaw(terms: seq<Option<string>>)
    requires !HasExpression(terms)
    ensures PlainTerms(NamedTerms(terms), terms)
    decreases |terms|
  {
    if terms != [] {
      var n := |terms| - 1;
      forall i | 0 <= i < n ensures terms[..n][i].Some? { assert terms[..n][i] == terms[i]; }
      NamedTermsLaw(terms[..n]);
      assert terms == terms[..n] + [terms[n]];
    }
  }

  /** An index reads as its terms in order when all are columns, and as no fields when one of them
      is an expression. */
  lemma IndexFieldsLaw(terms: seq<Option<string>>)
    ensures (forall k | 0 <= k < |terms| :: terms[k].Some?) ==> PlainTerms(IndexFields(terms), terms)
    ensures (exists k | 0 <= k < |terms| :: terms[k].None?) ==> IndexFields(terms) == []
  {
    if !HasExpression(terms) { NamedTermsLaw(terms); }
  }

  /** The definition a listed index reads as. */
  ghost predicate ReadsAs(l: ListedIndex, name: string, x: IndexDef) {
    && !l.fromKey && x.name == l.name && x.collection == name && x.unique == l.unique
    && x.fields != [] && PlainTerms(x.fields, l.terms)
  }

  lemma ReadsAsIs(l: ListedIndex, name: string, x: IndexDef)
    ensures ReadsAs(l, name, x)
            <==> !l.fromKey && IndexFields(l.terms) != [] && x == IndexDef(l.name, name, IndexFields(l.terms), l.unique)
  {
    IndexFieldsLaw(l.terms);
    if ReadsAs(l, name, x) {
      assert forall k | 0 <= k < |l.terms| :: l.terms[k] == Some(x.fields[k]);
      assert IndexFields(l.terms) == x.fields;
    }
  }

  /** The portable indexes are exactly what the listed indexes read as. */
  lemma {:induction false} IndexDefsLaw(listed: seq<ListedIndex>, name: string, x: IndexDef)
    ensures x in IndexDefs(listed, name) <==> exists i | 0 <= i < |listed| :: ReadsAs(listed[i], name, x)
    decreases |listed|
  {
    if listed != [] {
      var n := |listed| - 1;
      IndexDefsLaw(listed[..n], name, x);
      ReadsAsIs(listed[n], name, x);
      assert listed == listed[..n] + [listed[n]];
      if i :| 0 <= i < n && ReadsAs(listed[..n][i], name, x) { assert ReadsAs(listed[i], name, x); }
      if i :| 0 <= i < |listed| && ReadsAs(listed[i], name, x) {
        if i < n { assert ReadsAs(listed[..n][i], name, x); }
      }
    }
  }

  /** The definition an index on plain columns reads as. */
  predicate IndexReads(ix: Index, name: string, x: IndexDef) {
    && x.name == ix.name && x.collection == name && x.unique == ix.unique
    && x.fields != [] && PlainTerms(x.fields, ix.cols)
  }

  /** An index of the table on plain columns, as the description gives it. */
  ghost predicate IndexDescribed(cat: Catalog, name: string, x: IndexDef) {
    exists ix :: ix in cat.indexes && ix.table == Fold(name) && IndexReads(ix, name, x)
  }

  /** An index as the source definition lists it: one of the table, or the key's own. */
  predicate Lists(l: ListedIndex, ix: Index) {
    l.name == ix.name && l.unique == ix.unique && !l.fromKey && l.terms == ix.cols
  }

  ghost predicate IndexListed(cat: Catalog, name: string, l: ListedIndex) {
    || (exists ix :: ix in cat.indexes && ix.table == Fold(name) && Lists(l, ix))
    || (Fold(name) in cat.tables && HasKeyIndex(cat.tables[Fold(name)]) && l.fromKey && l.unique
        && PlainTerms(KeyOf(cat.tables[Fold(name)].cols), l.terms) && l.name == "sqlite_autoindex_" + name + "_1")
  }

  lemma ListedIs(cat: Catalog, name: string, l: ListedIndex)
    ensures l in ListedIndexes(cat, name) <==> IndexListed(cat, name, l)
  {
    var listed, own := ListedIndexes(cat, name), TableIndexes(cat.indexes, Fold(name));
    if i :| 0 <= i < |listed| && listed[i] == l {
      if i < |own| {
        TableIndexesLaw(cat.indexes, Fold(name), own[i]);
        assert own[i] in cat.indexes && Lists(l, own[i]);
      }
    }
    if IndexListed(cat, name, l) {
      if ix :| ix in cat.indexes && ix.table == Fold(name) && Lists(l, ix) {
        TableIndexesLaw(cat.indexes, Fold(name), ix);
        var i :| 0 <= i < |own| && own[i] == ix;
        assert listed[i] == l;
      } else {
        var key := KeyOf(cat.tables[Fold(name)].cols);
        assert Terms(key) == l.terms;
        assert listed[|own|] == l;
      }
    }
  }

  lemma IndexesDescribed(cat: Catalog, name: string, x: IndexDef)
    ensures x in IndexDefs(ListedIndexes(cat, name), name) <==> IndexDescribed(cat, name, x)
  {
    var listed := ListedIndexes(cat, name);
    IndexDefsLaw(listed, name, x);
    if i :| 0 <= i < |listed| && ReadsAs(listed[i], name, x) {
      ListedIs(cat, name, listed[i]);
      var ix :| ix in cat.indexes && ix.table == Fold(name) && Lists(listed[i], ix);
      assert IndexReads(ix, name, x);
    }
    if ix :| ix in cat.indexes && ix.table == Fold(name) && IndexReads(ix, name, x) {
      var l := ListedIndex(ix.name, ix.unique, false, ix.cols);
      assert Lists(l, ix);
      ListedIs(cat, name, l);
      var i :| 0 <= i < |listed| && listed[i] == l;
      assert ReadsAs(listed[i], name, x);
    }
  }

  // ---- The answer ----

  ghost predicate AllDescribable(cols: seq<Column>, marks: set<string>) {
    forall i | 0 <= i < |cols| :: Describable(cols[i], marks)
  }

  ghost predicate Describes(d: Description, cat: Catalog, name: string, auto: bool)
    requires Fold(name) in cat.tables
  {
    var t, marks := cat.tables[Fold(name)], MarksOf(cat, name);
    && d.name == name && |d.fields| == |t.cols|
    && (forall j: nat | j < |t.cols| :: FieldDescribed(d.fields[j], t, j, marks, auto))
    && KeyDescribed(d.primaryKey, t.cols)
    && (forall x :: x in d.indexes <==> IndexDescribed(cat, name, x))
    && d.source.createSQL == t.sql && d.source.columns == t.cols
    && (forall l :: l in d.source.indexes <==> IndexListed(cat, name, l))
  }

  lemma DescriptionIs(cat: Catalog, name: string, enforced: bool, auto: bool)
    requires Exists(cat, name) && AllRecognisable(TableInfo(cat, name), MarksOf(cat, name))
    ensures Describes(DescriptionOf(cat, name, enforced, auto), cat, name, auto)
  {
    var d, t := DescriptionOf(cat, name, enforced, auto), cat.tables[Fold(name)];
    forall j: nat | j < |t.cols| ensures FieldDescribed(d.fields[j], t, j, MarksOf(cat, name), auto) {
      FieldIs(cat, name, enforced, auto, j);
    }
    SortLaws(KeyEntries(t.cols));
    assert KeyNames(SortByOrder(KeyEntries(t.cols))) == d.primaryKey;
    forall x ensures x in d.indexes <==> IndexDescribed(cat, name, x) { IndexesDescribed(cat, name, x); }
    forall l ensures l in d.source.indexes <==> IndexListed(cat, name, l) { ListedIs(cat, name, l); }
  }

  lemma OneMoreRecognisable(cols: seq<Column>, marks: set<string>, k: nat)
    requires k < |cols| && Recognisable(cols[0], marks) && AllRecognisable(cols[1..][..k], marks)
    ensures AllRecognisable(cols[..k + 1], marks)
  {
    assert cols[..k + 1] == [cols[0]] + cols[1..][..k];
  }

  lemma {:induction false} FirstIsFirst(cols: seq<Column>, marks: set<string>) returns (j: nat)
    requires FirstUnsupported(cols, marks).Some?
    ensures j < |cols| && FirstUnsupported(cols, marks) == Some(cols[j].name) && !Recognisable(cols[j], marks)
    ensures AllRecognisable(cols[..j], marks)
    decreases |cols|
  {
    if Recognisable(cols[0], marks) {
      var rest := FirstIsFirst(cols[1..], marks);
      j := rest + 1;
      OneMoreRecognisable(cols, marks, rest);
    } else {
      j := 0;
    }
  }

  ghost predicate FirstUndescribable(cols: seq<Column>, marks: set<string>, name: string) {
    exists j | 0 <= j < |cols| ::
      cols[j].name == name && !Describable(cols[j], marks) && forall i | 0 <= i < j :: Describable(cols[i], marks)
  }

  /** What describing any collection answers: nothing found exactly when no table is stored under
      exactly that name; otherwise the first column that is neither marked nor of a type that stands
      for one; otherwise the first hidden column; and otherwise the description. */
  lemma AnswerLaw(cat: Catalog, name: string, enforced: bool, auto: bool)
    ensures var r := Answer(cat, name, enforced, auto);
            if !(Fold(name) in cat.tables && cat.tables[Fold(name)].name == name) then r == NotFound
            else
              var t, marks := cat.tables[Fold(name)], MarksOf(cat, name);
              if !AllDescribable(t.cols, marks) then r.Unsupported? && FirstUndescribable(t.cols, marks, r.column)
              else if t.hidden != [] then r == Hidden(t.hidden[0])
              else r.Described? && Describes(r.d, cat, name, auto)
  {
    if Exists(cat, name) {
      var t, marks := cat.tables[Fold(name)], MarksOf(cat, name);
      forall i | 0 <= i < |t.cols| ensures Describable(t.cols[i], marks) <==> Recognisable(t.cols[i], marks) {
        DescribableIs(t.cols[i], marks);
      }
      if FirstUnsupported(t.cols, marks).Some? {
        var j := FirstIsFirst(t.cols, marks);
        forall i | 0 <= i < j ensures Describable(t.cols[i], marks) { assert Recognisable(t.cols[..j][i], marks); }
        assert !Describable(t.cols[j], marks);
      } else {
        DescriptionIs(cat, name, enforced, auto);
      }
    }
  }

  /** A column is marked exactly when the sidecar holds the pair of exactly these names. */
  lemma MarksLaw(cat: Catalog, name: string, x: string)
    ensures x in MarksOf(cat, name) <==> cat.sidecar && (name, x) in cat.markers
  {
    if cat.sidecar && (name, x) in cat.markers { assert (name, x).1 in MarksOf(cat, name); }
  }

  // ---- Indexes on described fields ----

  /** And they are kept in order: what is kept of two lists together is what is kept of each. */
  lemma {:induction false} OnFieldsInOrder(a: seq<IndexDef>, b: seq<IndexDef>, names: set<string>)
    ensures OnFields(a + b, names) == OnFields(a, names) + OnFields(b, names)
    decreases |b|
  {
    if b == [] {
      assert a + b == a;
    } else {
      OnFieldsInOrder(a, b[..|b| - 1], names);
      assert (a + b)[..|a + b| - 1] == a + b[..|b| - 1];
    }
  }

  /** What is kept of the indexes is exactly those whose every field is among the names. */
  lemma {:induction false} OnFieldsLaw(indexes: seq<IndexDef>, names: set<string>, x: IndexDef)
    ensures x in OnFields(indexes, names) <==> x in indexes && forall k | 0 <= k < |x.fields| :: x.fields[k] in names
    decreases |indexes|
  {
    if indexes != [] {
      var n := |indexes| - 1;
      OnFieldsLaw(indexes[..n], names, x);
      assert indexes == indexes[..n] + [indexes[n]];
    }
  }
}
