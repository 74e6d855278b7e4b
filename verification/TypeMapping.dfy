/** The correspondence between portable types and SQLite's declared types. */
module TypeMapping {
  import opened Text
  import opened DbSchema

  /** The keyword written for a portable type; None where the source returns an error. */
  function SqliteTypeFor(t: Type): Option<string> {
    match t
    case Bool => Some("INTEGER")
    case Int => Some("INTEGER")
    case Float => Some("REAL")
    case String => Some("TEXT")
    case Bytes => Some("BLOB")
    case Time => Some("TEXT")
    case Decimal => Some("NUMERIC")
    case Null => None
    case Unknown => None
  }

  /** strings.TrimSpace on ASCII text. */
  predicate IsSpace(c: char) { c in {' ', '\t', '\n', '\r', 11 as char, 12 as char} }

  function TrimLeft(s: string): string {
    if s != "" && IsSpace(s[0]) then TrimLeft(s[1..]) else s
  }

  function TrimRight(s: string): string {
    if s != "" && IsSpace(s[|s| - 1]) then TrimRight(s[..|s| - 1]) else s
  }

  function TrimSpace(s: string): string { TrimRight(TrimLeft(s)) }

  // ---- (precision, scale) ----

  /** \s of the regular expression, which leaves out the vertical tab. */
  predicate IsBlank(c: char) { c in {' ', '\t', '\n', '\r', 12 as char} }

  predicate IsDigit(c: char) { '0' <= c <= '9' }

  function SkipBlanks(s: string): (r: string)
    ensures |r| <= |s|
  {
    if s != "" && IsBlank(s[0]) then SkipBlanks(s[1..]) else s
  }

  /** A maximal run of digits and what follows it. */
  function TakeDigits(s: string): (r: (string, string))
    ensures |r.1| <= |s|
  {
    if s != "" && IsDigit(s[0]) then var (d, rest) := TakeDigits(s[1..]); ([s[0]] + d, rest) else ("", s)
  }

  /** The suffix of numericPrecisionRe after the type name: the two runs of digits. */
  function MatchSuffix(s: string): Option<(string, string)> {
    var s1 := SkipBlanks(s);
    if s1 == "" || s1[0] != '(' then None else
    var (total, s2) := TakeDigits(SkipBlanks(s1[1..]));
    var s3 := SkipBlanks(s2);
    if total == "" || s3 == "" || s3[0] != ',' then None else
    var (scale, s4) := TakeDigits(SkipBlanks(s3[1..]));
    if scale == "" || SkipBlanks(s4) != ")" then None else Some((total, scale))
  }

  function MatchPrecision(upper: string): Option<(string, string)> {
    if "NUMERIC" <= upper || "DECIMAL" <= upper then MatchSuffix(upper[7..]) else None
  }

  function DecimalValue(digits: string): nat
    requires forall i | 0 <= i < |digits| :: IsDigit(digits[i])
  {
    if digits == "" then 0
    else
      var last := digits[|digits| - 1];
      assert IsDigit(last);
      DecimalValue(digits[..|digits| - 1]) * 10 + (last as int - '0' as int)
  }

  const MAX_INT := 0x7fff_ffff_ffff_ffff

  /** strconv.Atoi on digits: fails when the value is over the 64-bit range. */
  function Atoi(digits: string): Option<nat> {
    if (forall i | 0 <= i < |digits| :: IsDigit(digits[i])) && DecimalValue(digits) <= MAX_INT
    then Some(DecimalValue(digits)) else None
  }

  datatype Recognised = Recognised(typ: Type, precision: Option<Precision>, ok: bool)

  function BySubstring(upper: string): Recognised {
    if Contains(upper, "INT") then Recognised(Int, None, true)
    else if Contains(upper, "CHAR") || Contains(upper, "CLOB") || Contains(upper, "TEXT")
      then Recognised(String, None, true)
    else if Contains(upper, "BLOB") then Recognised(Bytes, None, true)
    else if Contains(upper, "REAL") || Contains(upper, "FLOA") || Contains(upper, "DOUB")
      then Recognised(Float, None, true)
    else if upper == "NUMERIC" || upper == "DECIMAL" then Recognised(Decimal, None, true)
    else Recognised(Null, None, false)
  }

  function RecogniseUpper(upper: string): Recognised {
    if upper == "DATETIME" || upper == "DATE" || upper == "TIME" || upper == "TIMESTAMP"
      then Recognised(Time, None, true)
    else if upper == "BOOLEAN" || upper == "BOOL" then Recognised(Bool, None, true)
    else
      match MatchPrecision(upper)
      case None => BySubstring(upper)
      case Some((total, scale)) =>
        match (Atoi(total), Atoi(scale))
        case (Some(t), Some(s)) => Recognised(Decimal, Some(Precision(t, s)), true)
        case _ => BySubstring(upper)
  }

  /** dbschemaTypeFromSQLite. */
  function DbschemaTypeFromSQLite(declared: string): Recognised {
    RecogniseUpper(Upper(TrimSpace(declared)))
  }

  // ---- Column affinity, section 3.1 of "Datatypes In SQLite" ----

  datatype Affinity = INTEGER | TEXT | BLOB | REAL | NUMERIC

  function AffinityOfUpper(u: string): Affinity {
    if Contains(u, "INT") then INTEGER
    else if Contains(u, "CHAR") || Contains(u, "CLOB") || Contains(u, "TEXT") then TEXT
    else if Contains(u, "BLOB") || u == "" then BLOB
    else if Contains(u, "REAL") || Contains(u, "FLOA") || Contains(u, "DOUB") then REAL
    else NUMERIC
  }

  function AffinityOf(declared: string): Affinity { AffinityOfUpper(Upper(declared)) }

  // ---- Recognition refines affinity ----

  lemma {:induction false} TrimLeftContains(s: string, p: string)
    requires p != "" && forall i | 0 <= i < |p| :: !IsSpace(p[i])
    ensures Contains(Upper(TrimLeft(s)), p) <==> Contains(Upper(s), p)
    decreases |s|
  {
    if s != "" && IsSpace(s[0]) {
      TrimLeftContains(s[1..], p);
      assert Upper(s) == "" + [s[0]] + Upper(s[1..]);
      ContainsSplit("", s[0], Upper(s[1..]), p);
      ShortLacks("", p);
    }
  }

  lemma {:induction false} TrimRightContains(s: string, p: string)
    requires p != "" && forall i | 0 <= i < |p| :: !IsSpace(p[i])
    ensures Contains(Upper(TrimRight(s)), p) <==> Contains(Upper(s), p)
    decreases |s|
  {
    if s != "" && IsSpace(s[|s| - 1]) {
      var n := |s| - 1;
      TrimRightContains(s[..n], p);
      assert Upper(s) == Upper(s[..n]) + [s[n]] + "";
      ContainsSplit(Upper(s[..n]), s[n], "", p);
      ShortLacks("", p);
    }
  }

  lemma TrimContains(s: string, p: string)
    requires p != "" && forall i | 0 <= i < |p| :: !IsSpace(p[i])
    ensures Contains(Upper(TrimSpace(s)), p) <==> Contains(Upper(s), p)
  {
    TrimLeftContains(s, p);
    TrimRightContains(TrimLeft(s), p);
  }

  /** No pattern the affinity rules look for occurs in u. */
  predicate Patternless(u: string) {
    && !Contains(u, "INT") && !Contains(u, "CHAR") && !Contains(u, "CLOB") && !Contains(u, "TEXT")
    && !Contains(u, "BLOB") && !Contains(u, "REAL") && !Contains(u, "FLOA") && !Contains(u, "DOUB")
  }

  lemma NotBlobInBool(u: string)
    requires u == "BOOLEAN" || u == "BOOL"
    ensures !Contains(u, "BLOB")
  {
    forall i | 0 <= i <= |u| ensures !OccursAt(u, "BLOB", i) {
      if OccursAt(u, "BLOB", i) {
        OccurrenceHolds(u, "BLOB", i, 0);
        OccurrenceHolds(u, "BLOB", i, 1);
      }
    }
  }

  lemma TimeWordsPatternless(u: string)
    requires u == "DATETIME" || u == "DATE" || u == "TIME" || u == "TIMESTAMP"
    ensures Patternless(u)
  {
    MissingCharLacks(u, "INT", 'N');
    MissingCharLacks(u, "CHAR", 'C');
    MissingCharLacks(u, "CLOB", 'C');
    MissingCharLacks(u, "TEXT", 'X');
    MissingCharLacks(u, "BLOB", 'B');
    MissingCharLacks(u, "REAL", 'R');
    MissingCharLacks(u, "FLOA", 'F');
    MissingCharLacks(u, "DOUB", 'U');
  }

  lemma BoolWordsPatternless(u: string)
    requires u == "BOOLEAN" || u == "BOOL"
    ensures Patternless(u)
  {
    MissingCharLacks(u, "INT", 'I');
    MissingCharLacks(u, "CHAR", 'C');
    MissingCharLacks(u, "CLOB", 'C');
    MissingCharLacks(u, "TEXT", 'X');
    NotBlobInBool(u);
    MissingCharLacks(u, "REAL", 'R');
    MissingCharLacks(u, "FLOA", 'F');
    MissingCharLacks(u, "DOUB", 'D');
  }

  /** Characters a matched suffix is made of. */
  predicate SuffixChar(c: char) { IsBlank(c) || IsDigit(c) || c == '(' || c == ')' || c == ',' }

  predicate AllSuffixChars(s: string) { forall i | 0 <= i < |s| :: SuffixChar(s[i]) }

  lemma {:induction false} SkipBlanksChars(s: string)
    ensures AllSuffixChars(SkipBlanks(s)) ==> AllSuffixChars(s)
    decreases |s|
  {
    if s != "" && IsBlank(s[0]) {
      SkipBlanksChars(s[1..]);
      assert s == [s[0]] + s[1..];
    }
  }

  lemma {:induction false} TakeDigitsChars(s: string)
    ensures AllSuffixChars(TakeDigits(s).1) ==> AllSuffixChars(s)
    decreases |s|
  {
    if s != "" && IsDigit(s[0]) {
      TakeDigitsChars(s[1..]);
      assert s == [s[0]] + s[1..];
    }
  }

  lemma ConsChars(s: string)
    requires s != "" && SuffixChar(s[0])
    ensures AllSuffixChars(s[1..]) ==> AllSuffixChars(s)
  {
    assert s == [s[0]] + s[1..];
  }

  lemma MatchSuffixChars(s: string)
    requires MatchSuffix(s).Some?
    ensures AllSuffixChars(s)
  {
    var s1 := SkipBlanks(s);
    SkipBlanksChars(s);
    ConsChars(s1);
    var t1 := SkipBlanks(s1[1..]);
    SkipBlanksChars(s1[1..]);
    TakeDigitsChars(t1);
    var s2 := TakeDigits(t1).1;
    var s3 := SkipBlanks(s2);
    SkipBlanksChars(s2);
    ConsChars(s3);
    var t2 := SkipBlanks(s3[1..]);
    SkipBlanksChars(s3[1..]);
    TakeDigitsChars(t2);
    var s4 := TakeDigits(t2).1;
    SkipBlanksChars(s4);
    assert AllSuffixChars(")");
  }

  lemma NotInSpelling(u: string, word: string, c: char)
    requires word <= u && AllSuffixChars(u[|word|..]) && c !in word && !SuffixChar(c)
    ensures c !in u
  {
    forall i | 0 <= i < |u| ensures u[i] != c {
      if i < |word| { assert u[i] == word[i]; } else { assert u[|word|..][i - |word|] == u[i]; }
    }
  }

  lemma NumericSpellingPatternless(u: string)
    requires "NUMERIC" <= u && AllSuffixChars(u[7..])
    ensures Patternless(u)
  {
    NotInSpelling(u, "NUMERIC", 'T'); MissingCharLacks(u, "INT", 'T'); MissingCharLacks(u, "TEXT", 'T');
    NotInSpelling(u, "NUMERIC", 'H'); MissingCharLacks(u, "CHAR", 'H');
    NotInSpelling(u, "NUMERIC", 'O'); MissingCharLacks(u, "CLOB", 'O'); MissingCharLacks(u, "DOUB", 'O');
    NotInSpelling(u, "NUMERIC", 'B'); MissingCharLacks(u, "BLOB", 'B');
    NotInSpelling(u, "NUMERIC", 'A'); MissingCharLacks(u, "REAL", 'A');
    NotInSpelling(u, "NUMERIC", 'F'); MissingCharLacks(u, "FLOA", 'F');
  }

  lemma DecimalSpellingPatternless(u: string)
    requires "DECIMAL" <= u && AllSuffixChars(u[7..])
    ensures Patternless(u)
  {
    NotInSpelling(u, "DECIMAL", 'T'); MissingCharLacks(u, "INT", 'T'); MissingCharLacks(u, "TEXT", 'T');
    NotInSpelling(u, "DECIMAL", 'H'); MissingCharLacks(u, "CHAR", 'H');
    NotInSpelling(u, "DECIMAL", 'O'); MissingCharLacks(u, "CLOB", 'O'); MissingCharLacks(u, "DOUB", 'O');
    NotInSpelling(u, "DECIMAL", 'B'); MissingCharLacks(u, "BLOB", 'B');
    NotInSpelling(u, "DECIMAL", 'R'); MissingCharLacks(u, "REAL", 'R');
    NotInSpelling(u, "DECIMAL", 'F'); MissingCharLacks(u, "FLOA", 'F');
  }

  lemma PrecisionPatternless(u: string)
    requires MatchPrecision(u).Some?
    ensures Patternless(u)
  {
    MatchSuffixChars(u[7..]);
    if "NUMERIC" <= u { NumericSpellingPatternless(u); } else { DecimalSpellingPatternless(u); }
  }

  lemma NumericWordsPatternless(u: string)
    requires u == "NUMERIC" || u == "DECIMAL"
    ensures Patternless(u)
  {
    assert u[7..] == "";
    if u == "NUMERIC" { NumericSpellingPatternless(u); } else { DecimalSpellingPatternless(u); }
  }

  predicate Agrees(r: Recognised, a: Affinity, noType: bool) {
    && (r.ok && r.typ == Int <==> a == INTEGER)
    && (r.ok && r.typ == String <==> a == TEXT)
    && (r.ok && r.typ == Float <==> a == REAL)
    && (r.ok && r.typ == Bytes <==> a == BLOB && !noType)
    && (r.ok && r.typ in {Decimal, Bool, Time} ==> a == NUMERIC)
    && (!r.ok <==> r.typ == Null)
    && (!r.ok ==> a == NUMERIC || noType)
    && (r.precision.Some? ==> r.typ == Decimal)
  }

  lemma UpperAgrees(u: string)
    ensures Agrees(RecogniseUpper(u), AffinityOfUpper(u), u == "")
  {
    if u == "DATETIME" || u == "DATE" || u == "TIME" || u == "TIMESTAMP" {
      TimeWordsPatternless(u);
    } else if u == "BOOLEAN" || u == "BOOL" {
      BoolWordsPatternless(u);
    } else {
      if MatchPrecision(u).Some? { PrecisionPatternless(u); }
      if u == "NUMERIC" || u == "DECIMAL" { NumericWordsPatternless(u); }
      if u == "" {
        ShortLacks(u, "INT"); ShortLacks(u, "CHAR"); ShortLacks(u, "CLOB"); ShortLacks(u, "TEXT"); ShortLacks(u,
          "BLOB");
        ShortLacks(u, "REAL"); ShortLacks(u, "FLOA"); ShortLacks(u, "DOUB");
      }
    }
  }

  /** For every declared type, recognition gives Int, String and Float exactly where SQLite
      gives INTEGER, TEXT and REAL affinity, Bytes exactly where a type is written and has
      BLOB affinity, and every other answer only under NUMERIC affinity. */
  lemma RecognitionRefinesAffinity(declared: string)
    ensures Agrees(DbschemaTypeFromSQLite(declared), AffinityOf(declared), TrimSpace(declared) == "")
  {
    var t := Upper(TrimSpace(declared));
    UpperAgrees(t);
    TrimContains(declared, "INT");
    TrimContains(declared, "CHAR");
    TrimContains(declared, "CLOB");
    TrimContains(declared, "TEXT");
    TrimContains(declared, "BLOB");
    TrimContains(declared, "REAL");
    TrimContains(declared, "FLOA");
    TrimContains(declared, "DOUB");
  }

  predicate IsEmitted(k: string) {
    k == "INTEGER" || k == "REAL" || k == "TEXT" || k == "BLOB" || k == "NUMERIC"
  }

  lemma EmittedIsKeyword(t: Type)
    ensures SqliteTypeFor(t).Some? ==> IsEmitted(SqliteTypeFor(t).value)
    ensures SqliteTypeFor(t).None? <==> t == Null || t == Unknown
  {
  }

  lemma EmittedUpper(k: string)
    requires IsEmitted(k)
    ensures Upper(TrimSpace(k)) == k && MatchPrecision(k).None?
  {
    assert TrimLeft(k) == k;
    assert TrimRight(k) == k;
    assert Upper(k) == k;
    if k == "NUMERIC" {
      assert k[7..] == "";
      assert SkipBlanks("") == "";
    } else {
      assert k[0] != 'N' && k[0] != 'D';
      assert "NUMERIC"[0] == 'N' && "DECIMAL"[0] == 'D';
    }
  }

  /** The type a keyword is recognised as. */
  function KeywordType(k: string): Type
    requires IsEmitted(k)
  {
    if k == "INTEGER" then Int else if k == "REAL" then Float else if k == "TEXT" then String
    else if k == "BLOB" then Bytes else Decimal
  }

  lemma EmittedRecognised(k: string)
    requires IsEmitted(k)
    ensures BySubstring(k) == Recognised(KeywordType(k), None, true)
  {
    if k == "INTEGER" {
      ContainsAt(k, "INT", 0);
    } else {
      if k == "NUMERIC" { MissingCharLacks(k, "INT", 'T'); } else { MissingCharLacks(k, "INT", 'I'); }
      if k == "TEXT" {
        ContainsAt(k, "TEXT", 0);
      } else {
        MissingCharLacks(k, "CHAR", 'H');
        MissingCharLacks(k, "TEXT", 'T');
        if k == "BLOB" { MissingCharLacks(k, "CLOB", 'C'); ContainsAt(k, "BLOB", 0); }
        else {
          MissingCharLacks(k, "CLOB", 'O');
          MissingCharLacks(k, "BLOB", 'B');
          if k == "REAL" { ContainsAt(k, "REAL", 0); } else { NumericWordsPatternless(k); }
        }
      }
    }
  }

  lemma NotAWord(k: string)
    requires IsEmitted(k)
    ensures k != "DATETIME" && k != "DATE" && k != "TIME" && k != "TIMESTAMP" && k != "BOOLEAN" && k != "BOOL"
  {
    if k == "TEXT" { assert k[1] == 'E' && "TIME"[1] == 'I'; }
    if k == "BLOB" { assert k[1] == 'L' && "BOOL"[1] == 'O'; }
  }

  lemma EmittedReads(k: string)
    requires IsEmitted(k)
    ensures DbschemaTypeFromSQLite(k) == Recognised(KeywordType(k), None, true)
  {
    EmittedUpper(k);
    NotAWord(k);
    EmittedRecognised(k);
  }

  /** Writing the type recognised from an emitted keyword writes the keyword again. */
  lemma KeywordFixedPoint(k: string)
    requires IsEmitted(k)
    ensures var r := DbschemaTypeFromSQLite(k); r.ok && r.precision == None && SqliteTypeFor(r.typ) == Some(k)
  {
    EmittedReads(k);
  }

  lemma KeywordTypes(t: Type)
    requires t != Null && t != Unknown
    ensures IsEmitted(SqliteTypeFor(t).value)
    ensures KeywordType(SqliteTypeFor(t).value) == if t == Bool then Int else if t == Time then String else t
  {
  }

  /** What a portable type becomes once written and recognised again: Bool reads back as
      Int, Time (whose marker is kept elsewhere) as String, the others as themselves. */
  lemma TypeReadsBack(t: Type)
    requires t != Null && t != Unknown
    ensures DbschemaTypeFromSQLite(SqliteTypeFor(t).value)
            == Recognised(if t == Bool then Int else if t == Time then String else t, None, true)
  {
    KeywordTypes(t);
    EmittedReads(SqliteTypeFor(t).value);
  }

  // ---- The (precision, scale) suffix ----

  predicate Blanks(s: string) { forall i | 0 <= i < |s| :: IsBlank(s[i]) }
  predicate Digits(s: string) { s != "" && forall i | 0 <= i < |s| :: IsDigit(s[i]) }

  lemma {:induction false} SkipBlanksText(w: string, rest: string)
    requires Blanks(w) && (rest == "" || !IsBlank(rest[0]))
    ensures SkipBlanks(w + rest) == rest
    decreases |w|
  {
    if w == "" {
      assert w + rest == rest;
    } else {
      assert (w + rest)[1..] == w[1..] + rest;
      SkipBlanksText(w[1..], rest);
    }
  }

  lemma {:induction false} TakeDigitsText(d: string, rest: string)
    requires (forall i | 0 <= i < |d| :: IsDigit(d[i])) && (rest == "" || !IsDigit(rest[0]))
    ensures TakeDigits(d + rest) == (d, rest)
    decreases |d|
  {
    if d == "" {
      assert d + rest == rest;
    } else {
      assert (d + rest)[1..] == d[1..] + rest;
      TakeDigitsText(d[1..], rest);
      assert d == [d[0]] + d[1..] && (d + rest)[0] == d[0];
    }
  }

  function SuffixSpelling(w: seq<string>, total: string, scale: string): string
    requires |w| == 5
  {
    w[0] + ("(" + (w[1] + (total + (w[2] + ("," + (w[3] + (scale + (w[4] + ")"))))))))
  }

  lemma SuffixMatches(w: seq<string>, total: string, scale: string)
    requires |w| == 5 && forall i | 0 <= i < 5 :: Blanks(w[i])
    requires Digits(total) && Digits(scale)
    ensures MatchSuffix(SuffixSpelling(w, total, scale)) == Some((total, scale))
  {
    var e := w[4] + ")";
    var d := w[3] + (scale + e);
    var c := w[2] + ("," + d);
    var b := w[1] + (total + c);
    SkipBlanksText(w[0], "(" + b);
    assert ("(" + b)[1..] == b;
    SkipBlanksText(w[1], total + c);
    assert (total + c)[0] == total[0];
    TakeDigitsText(total, c);
    SkipBlanksText(w[2], "," + d);
    assert ("," + d)[1..] == d;
    SkipBlanksText(w[3], scale + e);
    assert (scale + e)[0] == scale[0];
    TakeDigitsText(scale, e);
    SkipBlanksText(w[4], ")");
  }

  lemma SuffixReads(word: string, w: seq<string>, total: string, scale: string)
    requires word == "NUMERIC" || word == "DECIMAL"
    requires |w| == 5 && forall i | 0 <= i < 5 :: Blanks(w[i])
    requires Digits(total) && Digits(scale)
    ensures RecogniseUpper(word + SuffixSpelling(w, total, scale))
            == if DecimalValue(total) <= MAX_INT && DecimalValue(scale) <= MAX_INT
               then Recognised(Decimal, Some(Precision(DecimalValue(total), DecimalValue(scale))), true)
               else Recognised(Null, None, false)
  {
    var u := word + SuffixSpelling(w, total, scale);
    assert word <= u && u[7..] == SuffixSpelling(w, total, scale);
    assert MatchPrecision(u) == MatchSuffix(u[7..]);
    SuffixMatches(w, total, scale);
    assert u[|u| - 1] == ')' by {
      assert SuffixSpelling(w, total, scale)[|u| - 8] == ')';
    }
    assert u != "DATETIME" && u != "DATE" && u != "TIME" && u != "TIMESTAMP" && u != "BOOLEAN" && u != "BOOL";
    assert u != "NUMERIC" && u != "DECIMAL";
    PrecisionPatternless(u);
  }

  lemma SuffixSpellingUpper(w: seq<string>, total: string, scale: string)
    requires |w| == 5 && forall i | 0 <= i < 5 :: Blanks(w[i])
    requires Digits(total) && Digits(scale)
    ensures Upper(SuffixSpelling(w, total, scale)) == SuffixSpelling(w, total, scale)
  {
    SuffixMatches(w, total, scale);
    MatchSuffixChars(SuffixSpelling(w, total, scale));
  }

  lemma {:induction false} TrimLeftSpaces(w: string, s: string)
    requires (forall i | 0 <= i < |w| :: IsSpace(w[i])) && s != "" && !IsSpace(s[0])
    ensures TrimLeft(w + s) == s
    decreases |w|
  {
    if w == "" {
      assert w + s == s;
    } else {
      assert (w + s)[1..] == w[1..] + s;
      TrimLeftSpaces(w[1..], s);
    }
  }

  lemma {:induction false} TrimRightSpaces(s: string, w: string)
    requires (forall i | 0 <= i < |w| :: IsSpace(w[i])) && s != "" && !IsSpace(s[|s| - 1])
    ensures TrimRight(s + w) == s
    decreases |w|
  {
    if w == "" {
      assert s + w == s;
    } else {
      var n := |w| - 1;
      assert (s + w)[..|s + w| - 1] == s + w[..n];
      TrimRightSpaces(s, w[..n]);
    }
  }

  /** A NUMERIC or DECIMAL type in any letter case, between any spaces and with a (p,s) suffix in
      any blanks, carries exactly the two numbers written when both fit 64 bits, and is not
      recognised at all when one does not. */
  lemma PrecisionRead(left: string, word: string, w: seq<string>, total: string, scale: string, right: string)
    requires Upper(word) == "NUMERIC" || Upper(word) == "DECIMAL"
    requires forall i | 0 <= i < |left| :: IsSpace(left[i])
    requires forall i | 0 <= i < |right| :: IsSpace(right[i])
    requires |w| == 5 && forall i | 0 <= i < 5 :: Blanks(w[i])
    requires Digits(total) && Digits(scale)
    ensures DbschemaTypeFromSQLite(left + (word + SuffixSpelling(w, total, scale) + right))
            == if DecimalValue(total) <= MAX_INT && DecimalValue(scale) <= MAX_INT
               then Recognised(Decimal, Some(Precision(DecimalValue(total), DecimalValue(scale))), true)
               else Recognised(Null, None, false)
  {
    var suffix := SuffixSpelling(w, total, scale);
    var core := word + suffix;
    assert Upper(word)[0] == UpperChar(word[0]);
    assert suffix[|suffix| - 1] == ')' && core[|core| - 1] == ')';
    TrimLeftSpaces(left, core + right);
    TrimRightSpaces(core, right);
    FoldConcat(word, suffix);
    SuffixSpellingUpper(w, total, scale);
    SuffixReads(Upper(word), w, total, scale);
  }

  lemma {:induction false} SkipBlanksSplit(s: string) returns (w: string)
    ensures Blanks(w) && s == w + SkipBlanks(s)
    decreases |s|
  {
    if s != "" && IsBlank(s[0]) {
      var w' := SkipBlanksSplit(s[1..]);
      w := [s[0]] + w';
      assert SkipBlanks(s) == SkipBlanks(s[1..]);
      assert s == [s[0]] + s[1..] && w + SkipBlanks(s[1..]) == [s[0]] + (w' + SkipBlanks(s[1..]));
    } else {
      w := "";
    }
  }

  lemma {:induction false} TakeDigitsSplit(s: string)
    ensures var (d, rest) := TakeDigits(s); s == d + rest && forall i | 0 <= i < |d| :: IsDigit(d[i])
    decreases |s|
  {
    if s != "" && IsDigit(s[0]) {
      TakeDigitsSplit(s[1..]);
      assert s == [s[0]] + s[1..];
    }
  }

  /** What stands before a mark that was found. */
  lemma MarkSplit(s: string, mark: char) returns (w: string)
    requires SkipBlanks(s) != "" && SkipBlanks(s)[0] == mark
    ensures Blanks(w) && s == w + ([mark] + SkipBlanks(s)[1..])
  {
    w := SkipBlanksSplit(s);
    assert SkipBlanks(s) == [mark] + SkipBlanks(s)[1..];
  }

  /** What stands before and after a number that was found. */
  lemma NumberSplit(s: string) returns (w: string)
    ensures var (d, rest) := TakeDigits(SkipBlanks(s));
            Blanks(w) && s == w + (d + rest) && forall i | 0 <= i < |d| :: IsDigit(d[i])
  {
    w := SkipBlanksSplit(s);
    TakeDigitsSplit(SkipBlanks(s));
  }

  /** Only such spellings match: a matched suffix is one of them. */
  lemma MatchedIsSpelled(s: string) returns (w: seq<string>)
    requires MatchSuffix(s).Some?
    ensures |w| == 5 && forall i | 0 <= i < 5 :: Blanks(w[i])
    ensures var (total, scale) := MatchSuffix(s).value;
            Digits(total) && Digits(scale) && s == SuffixSpelling(w, total, scale)
  {
    var w0 := MarkSplit(s, '(');
    var t1 := SkipBlanks(s)[1..];
    var w1 := NumberSplit(t1);
    var (total, s2) := TakeDigits(SkipBlanks(t1));
    var w2 := MarkSplit(s2, ',');
    var t3 := SkipBlanks(s2)[1..];
    var w3 := NumberSplit(t3);
    var (scale, s4) := TakeDigits(SkipBlanks(t3));
    var w4 := SkipBlanksSplit(s4);
    w := [w0, w1, w2, w3, w4];
  }

  // ---- Which words give which type ----

  predicate Spaces(s: string) { forall i | 0 <= i < |s| :: IsSpace(s[i]) }

  /** The declared type is that word in some letter case, between any spaces. */
  ghost predicate Spells(declared: string, word: string) {
    exists left, mid, right ::
      declared == left + (mid + right) && Spaces(left) && Spaces(right) && Upper(mid) == word
  }

  /** Neither end is a space. */
  predicate Compact(word: string) { word != "" && !IsSpace(word[0]) && !IsSpace(word[|word| - 1]) }

  lemma {:induction false} TrimLeftSplit(s: string) returns (left: string)
    ensures Spaces(left) && s == left + TrimLeft(s)
    decreases |s|
  {
    left := "";
    if s != "" && IsSpace(s[0]) {
      var rest := TrimLeftSplit(s[1..]);
      left := [s[0]] + rest;
      assert s == [s[0]] + s[1..] && left + TrimLeft(s) == [s[0]] + (rest + TrimLeft(s[1..]));
    }
  }

  lemma {:induction false} TrimRightSplit(s: string) returns (right: string)
    ensures Spaces(right) && s == TrimRight(s) + right
    decreases |s|
  {
    right := "";
    if s != "" && IsSpace(s[|s| - 1]) {
      var n := |s| - 1;
      var rest := TrimRightSplit(s[..n]);
      right := rest + [s[n]];
      assert s == s[..n] + [s[n]] && TrimRight(s) + right == (TrimRight(s[..n]) + rest) + [s[n]];
    }
  }

  lemma UpperEnds(mid: string, word: string)
    requires Upper(mid) == word && Compact(word)
    ensures Compact(mid)
  {
    assert Upper(mid)[0] == UpperChar(mid[0]) && Upper(mid)[|mid| - 1] == UpperChar(mid[|mid| - 1]);
  }

  /** What is left when the spaces around it are taken away, in capitals, is the word it spells. */
  lemma SpellsIs(declared: string, word: string)
    requires Compact(word)
    ensures Spells(declared, word) <==> Upper(TrimSpace(declared)) == word
  {
    if Spells(declared, word) {
      var left, mid, right :|
        declared == left + (mid + right) && Spaces(left) && Spaces(right) && Upper(mid) == word;
      UpperEnds(mid, word);
      assert (mid + right)[0] == mid[0];
      TrimLeftSpaces(left, mid + right);
      TrimRightSpaces(mid, right);
    }
    if Upper(TrimSpace(declared)) == word {
      var left := TrimLeftSplit(declared);
      var right := TrimRightSplit(TrimLeft(declared));
      assert declared == left + (TrimSpace(declared) + right);
    }
  }

  ghost predicate TimeSpelled(declared: string) {
    || Spells(declared, "DATETIME") || Spells(declared, "DATE") || Spells(declared, "TIME")
    || Spells(declared, "TIMESTAMP")
  }

  ghost predicate BoolSpelled(declared: string) { Spells(declared, "BOOLEAN") || Spells(declared, "BOOL") }

  predicate NumericWord(word: string) { word == "NUMERIC" || word == "DECIMAL" }

  /** The word with a (total, scale) suffix, in any blanks, whose numbers fit 64 bits. */
  ghost predicate SuffixSpelled(declared: string, word: string, w: seq<string>, total: string, scale: string,
                                p: Precision) {
    && NumericWord(word) && |w| == 5 && (forall i | 0 <= i < 5 :: Blanks(w[i])) && Digits(total) && Digits(scale)
    && DecimalValue(total) <= MAX_INT && DecimalValue(scale) <= MAX_INT
    && p == Precision(DecimalValue(total), DecimalValue(scale))
    && Spells(declared, word + SuffixSpelling(w, total, scale))
  }

  /** A NUMERIC or DECIMAL, bare or with a suffix that fits. */
  ghost predicate DecimalSpelled(declared: string, p: Option<Precision>) {
    if p.None? then Spells(declared, "NUMERIC") || Spells(declared, "DECIMAL")
    else exists word, w, total, scale :: SuffixSpelled(declared, word, w, total, scale, p.value)
  }

  lemma WordsCompact()
    ensures Compact("DATETIME") && Compact("DATE") && Compact("TIME") && Compact("TIMESTAMP") && Compact("BOOLEAN")
            && Compact("BOOL") && Compact("NUMERIC") && Compact("DECIMAL")
  {
  }

  lemma SuffixCompact(word: string, w: seq<string>, total: string, scale: string)
    requires NumericWord(word) && |w| == 5
    ensures Compact(word + SuffixSpelling(w, total, scale))
  {
    var u := word + SuffixSpelling(w, total, scale);
    assert u[0] == word[0];
    assert SuffixSpelling(w, total, scale)[|u| - 8] == ')';
  }

  /** A spelled decimal is recognised with the precision its declaration writes. */
  lemma DecimalReads(declared: string, p: Option<Precision>)
    requires DecimalSpelled(declared, p)
    ensures DbschemaTypeFromSQLite(declared) == Recognised(Decimal, p, true)
  {
    WordsCompact();
    if p.None? {
      SpellsIs(declared, "NUMERIC");
      SpellsIs(declared, "DECIMAL");
      BareReads(Upper(TrimSpace(declared)));
    } else {
      var word, w, total, scale :| SuffixSpelled(declared, word, w, total, scale, p.value);
      SuffixCompact(word, w, total, scale);
      SpellsIs(declared, word + SuffixSpelling(w, total, scale));
      SuffixReads(word, w, total, scale);
    }
  }

  lemma BareReads(u: string)
    requires NumericWord(u)
    ensures RecogniseUpper(u) == Recognised(Decimal, None, true)
  {
    NumericWordsPatternless(u);
    assert u[7..] == "" && SkipBlanks("") == "";
    assert u != "DATETIME" && u != "DATE" && u != "TIME" && u != "TIMESTAMP" && u != "BOOLEAN" && u != "BOOL" by {
      assert u[1] == 'U' || u[1] == 'E';
    }
  }

  /** And only a spelled decimal is. */
  lemma DecimalIsSpelled(declared: string)
    requires var r := DbschemaTypeFromSQLite(declared); r.ok && r.typ == Decimal
    ensures DecimalSpelled(declared, DbschemaTypeFromSQLite(declared).precision)
  {
    var u, r := Upper(TrimSpace(declared)), DbschemaTypeFromSQLite(declared);
    WordsCompact();
    SpellsIs(declared, "NUMERIC");
    SpellsIs(declared, "DECIMAL");
    if r.precision.Some? {
      var word, w, total, scale := PrecisionIsSpelled(u);
      SuffixCompact(word, w, total, scale);
      SpellsIs(declared, word + SuffixSpelling(w, total, scale));
      assert SuffixSpelled(declared, word, w, total, scale, r.precision.value);
    } else {
      NoPrecisionIsBare(u);
    }
  }

  lemma NoPrecisionIsBare(u: string)
    requires RecogniseUpper(u) == Recognised(Decimal, None, true)
    ensures NumericWord(u)
  {
  }

  lemma PrecisionIsSpelled(u: string) returns (word: string, w: seq<string>, total: string, scale: string)
    requires RecogniseUpper(u).precision.Some?
    ensures NumericWord(word) && |w| == 5 && (forall i | 0 <= i < 5 :: Blanks(w[i])) && Digits(total) && Digits(scale)
    ensures DecimalValue(total) <= MAX_INT && DecimalValue(scale) <= MAX_INT
    ensures RecogniseUpper(u).precision.value == Precision(DecimalValue(total), DecimalValue(scale))
    ensures u == word + SuffixSpelling(w, total, scale)
  {
    total, scale := MatchPrecision(u).value.0, MatchPrecision(u).value.1;
    word := u[..7];
    w := MatchedIsSpelled(u[7..]);
    assert u == u[..7] + u[7..];
  }

  /** For every declared type, in any letter case and between any spaces: a Time is exactly one of
      the four words, a Bool exactly one of the two, a Decimal exactly NUMERIC or DECIMAL, bare or
      with a suffix that fits, and carries the precision written; and what is not recognised is
      exactly what is none of these and holds no pattern of another affinity. */
  lemma WordLaw(declared: string)
    ensures var r := DbschemaTypeFromSQLite(declared);
            && (r.ok && r.typ == Time <==> TimeSpelled(declared))
            && (r.ok && r.typ == Bool <==> BoolSpelled(declared))
            && (forall p :: r == Recognised(Decimal, p, true) <==> DecimalSpelled(declared, p))
            && (r.ok && r.typ == Decimal ==> DecimalSpelled(declared, r.precision))
            && (!r.ok <==> !TimeSpelled(declared) && !BoolSpelled(declared) && Patternless(Upper(declared))
                           && forall p :: !DecimalSpelled(declared, p))
  {
    WordsCompact();
    SpellsIs(declared, "DATETIME");
    SpellsIs(declared, "DATE");
    SpellsIs(declared, "TIME");
    SpellsIs(declared, "TIMESTAMP");
    SpellsIs(declared, "BOOLEAN");
    SpellsIs(declared, "BOOL");
    forall p ensures DbschemaTypeFromSQLite(declared) == Recognised(Decimal, p, true) <==> DecimalSpelled(declared, p) {
      if DecimalSpelled(declared, p) { DecimalReads(declared, p); }
      if DbschemaTypeFromSQLite(declared) == Recognised(Decimal, p, true) { DecimalIsSpelled(declared); }
    }
    if DbschemaTypeFromSQLite(declared).typ == Decimal && DbschemaTypeFromSQLite(declared).ok {
      DecimalIsSpelled(declared);
    }
    TrimPatternless(declared);
    UnrecognisedHasNone(Upper(TrimSpace(declared)));
  }

  lemma TrimPatternless(declared: string)
    ensures Patternless(Upper(TrimSpace(declared))) <==> Patternless(Upper(declared))
  {
    TrimContains(declared, "INT");
    TrimContains(declared, "CHAR");
    TrimContains(declared, "CLOB");
    TrimContains(declared, "TEXT");
    TrimContains(declared, "BLOB");
    TrimContains(declared, "REAL");
    TrimContains(declared, "FLOA");
    TrimContains(declared, "DOUB");
  }

  lemma UnrecognisedHasNone(u: string)
    ensures !RecogniseUpper(u).ok ==> Patternless(u)
    ensures RecogniseUpper(u).ok && Patternless(u) ==> RecogniseUpper(u).typ in {Time, Bool, Decimal}
  {
  }
}
