/** The statements the generator emits, and the one text each of them is written as. */
module SqlText {
  import opened Text

  /** What follows a column's type: nothing, NOT NULL, or the inline key clauses. */
  datatype Suffix = Plain | NotNull | RowidKey | AutoRowidKey

  datatype ColumnDecl = ColumnDecl(name: string, decl: string, suffix: Suffix)

  datatype Statement =
    | CreateTable(ifNotExists: bool, name: string, decls: seq<ColumnDecl>, key: seq<string>)
    | CreateIndex(unique: bool, ifNotExists: bool, name: string, table: string, cols: seq<string>)
    | DropTable(ifExists: bool, name: string)
    | DropIndex(ifExists: bool, name: string)
    | AddColumn(table: string, col: ColumnDecl)
    | DropColumn(table: string, name: string)
    | RenameColumn(table: string, oldName: string, newName: string)
    | RenameTable(table: string, newName: string)
    | CopyRows(target: string, into: seq<string>, cols: seq<string>, source: string)

  /** strings.ReplaceAll(name, `"`, `""`). */
  function DoubleQuotes(name: string): string {
    if name == "" then ""
    else (if name[0] == '"' then "\"\"" else [name[0]]) + DoubleQuotes(name[1..])
  }

  /** quoteIdentifier. */
  function QuoteIdentifier(name: string): string {
    "\"" + DoubleQuotes(name) + "\""
  }

  function Quoted(names: seq<string>): (r: seq<string>)
    ensures |r| == |names|
  {
    seq(|names|, i requires 0 <= i < |names| => QuoteIdentifier(names[i]))
  }

  function SuffixText(s: Suffix): string {
    match s
    case Plain => ""
    case NotNull => " NOT NULL"
    case RowidKey => " PRIMARY KEY"
    case AutoRowidKey => " PRIMARY KEY AUTOINCREMENT"
  }

  function ColumnText(c: ColumnDecl): string {
    QuoteIdentifier(c.name) + (" " + (c.decl + SuffixText(c.suffix)))
  }

  function KeyText(key: seq<string>): string {
    "PRIMARY KEY (" + (Join(Quoted(key), ", ") + ")")
  }

  function BodyParts(cols: seq<ColumnDecl>, key: seq<string>): (r: seq<string>)
  {
    seq(|cols|, i requires 0 <= i < |cols| => ColumnText(cols[i])) + (if key == [] then [] else [KeyText(key)])
  }

  function Flag(present: bool, literal: string): string {
    if present then literal else ""
  }

  function StatementText(s: Statement): string {
    match s
    case CreateTable(ine, name, decls, key) =>
      "CREATE TABLE " + (Flag(ine, "IF NOT EXISTS ") + (QuoteIdentifier(name)
      + (" (" + (Join(BodyParts(decls, key), ", ") + ")"))))
    case CreateIndex(unique, ine, name, table, cols) =>
      (if unique then "CREATE UNIQUE INDEX " else "CREATE INDEX ") + (Flag(ine, "IF NOT EXISTS ")
      + (QuoteIdentifier(name) + (" ON " + (QuoteIdentifier(table) + (" (" + (Join(Quoted(cols), ", ") + ")"))))))
    case DropTable(ie, name) =>
      "DROP TABLE " + (Flag(ie, "IF EXISTS ") + QuoteIdentifier(name))
    case DropIndex(ie, name) =>
      "DROP INDEX " + (Flag(ie, "IF EXISTS ") + QuoteIdentifier(name))
    case AddColumn(table, col) =>
      "ALTER TABLE " + (QuoteIdentifier(table) + (" ADD COLUMN " + ColumnText(col)))
    case DropColumn(table, name) =>
      "ALTER TABLE " + (QuoteIdentifier(table) + (" DROP COLUMN " + QuoteIdentifier(name)))
    case RenameColumn(table, oldName, newName) =>
      "ALTER TABLE " + (QuoteIdentifier(table) + (" RENAME COLUMN " + (QuoteIdentifier(oldName)
      + (" TO " + QuoteIdentifier(newName)))))
    case RenameTable(table, newName) =>
      "ALTER TABLE " + (QuoteIdentifier(table) + (" RENAME TO " + QuoteIdentifier(newName)))
    case CopyRows(target, into, cols, source) =>
      "INSERT INTO " + (QuoteIdentifier(target) + (" (" + (Join(Quoted(into), ", ") + (")" + (" SELECT "
      + (Join(Quoted(cols), ", ") + (" FROM " + QuoteIdentifier(source))))))))
  }
}
