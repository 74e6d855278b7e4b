/** The portable schema vocabulary (package dbschema and the ddl options). */
module DbSchema {
  import opened Text

  datatype Type = Null | Bool | Int | Float | String | Bytes | Time | Decimal | Unknown

  datatype Precision = Precision(total: nat, scale: nat)

  datatype FieldDef = FieldDef(
    name: string, typ: Type, precision: Option<Precision>, nullable: bool, autoIncrement: bool)

  datatype IndexDef = IndexDef(name: string, collection: string, fields: seq<string>, unique: bool)

  datatype CollectionDef = CollectionDef(
    name: string, fields: seq<FieldDef>, primaryKey: seq<string>, indexes: seq<IndexDef>)

  datatype Options = Options(ifNotExists: bool, ifExists: bool)

  const NO_OPTIONS := Options(false, false)

  /** The six operations AlterCollection accepts. */
  datatype AlterOp =
    | AddField(field: FieldDef)
    | DropField(name: string)
    | RenameField(oldName: string, newName: string)
    | ModifyField(name: string, newDef: FieldDef)
    | AddIndex(index: IndexDef, opts: Options)
    | RemoveIndex(name: string, opts: Options)
}
