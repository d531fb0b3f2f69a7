/** The normalised schema: columns, tables keyed by column name, stored procedures,
    and the schema that holds them. */
module SchemaModel {
  import opened Wrappers
  import opened Dicts

  /** One column of a table or view, after normalisation. `sqlType` is the bare type
      name (no parenthesised suffix); `length` is 0 when the type carries none;
      `nullable`, `key`, `defaultValue` and `extra` are the raw indicators (absent when
      the provider gave none); `index` is the position in the provider's listing. */
  datatype Column = Column(
    field: string,
    sqlType: string,
    length: nat,
    nullable: Option<string>,
    key: Option<string>,
    defaultValue: Option<string>,
    extra: Option<string>,
    isPrimary: bool,
    index: nat,
    enumValues: Option<seq<string>>)

  /** Column name to column, in declaration order. */
  type Table = Dict<Column>

  /** Every table of the dictionary is itself a well-formed dictionary. */
  predicate ValidTables(tables: Dict<Table>) {
    Valid(tables) && forall name :: name in tables.vals ==> Valid(tables.vals[name])
  }

  /** One stored-procedure parameter, with its keys already camel-cased. */
  datatype Parameter = Parameter(
    specificName: string,
    parameterName: string,
    parameterMode: string,
    ordinalPosition: int,
    dataType: string)

  datatype StoredProcedure = StoredProcedure(name: string, parameters: Dict<Parameter>)

  datatype Schema = Schema(
    tables: Dict<Table>,
    views: Dict<Table>,
    storedProcedures: Dict<StoredProcedure>)
}
