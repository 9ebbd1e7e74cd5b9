/** What the model needs of SQLite and rusqlite: dynamically typed values, a row
    read by column name, a table keyed by its primary key, the error kinds that
    reach the core, and rusqlite's `FromSql` conversions for the column types the
    core reads. */
module Sql {
  import opened Wrappers
  import opened Ints

  datatype Value =
    | Null
    | Integer(i: Int64)
    | Real(r: real)
    | Text(s: string)
    | Blob(bytes: seq<bv8>)

  /** One result row: column name to value. */
  type Row = map<string, Value>

  /** The rows of a table, by primary key. */
  type Table = map<string, Row>

  datatype Error =
    | InvalidColumnName(column: string)
    | InvalidColumnType(column: string)
    | InvalidFunctionParameterType(index: nat)
    | NoSuchTable(table: string)
    | UniqueViolation(key: string)
    | TableExists(table: string)
    | CannotOpen
    | NotADatabase
    | QueryReturnedNoRows

  /** An error as reported to the user: the underlying error and the `eyre` context
      message attached where it was caught. */
  datatype Failure = Failure(context: string, cause: Error)

  /** An open database: its `packages` table, or `None` when the file has none. */
  datatype Db = Db(packages: Option<Table>)

  /** The value bound for an `Option<String>` parameter. */
  function OptText(o: Option<string>): Value {
    match o
    case Some(s) => Text(s)
    case None => Null
  }

  /** `row.get::<_, String>(column)`: only TEXT converts. */
  function GetText(row: Row, column: string): Result<string, Error> {
    if column !in row then Err(InvalidColumnName(column))
    else match row[column]
      case Text(s) => Ok(s)
      case _ => Err(InvalidColumnType(column))
  }

  /** `row.get::<_, Option<String>>(column)`: NULL is `None`, TEXT is `Some`. */
  function GetOptText(row: Row, column: string): Result<Option<string>, Error> {
    if column !in row then Err(InvalidColumnName(column))
    else match row[column]
      case Null => Ok(None)
      case Text(s) => Ok(Some(s))
      case _ => Err(InvalidColumnType(column))
  }

  /** `row.get::<_, Option<i64>>(column)`: NULL is `None`, INTEGER is `Some`. */
  function GetOptInt(row: Row, column: string): Result<Option<Int64>, Error> {
    if column !in row then Err(InvalidColumnName(column))
    else match row[column]
      case Null => Ok(None)
      case Integer(i) => Ok(Some(i))
      case _ => Err(InvalidColumnType(column))
  }
}
