/** The tabular data the script works on: a pandas data frame read from an
    uploaded spreadsheet, seen as an ordered list of rows, each row a mapping
    from column name to cell. */
module Frame {

  datatype Option<T> = None | Some(value: T)

  datatype Result<T, E> = Success(value: T) | Failure(error: E)

  /** One spreadsheet cell as pandas holds it after reading the file.
      `Blank` is an empty cell, which pandas reads as NaN. */
  datatype Cell = Int(i: int) | Float(x: real) | Text(s: string) | Blank

  type Row = map<string, Cell>

  /** A data frame: its column labels in order, and its rows in order.
      Row position is the only identity a row has. */
  datatype Table = Table(columns: seq<string>, rows: seq<Row>)

  /** The cell of `row` under `column`; a cell the row lacks reads as NaN. */
  function Get(row: Row, column: string): Cell
  {
    if column in row then row[column] else Blank
  }

  /** The number a cell compares as, or None for NaN (every comparison with
      NaN is false) and for text (which cannot be compared with a number). */
  function Numeric(c: Cell): (v: Option<real>)
    ensures v.Some? <==> c.Int? || c.Float?
    ensures c.Int? ==> v == Some(c.i as real)
    ensures c.Float? ==> v == Some(c.x)
  {
    match c
    case Int(i) => Some(i as real)
    case Float(x) => Some(x)
    case _ => None
  }

  /** True when some row holds text under `column`: comparing such a column
      with a number raises a type error in pandas. */
  function ColumnHasText(rows: seq<Row>, column: string): (raises: bool)
    ensures !raises ==> forall k :: 0 <= k < |rows| ==>
      Numeric(Get(rows[k], column)).Some? || Get(rows[k], column).Blank?
    ensures raises ==>
      exists k :: 0 <= k < |rows| && Numeric(Get(rows[k], column)).None? && !Get(rows[k], column).Blank?
  {
    exists k :: 0 <= k < |rows| && Get(rows[k], column).Text?
  }

  /** The column labels after `df[name] = ...`: an existing column keeps its
      place, a new one is appended at the end. */
  function WithColumn(columns: seq<string>, name: string): (r: seq<string>)
    ensures name in r
    ensures |columns| <= |r| <= |columns| + 1 && r[..|columns|] == columns
    ensures forall c :: c in r ==> c in columns || c == name
    ensures name in columns <==> r == columns
  {
    if name in columns then columns else columns + [name]
  }
}
