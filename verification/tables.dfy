/** The response table: one row per respondent, one column per question or
    metadata field, each cell a string or missing (pandas' NaN/None). */
module Tables {
  import opened Strings

  datatype Cell = Missing | Str(value: string)

  /** A row maps column names to cells. */
  type Row = map<string, Cell>

  datatype Table = Table(columns: seq<string>, rows: seq<Row>)

  function ColumnSet(columns: seq<string>): set<string> {
    set c | c in columns
  }

  /** Every row has exactly the table's columns. */
  predicate WellFormed(t: Table) {
    forall i :: 0 <= i < |t.rows| ==> t.rows[i].Keys == ColumnSet(t.columns)
  }

  /** pandas' `frame[name]`: the cells of one column, top to bottom. */
  function Column(t: Table, name: string): (col: seq<Cell>)
    requires WellFormed(t) && name in t.columns
    ensures |col| == |t.rows|
    ensures forall i :: 0 <= i < |col| ==> col[i] == t.rows[i][name]
  {
    seq(|t.rows|, i requires 0 <= i < |t.rows| => t.rows[i][name])
  }

  /** `astype(str)`: a missing cell becomes the text "nan". */
  function CellText(c: Cell): string {
    match c
    case Missing => "nan"
    case Str(v) => v
  }

  /** `dropna().astype(str).str.strip()` applied cell-wise: the stripped text
      of each present cell (missing cells map to "" and are masked out by
      `PresentMask`). */
  function TrimmedValues(col: seq<Cell>): (vs: seq<string>)
    ensures |vs| == |col|
    ensures forall i :: 0 <= i < |col| && col[i].Str? ==> vs[i] == Trim(col[i].value)
  {
    seq(|col|, i requires 0 <= i < |col| => if col[i].Str? then Trim(col[i].value) else "")
  }

  /** `notna()`: which cells are present. */
  function PresentMask(col: seq<Cell>): (m: seq<bool>)
    ensures |m| == |col|
    ensures forall i :: 0 <= i < |col| ==> (m[i] <==> col[i].Str?)
  {
    seq(|col|, i requires 0 <= i < |col| => col[i].Str?)
  }
}
