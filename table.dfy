/**
 * The in-memory table the converter works on: an ordered list of column
 * labels and an ordered list of rows. A cell is text as read from the CSV,
 * a number, or missing (pandas' NaN).
 */
module Table {

  datatype Cell = Text(s: string) | Number(v: real) | Missing

  type Row = seq<Cell>

  datatype Frame = Frame(columns: seq<string>, rows: seq<Row>)

  /** Every row has one cell per column. */
  predicate WellFormed(df: Frame)
  {
    forall i :: 0 <= i < |df.rows| ==> |df.rows[i]| == |df.columns|
  }
}
