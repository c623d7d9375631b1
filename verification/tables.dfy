/** The in-memory table the transform stage works on: a header and rows of cells. */
module Tables {

  /** A parsed point in time; its representation is opaque to the pipeline. */
  datatype Timestamp = Timestamp(nanos: int)

  /** One cell: absent (NaN), a value as read from the extracted text, a parsed
      date, or the zero written over an absent value. */
  datatype Cell = Missing | Text(raw: string) | Date(at: Timestamp) | Zero

  type Row = seq<Cell>

  datatype Table = Table(header: seq<string>, rows: seq<Row>)

  /** Every row has one cell per header column. */
  predicate Rectangular(t: Table) {
    forall j :: 0 <= j < |t.rows| ==> |t.rows[j]| == |t.header|
  }

  /** A cell as it comes out of the delimited-text reader. */
  predicate IsRawCell(c: Cell) {
    c.Missing? || c.Text?
  }

  /** A table as it comes out of the delimited-text reader. */
  predicate IsRaw(t: Table) {
    && Rectangular(t)
    && forall j, i :: 0 <= j < |t.rows| && 0 <= i < |t.rows[j]| ==> IsRawCell(t.rows[j][i])
  }

  /** The table the reader hands to the transform stage. */
  type Frame = t: Table | IsRaw(t) witness Table([], [])
}
