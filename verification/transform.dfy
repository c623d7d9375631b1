/** The transform stage: date columns are parsed, then every absent cell
    becomes zero. */
module Transformer {
  import opened Wrappers
  import opened Text
  import opened Errors
  import opened Tables

  /** Date parsing of one value (pandas `to_datetime`), a partial function. */
  type DateParser = string -> Option<Timestamp>

  const DateMarker: string := "date"

  /** A column is date-typed when its lower-cased name contains "date". */
  predicate IsDateColumn(name: string) {
    Contains(Lower(name), DateMarker)
  }

  /** The column rule ignores case: a name is a date column exactly when some
      four consecutive characters spell "date" in any mix of cases. */
  lemma IsDateColumnIgnoresCase(name: string)
    ensures IsDateColumn(name) <==> ContainsIgnoringCase(name, DateMarker)
  {
    assert LowerLetters(DateMarker);
    ContainsLowerIgnoresCase(name, DateMarker);
  }

  /** The positions of the date columns, in header order. */
  function DateColumns(header: seq<string>): (cols: seq<nat>)
    ensures forall k :: 0 <= k < |cols| ==> cols[k] < |header| && IsDateColumn(header[cols[k]])
    ensures forall i :: 0 <= i < |header| && IsDateColumn(header[i]) ==> i in cols
    ensures forall k, l :: 0 <= k < l < |cols| ==> cols[k] < cols[l]
    decreases |header|
  {
    if |header| == 0 then []
    else
      var last := |header| - 1;
      DateColumns(header[..last]) + (if IsDateColumn(header[last]) then [last] else [])
  }

  /** The names the source collects as date columns are exactly the header
      names that contain "date" once lower-cased. */
  lemma DateColumnNamesExact(header: seq<string>)
    ensures var cols := DateColumns(header);
      (set k | 0 <= k < |cols| :: header[cols[k]]) == (set c | c in header && IsDateColumn(c))
  {
  }

  /** `to_datetime` accepts this cell: it is absent, or it is a value that
      parses. */
  predicate CellParses(c: Cell, parse: DateParser) {
    c.Text? ==> parse(c.raw).Some?
  }

  /** `to_datetime` on one accepted cell: an absent value stays absent, a
      present value becomes its parsed date. */
  function ToDate(c: Cell, parse: DateParser): Cell {
    if c.Text? && parse(c.raw).Some? then Date(parse(c.raw).value) else c
  }

  /** Column `i` of every row is present and still as read. */
  predicate RawColumn(rows: seq<Row>, i: nat) {
    forall j :: 0 <= j < |rows| ==> i < |rows[j]| && IsRawCell(rows[j][i])
  }

  /** Every cell of column `i` is accepted by `to_datetime`. */
  predicate ColumnParses(rows: seq<Row>, i: nat, parse: DateParser) {
    forall j :: 0 <= j < |rows| ==> i < |rows[j]| && CellParses(rows[j][i], parse)
  }

  /** `df[col] = pd.to_datetime(df[col])`: the whole column is converted, or
      nothing is. */
  function ParseColumn(rows: seq<Row>, i: nat, parse: DateParser): (r: Option<seq<Row>>)
    requires RawColumn(rows, i)
    ensures r.Some? <==> ColumnParses(rows, i, parse)
    ensures r.Some? ==> |r.value| == |rows|
    ensures r.Some? ==> forall j :: 0 <= j < |rows| ==> r.value[j] == rows[j][i := ToDate(rows[j][i], parse)]
  {
    if forall j :: 0 <= j < |rows| ==> CellParses(rows[j][i], parse) then
      Some(seq(|rows|, j requires 0 <= j < |rows| => rows[j][i := ToDate(rows[j][i], parse)]))
    else None
  }

  /** Converting one column leaves every other column as it was. */
  lemma ParseColumnKeepsOthers(rows: seq<Row>, c: nat, parse: DateParser, parsed: seq<Row>, others: seq<nat>)
    requires RawColumn(rows, c) && ParseColumn(rows, c, parse) == Some(parsed)
    requires forall k :: 0 <= k < |others| ==> others[k] != c && RawColumn(rows, others[k])
    ensures forall k :: 0 <= k < |others| ==>
      && RawColumn(parsed, others[k])
      && (ColumnParses(parsed, others[k], parse) <==> ColumnParses(rows, others[k], parse))
  {
  }

  /** The cells after converting the first date column and then the rest are
      the cells with every listed column converted. */
  lemma ParseDatesStep(rows: seq<Row>, cols: seq<nat>, parse: DateParser, parsed: seq<Row>, rest: seq<Row>)
    requires |cols| > 0 && RawColumn(rows, cols[0]) && ParseColumn(rows, cols[0], parse) == Some(parsed)
    requires forall k, l :: 0 <= k < l < |cols| ==> cols[k] < cols[l]
    requires |rest| == |parsed|
    requires forall j :: 0 <= j < |parsed| ==> |rest[j]| == |parsed[j]|
    requires forall j, i :: 0 <= j < |parsed| && 0 <= i < |parsed[j]| ==>
      rest[j][i] == (if i in cols[1..] then ToDate(parsed[j][i], parse) else parsed[j][i])
    ensures forall j :: 0 <= j < |rows| ==> |rest[j]| == |rows[j]|
    ensures forall j, i :: 0 <= j < |rows| && 0 <= i < |rows[j]| ==>
      rest[j][i] == (if i in cols then ToDate(rows[j][i], parse) else rows[j][i])
  {
    var c := cols[0];
    forall j | 0 <= j < |rows|
      ensures |rest[j]| == |rows[j]|
    {
      assert parsed[j] == rows[j][c := ToDate(rows[j][c], parse)];
    }
    forall j, i | 0 <= j < |rows| && 0 <= i < |rows[j]|
      ensures rest[j][i] == (if i in cols then ToDate(rows[j][i], parse) else rows[j][i])
    {
      assert parsed[j] == rows[j][c := ToDate(rows[j][c], parse)];
      if i == c {
        assert i !in cols[1..] by {
          forall k | 0 <= k < |cols[1..]| ensures cols[1..][k] != c {
            assert cols[1..][k] == cols[k + 1];
          }
        }
      } else {
        assert i in cols[1..] <==> i in cols by {
          assert cols == [c] + cols[1..];
        }
      }
    }
  }

  /** A failure of the loop over the remaining columns, after the first column
      converted, is a failure of the whole loop at the next position. */
  lemma FailureAfterFirstColumn(header: seq<string>, rows: seq<Row>, parsed: seq<Row>, cols: seq<nat>, parse: DateParser, e: Error)
    requires |cols| > 0 && ColumnParses(rows, cols[0], parse)
    requires forall k :: 0 <= k < |cols| ==> cols[k] < |header|
    requires forall k :: 0 <= k < |cols[1..]| ==>
      (ColumnParses(parsed, cols[1..][k], parse) <==> ColumnParses(rows, cols[1..][k], parse))
    requires exists k ::
      && 0 <= k < |cols[1..]|
      && e == MalformedDate(header[cols[1..][k]])
      && !ColumnParses(parsed, cols[1..][k], parse)
      && forall l :: 0 <= l < k ==> ColumnParses(parsed, cols[1..][l], parse)
    ensures exists k ::
      && 0 <= k < |cols|
      && e == MalformedDate(header[cols[k]])
      && !ColumnParses(rows, cols[k], parse)
      && forall l :: 0 <= l < k ==> ColumnParses(rows, cols[l], parse)
  {
    var k :| && 0 <= k < |cols[1..]|
      && e == MalformedDate(header[cols[1..][k]])
      && !ColumnParses(parsed, cols[1..][k], parse)
      && forall l :: 0 <= l < k ==> ColumnParses(parsed, cols[1..][l], parse);
    assert cols[1..][k] == cols[k + 1];
    forall l | 0 <= l < k + 1
      ensures ColumnParses(rows, cols[l], parse)
    {
      if l > 0 {
        assert cols[1..][l - 1] == cols[l];
      }
    }
  }

  /** The loop over the date columns, in order; the first column holding a
      value that does not parse aborts the stage. */
  function ParseDates(header: seq<string>, rows: seq<Row>, cols: seq<nat>, parse: DateParser): (r: Result<seq<Row>, Error>)
    requires forall k :: 0 <= k < |cols| ==> cols[k] < |header| && RawColumn(rows, cols[k])
    requires forall k, l :: 0 <= k < l < |cols| ==> cols[k] < cols[l]
    ensures r.Success? <==> forall k :: 0 <= k < |cols| ==> ColumnParses(rows, cols[k], parse)
    ensures r.Success? ==> |r.value| == |rows|
    ensures r.Success? ==> forall j :: 0 <= j < |rows| ==> |r.value[j]| == |rows[j]|
    ensures r.Success? ==> forall j, i :: 0 <= j < |rows| && 0 <= i < |rows[j]| ==>
      r.value[j][i] == (if i in cols then ToDate(rows[j][i], parse) else rows[j][i])
    ensures r.Failure? ==> exists k ::
      && 0 <= k < |cols|
      && r.error == MalformedDate(header[cols[k]])
      && !ColumnParses(rows, cols[k], parse)
      && forall l :: 0 <= l < k ==> ColumnParses(rows, cols[l], parse)
    decreases |cols|
  {
    if |cols| == 0 then Success(rows)
    else match ParseColumn(rows, cols[0], parse)
      case None => Failure(MalformedDate(header[cols[0]]))
      case Some(parsed) =>
        ParseColumnKeepsOthers(rows, cols[0], parse, parsed, cols[1..]);
        var rest := ParseDates(header, parsed, cols[1..], parse);
        if rest.Success? then
          ParseDatesStep(rows, cols, parse, parsed, rest.value);
          rest
        else
          FailureAfterFirstColumn(header, rows, parsed, cols, parse, rest.error);
          rest
  }

  /** `df.fillna(0)` on one cell. */
  function FillMissing(c: Cell): Cell {
    if c.Missing? then Zero else c
  }

  /** `df.fillna(0)` on every cell of every row. */
  function FillAll(rows: seq<Row>): (r: seq<Row>)
    ensures |r| == |rows|
    ensures forall j :: 0 <= j < |rows| ==> |r[j]| == |rows[j]|
    ensures forall j, i :: 0 <= j < |rows| && 0 <= i < |rows[j]| ==> r[j][i] == FillMissing(rows[j][i])
  {
    seq(|rows|, j requires 0 <= j < |rows| => seq(|rows[j]|, i requires 0 <= i < |rows[j]| => FillMissing(rows[j][i])))
  }

  /** Every present value in column `i` parses as a date. */
  predicate ColumnDatesParse(t: Table, i: nat, parse: DateParser) {
    forall j :: 0 <= j < |t.rows| && i < |t.rows[j]| && t.rows[j][i].Text? ==> parse(t.rows[j][i].raw).Some?
  }

  /** Every present value in every date column parses. */
  predicate DatesParse(t: Table, parse: DateParser) {
    forall i :: 0 <= i < |t.header| && IsDateColumn(t.header[i]) ==> ColumnDatesParse(t, i, parse)
  }

  /** The reference meaning of the transform, one cell at a time: an absent
      cell becomes zero whatever its column, a present value in a date column
      becomes its parsed date, and every other value is kept. */
  function Normalized(isDate: bool, c: Cell, parse: DateParser): (r: Cell)
    requires IsRawCell(c)
    requires isDate && c.Text? ==> parse(c.raw).Some?
    ensures !r.Missing?
  {
    if c.Missing? then Zero
    else if isDate then Date(parse(c.raw).value)
    else c
  }

  /** The date columns of a table as read are in range and still as read. */
  lemma DateColumnsRaw(t: Frame, cols: seq<nat>)
    requires cols == DateColumns(t.header)
    ensures forall k :: 0 <= k < |cols| ==> cols[k] < |t.header| && RawColumn(t.rows, cols[k])
  {
  }

  /** The column loop succeeds exactly when every date column parses. */
  lemma ParseDatesSucceedsIff(t: Frame, cols: seq<nat>, parse: DateParser)
    requires cols == DateColumns(t.header)
    requires forall k :: 0 <= k < |cols| ==> cols[k] < |t.header| && RawColumn(t.rows, cols[k])
    ensures (forall k :: 0 <= k < |cols| ==> ColumnParses(t.rows, cols[k], parse)) <==> DatesParse(t, parse)
  {
  }

  /** When the column loop stops at position `k`, the column it names is the
      first date column, in header order, whose values do not all parse. */
  lemma ParseDatesStopsAtFirstBad(t: Frame, cols: seq<nat>, k: nat, parse: DateParser)
    requires cols == DateColumns(t.header)
    requires k < |cols| && !ColumnParses(t.rows, cols[k], parse)
    requires forall l :: 0 <= l < k ==> ColumnParses(t.rows, cols[l], parse)
    ensures cols[k] < |t.header| && IsDateColumn(t.header[cols[k]])
    ensures !ColumnDatesParse(t, cols[k], parse)
    ensures forall i' :: 0 <= i' < cols[k] && IsDateColumn(t.header[i']) ==> ColumnDatesParse(t, i', parse)
  {
  }

  /** A failure of the column loop names the first bad date column. */
  lemma ParseDatesFailure(t: Frame, cols: seq<nat>, parse: DateParser)
    requires cols == DateColumns(t.header)
    requires forall k :: 0 <= k < |cols| ==> cols[k] < |t.header| && RawColumn(t.rows, cols[k])
    ensures ParseDates(t.header, t.rows, cols, parse).Failure? ==> exists i ::
      && 0 <= i < |t.header|
      && IsDateColumn(t.header[i])
      && ParseDates(t.header, t.rows, cols, parse).error == MalformedDate(t.header[i])
      && !ColumnDatesParse(t, i, parse)
      && forall i' :: 0 <= i' < i && IsDateColumn(t.header[i']) ==> ColumnDatesParse(t, i', parse)
  {
    var r := ParseDates(t.header, t.rows, cols, parse);
    if r.Failure? {
      var k :| 0 <= k < |cols| && r.error == MalformedDate(t.header[cols[k]])
      && !ColumnParses(t.rows, cols[k], parse)
        && forall l :: 0 <= l < k ==> ColumnParses(t.rows, cols[l], parse);
      ParseDatesStopsAtFirstBad(t, cols, k, parse);
      var i := cols[k];
      assert 0 <= i < |t.header| && IsDateColumn(t.header[i]) && r.error == MalformedDate(t.header[i]);
    }
  }

  /** Converting exactly the date columns and then filling the absent cells
      gives every cell its reference meaning. */
  lemma NormalizedCells(t: Frame, cols: seq<nat>, rows: seq<Row>, parse: DateParser)
    requires forall i :: 0 <= i < |t.header| ==> (i in cols <==> IsDateColumn(t.header[i]))
    requires DatesParse(t, parse)
    requires |rows| == |t.rows|
    requires forall j :: 0 <= j < |rows| ==> |rows[j]| == |t.rows[j]|
    requires forall j, i :: 0 <= j < |t.rows| && 0 <= i < |t.rows[j]| ==>
      rows[j][i] == (if i in cols then ToDate(t.rows[j][i], parse) else t.rows[j][i])
    ensures forall j, i :: 0 <= j < |t.rows| && 0 <= i < |t.header| ==>
      FillAll(rows)[j][i] == Normalized(IsDateColumn(t.header[i]), t.rows[j][i], parse)
  {
  }

  /** The transform of a table read from the extracted text. */
  function Transform(t: Frame, parse: DateParser): (r: Result<Table, Error>)
    ensures r.Success? <==> DatesParse(t, parse)
    ensures r.Success? ==> r.value.header == t.header && |r.value.rows| == |t.rows| && Rectangular(r.value)
    ensures r.Success? ==> forall j, i :: 0 <= j < |t.rows| && 0 <= i < |t.header| ==>
      r.value.rows[j][i] == Normalized(IsDateColumn(t.header[i]), t.rows[j][i], parse)
    ensures r.Failure? ==> exists i ::
      && 0 <= i < |t.header|
      && IsDateColumn(t.header[i])
      && r.error == MalformedDate(t.header[i])
      && !ColumnDatesParse(t, i, parse)
      && forall i' :: 0 <= i' < i && IsDateColumn(t.header[i']) ==> ColumnDatesParse(t, i', parse)
  {
    var cols := DateColumns(t.header);
    DateColumnsRaw(t, cols);
    ParseDatesSucceedsIff(t, cols, parse);
    match ParseDates(t.header, t.rows, cols, parse)
    case Failure(e) =>
      ParseDatesFailure(t, cols, parse);
      Failure(e)
    case Success(rows) =>
      NormalizedCells(t, cols, rows, parse);
      Success(Table(t.header, FillAll(rows)))
  }
}
