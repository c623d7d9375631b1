/** The load stage: one connection to the warehouse and one bulk write into the
    table named after the query. */
module WarehouseLoader {
  import opened Wrappers
  import opened Errors
  import opened Tables
  import opened Effects

  /** What the bulk write reports: its success flag, chunk count and row count. */
  datatype WriteReport = WriteReport(success: bool, chunks: nat, rows: nat)

  /** The load details handed back to the caller. */
  datatype LoadOutcome = LoadOutcome(success: bool, chunksProcessed: nat, rowsLoaded: nat)

  /** The warehouse as configured: the message of the error raised on
      connecting, if one is, and the bulk write (which creates the table when
      it is absent) as a function of the table and the target name. */
  datatype Warehouse = Warehouse(
    connectError: Option<string>,
    writePandas: (Table, string) -> Result<WriteReport, string>)

  /** Connect, write, close. The connection is closed only after a successful
      write; an error raised by the write leaves it open. */
  function Load(t: Table, tableName: string, wh: Warehouse): (r: Run<LoadOutcome>)
    ensures !TouchesAmc(r.calls)
    ensures wh.connectError.Some? ==> r == Run(Failure(LoadFailure(wh.connectError.value)), [Connect(false)])
    ensures wh.connectError.None? ==> |r.calls| >= 2 && r.calls[0] == Connect(true) && r.calls[1] == WriteTable(tableName, t)
    ensures r.result.Success? <==> wh.connectError.None? && wh.writePandas(t, tableName).Success?
    ensures r.result.Success? ==>
      && r.calls == [Connect(true), WriteTable(tableName, t), Close]
      && var report := wh.writePandas(t, tableName).value;
      r.result.value == LoadOutcome(report.success, report.chunks, report.rows)
    ensures r.result.Failure? ==> r.result.error.LoadFailure? && Close !in r.calls
    ensures wh.connectError.None? && wh.writePandas(t, tableName).Failure? ==>
      r == Run(Failure(LoadFailure(wh.writePandas(t, tableName).error)), [Connect(true), WriteTable(tableName, t)])
  {
    match wh.connectError
    case Some(message) => Run(Failure(LoadFailure(message)), [Connect(false)])
    case None =>
      var connected := [Connect(true), WriteTable(tableName, t)];
      match wh.writePandas(t, tableName)
      case Failure(message) => Run(Failure(LoadFailure(message)), connected)
      case Success(report) =>
        Run(Success(LoadOutcome(report.success, report.chunks, report.rows)), connected + [Close])
  }
}
