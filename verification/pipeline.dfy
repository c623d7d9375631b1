/** The orchestration: request validation, then extract, transform and load in
    that order, the first failure aborting the run. */
module Pipeline {
  import opened Wrappers
  import opened Text
  import opened Errors
  import opened Tables
  import opened Effects
  import opened QueryCatalog
  import opened AmcClient
  import opened Transformer
  import opened WarehouseLoader

  /** The body of a run request; every field may be absent. */
  datatype Request = Request(queryName: Option<string>, startDate: Option<string>, endDate: Option<string>)

  /** Everything a run depends on besides the request: the query store, the
      AMC service, the delimited-text reader, the date parser, the warehouse
      and the clock reading used for the result's timestamp. */
  datatype Environment = Environment(
    catalog: Catalog,
    amc: Amc,
    readCsv: string -> Option<Frame>,
    parseDate: DateParser,
    warehouse: Warehouse,
    now: string)

  const StatusSuccess: string := "success"

  /** The summary of a completed run. */
  datatype PipelineResult = PipelineResult(
    status: string,
    recordsProcessed: nat,
    timestamp: string,
    queryName: string,
    loadDetails: LoadOutcome)

  /** The first two stages: extraction, then reading and transforming the
      extracted text. */
  function ExtractAndTransform(name: string, start: Option<string>, end: Option<string>, env: Environment): (r: Run<Table>)
    ensures r.calls == Extract(env.catalog, name, start, end, env.amc).calls
    ensures !TouchesWarehouse(r.calls)
    ensures r.result.Success? <==>
      && Extract(env.catalog, name, start, end, env.amc).result.Success?
      && env.readCsv(Extract(env.catalog, name, start, end, env.amc).result.value).Some?
      && DatesParse(env.readCsv(Extract(env.catalog, name, start, end, env.amc).result.value).value, env.parseDate)
    ensures r.result.Success? ==>
      var frame := env.readCsv(Extract(env.catalog, name, start, end, env.amc).result.value).value;
      && r.result.value.header == frame.header && |r.result.value.rows| == |frame.rows|
      && Transform(frame, env.parseDate).Success?
      && r.result.value == Transform(frame, env.parseDate).value
    ensures var x := Extract(env.catalog, name, start, end, env.amc);
      x.result.Failure? ==> r.result == Failure(x.result.error)
    ensures var x := Extract(env.catalog, name, start, end, env.amc);
      x.result.Success? && env.readCsv(x.result.value).None? ==> r.result == Failure(MalformedCsv)
    ensures var x := Extract(env.catalog, name, start, end, env.amc);
      x.result.Success? && env.readCsv(x.result.value).Some?
      && Transform(env.readCsv(x.result.value).value, env.parseDate).Failure?
      ==> r.result == Failure(Transform(env.readCsv(x.result.value).value, env.parseDate).error)
  {
    var extracted := Extract(env.catalog, name, start, end, env.amc);
    match extracted.result
    case Failure(e) => Run(Failure(e), extracted.calls)
    case Success(text) =>
      match env.readCsv(text)
      case None => Run(Failure(MalformedCsv), extracted.calls)
      case Some(frame) =>
        match Transform(frame, env.parseDate)
        case Failure(e) => Run(Failure(e), extracted.calls)
        case Success(table) => Run(Success(table), extracted.calls)
  }

  /** A run for a non-empty query name: the three stages in order, and on
      success a summary whose record count is the transformed row count. */
  function ExecuteEtl(name: string, start: Option<string>, end: Option<string>, env: Environment): (r: Run<PipelineResult>)
    ensures name !in env.catalog ==> r == Run(Failure(UnknownQuery(name)), [])
    ensures TouchesWarehouse(r.calls) <==> ExtractAndTransform(name, start, end, env).result.Success?
    ensures forall a, b :: 0 <= a < b < |r.calls| && IsWarehouseCall(r.calls[a]) ==> IsWarehouseCall(r.calls[b])
    ensures r.result.Success? ==>
      && |r.calls| == 5
      && r.calls[3].WriteTable?
      && r.calls[3].tableName == name
      && r.result.value.recordsProcessed == |r.calls[3].table.rows|
      && r.calls[3].table == ExtractAndTransform(name, start, end, env).result.value
    ensures r.result.Success? ==>
      && r.result.value.status == StatusSuccess
      && r.result.value.queryName == name
      && r.result.value.timestamp == env.now
    ensures var staged := ExtractAndTransform(name, start, end, env);
      r.result.Success? <==>
        staged.result.Success? && Load(staged.result.value, name, env.warehouse).result.Success?
    ensures var staged := ExtractAndTransform(name, start, end, env);
      r.result.Success? ==>
        && staged.result.Success?
        && Load(staged.result.value, name, env.warehouse).result.Success?
        && r.result.value.loadDetails == Load(staged.result.value, name, env.warehouse).result.value
    ensures var staged := ExtractAndTransform(name, start, end, env);
      staged.result.Success? && Load(staged.result.value, name, env.warehouse).result.Failure?
      ==> r.result == Failure(Load(staged.result.value, name, env.warehouse).result.error)
    ensures var staged := ExtractAndTransform(name, start, end, env);
      staged.result.Failure? ==> r == Run(Failure(staged.result.error), staged.calls)
    ensures var staged := ExtractAndTransform(name, start, end, env);
      staged.result.Success? ==> r.calls == staged.calls + Load(staged.result.value, name, env.warehouse).calls
  {
    var staged := ExtractAndTransform(name, start, end, env);
    match staged.result
    case Failure(e) => Run(Failure(e), staged.calls)
    case Success(table) =>
      var loaded := Load(table, name, env.warehouse);
      var calls := staged.calls + loaded.calls;
      assert calls[|staged.calls|] == loaded.calls[0];
      match loaded.result
      case Failure(e) => Run(Failure(e), calls)
      case Success(details) =>
        Run(Success(PipelineResult(StatusSuccess, |table.rows|, env.now, name, details)), calls)
  }

  /** The request handler: a missing or empty query name is rejected before
      anything else happens. */
  function RunEtl(request: Request, env: Environment): (r: Run<PipelineResult>)
    ensures !Supplied(request.queryName) ==> r == Run(Failure(InvalidRequest), [])
    ensures Supplied(request.queryName) && request.queryName.value !in env.catalog
      ==> r == Run(Failure(UnknownQuery(request.queryName.value)), [])
    ensures r.result.Success? ==> Supplied(request.queryName) && r.result.value.queryName == request.queryName.value
    ensures Supplied(request.queryName)
      ==> r == ExecuteEtl(request.queryName.value, request.startDate, request.endDate, env)
  {
    if !Supplied(request.queryName) then Run(Failure(InvalidRequest), [])
    else ExecuteEtl(request.queryName.value, request.startDate, request.endDate, env)
  }

  /** The record count comes from the transformed table: two warehouses that
      report different loaded-row counts yield the same record count. */
  lemma RecordsIgnoreRowsLoaded(name: string, start: Option<string>, end: Option<string>, env: Environment, other: Warehouse)
    requires ExecuteEtl(name, start, end, env).result.Success?
    requires ExecuteEtl(name, start, end, env.(warehouse := other)).result.Success?
    ensures ExecuteEtl(name, start, end, env).result.value.recordsProcessed
         == ExecuteEtl(name, start, end, env.(warehouse := other)).result.value.recordsProcessed
         == |ExtractAndTransform(name, start, end, env).result.value.rows|
  {
  }

  /** A failed extraction ends the run with the extraction's error, after the
      extraction's own calls and before any warehouse call. */
  lemma ExtractionFailureStopsRun(name: string, start: Option<string>, end: Option<string>, env: Environment)
    requires Extract(env.catalog, name, start, end, env.amc).result.Failure?
    ensures ExecuteEtl(name, start, end, env)
         == Run(Failure(Extract(env.catalog, name, start, end, env.amc).result.error),
                Extract(env.catalog, name, start, end, env.amc).calls)
    ensures !TouchesWarehouse(ExecuteEtl(name, start, end, env).calls)
  {
  }

  /** A value that does not parse in a date column of the extracted table
      fails the run with a date error, and the warehouse is never reached. */
  lemma BadDateNeverLoads(name: string, start: Option<string>, end: Option<string>, env: Environment, i: nat, j: nat)
    requires Extract(env.catalog, name, start, end, env.amc).result.Success?
    requires env.readCsv(Extract(env.catalog, name, start, end, env.amc).result.value).Some?
    requires var frame := env.readCsv(Extract(env.catalog, name, start, end, env.amc).result.value).value;
      && i < |frame.header| && IsDateColumn(frame.header[i])
      && j < |frame.rows| && frame.rows[j][i].Text?
      && env.parseDate(frame.rows[j][i].raw).None?
    ensures ExecuteEtl(name, start, end, env).result.Failure?
    ensures ExecuteEtl(name, start, end, env).result.error.MalformedDate?
    ensures !TouchesWarehouse(ExecuteEtl(name, start, end, env).calls)
  {
  }

  /** A run completes exactly when every stage does: the query is known, the
      token exchange and the query call succeed, the reply reads as a table whose
      date columns parse, and the warehouse write succeeds. The table written
      is then the transform of that reply, and the summary counts its rows and
      carries the loader's report. */
  lemma RunCompletesIffEveryStageDoes(name: string, start: Option<string>, end: Option<string>, env: Environment)
    ensures var x := Extract(env.catalog, name, start, end, env.amc);
      ExecuteEtl(name, start, end, env).result.Success? <==>
        && name in env.catalog
        && RequestToken(env.amc).result.Success?
        && x.result.Success?
        && env.readCsv(x.result.value).Some?
        && Transform(env.readCsv(x.result.value).value, env.parseDate).Success?
        && Load(Transform(env.readCsv(x.result.value).value, env.parseDate).value, name, env.warehouse).result.Success?
    ensures var x := Extract(env.catalog, name, start, end, env.amc);
      var r := ExecuteEtl(name, start, end, env);
      r.result.Success? ==>
        && x.result.Success? && env.readCsv(x.result.value).Some?
        && Transform(env.readCsv(x.result.value).value, env.parseDate).Success?
        && var table := Transform(env.readCsv(x.result.value).value, env.parseDate).value;
        && r.calls[3] == WriteTable(name, table)
        && r.result.value.recordsProcessed == |table.rows|
        && Load(table, name, env.warehouse).result.Success?
        && r.result.value.loadDetails == Load(table, name, env.warehouse).result.value
  {
  }
}
