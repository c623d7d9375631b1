/** The outside world as the pipeline sees it: every request it sends to AMC or
    to the warehouse is recorded, in order, next to the stage's result. */
module Effects {
  import opened Wrappers
  import opened Errors
  import opened Tables

  datatype Call =
    | AuthRequest(url: string)                          // token exchange with AMC
    | QueryRequest(url: string, token: string, sql: string)  // query execution on AMC
    | Connect(established: bool)                        // opening a warehouse connection
    | WriteTable(tableName: string, table: Table)       // bulk write with table auto-creation
    | Close                                             // closing the warehouse connection

  /** What a stage computed, and the external calls it made on the way. */
  datatype Run<+T> = Run(result: Result<T, Error>, calls: seq<Call>)

  /** A call to the warehouse rather than to AMC. */
  predicate IsWarehouseCall(c: Call) {
    c.Connect? || c.WriteTable? || c.Close?
  }

  /** Some call in the trace reaches the warehouse. */
  predicate TouchesWarehouse(calls: seq<Call>) {
    exists k :: 0 <= k < |calls| && IsWarehouseCall(calls[k])
  }

  /** Some call in the trace reaches AMC. */
  predicate TouchesAmc(calls: seq<Call>) {
    exists k :: 0 <= k < |calls| && (calls[k].AuthRequest? || calls[k].QueryRequest?)
  }
}
