/** The extraction side of the pipeline: the AMC token exchange and the query
    call, both behind HTTP exchanges supplied as functions. */
module AmcClient {
  import opened Wrappers
  import opened Text
  import opened Errors
  import opened Effects
  import opened QueryCatalog

  /** The marker that ends the base of the configured AMC endpoint. */
  const ApiMarker: string := "/api"
  /** The path of the token endpoint under that base. */
  const AuthPath: string := "/auth/token"
  /** The only HTTP status the pipeline accepts. */
  const StatusOk: int := 200

  datatype Response = Response(status: int, body: string)

  /** The AMC service as configured: the endpoint (absent when the environment
      does not set it), the token exchange, the reading of `access_token` out of
      the token response, and the query call (endpoint, bearer token, SQL). */
  datatype Amc = Amc(
    endpoint: Option<string>,
    postToken: string -> Response,
    accessToken: string -> Option<string>,
    postQuery: (string, string, string) -> Response)

  /** The token URL: the endpoint up to its first "/api" (all of it when there
      is none) followed by "/auth/token". */
  function AuthUrl(endpoint: string): (url: string)
    ensures |url| >= |AuthPath| && url[|url| - |AuthPath|..] == AuthPath
    ensures var base := url[..|url| - |AuthPath|];
      && base <= endpoint
      && (forall j: nat :: j < |base| ==> !OccursAt(endpoint, ApiMarker, j))
      && (base == endpoint || OccursAt(endpoint, ApiMarker, |base|))
  {
    Split(endpoint, ApiMarker)[0] + AuthPath
  }

  /** The token exchange: one request to the token URL; a status other than
      200 is an authentication failure. */
  function RequestToken(amc: Amc): (r: Run<string>)
    ensures amc.endpoint.None? ==> r == Run(Failure(MissingEndpoint), [])
    ensures amc.endpoint.Some? ==> r.calls == [AuthRequest(AuthUrl(amc.endpoint.value))]
    ensures r.result.Success? <==>
      && amc.endpoint.Some?
      && amc.postToken(AuthUrl(amc.endpoint.value)).status == StatusOk
      && amc.accessToken(amc.postToken(AuthUrl(amc.endpoint.value)).body).Some?
    ensures amc.endpoint.Some? && amc.postToken(AuthUrl(amc.endpoint.value)).status != StatusOk
      ==> r.result == Failure(AuthFailure)
    ensures amc.endpoint.Some? && amc.postToken(AuthUrl(amc.endpoint.value)).status == StatusOk
      && amc.accessToken(amc.postToken(AuthUrl(amc.endpoint.value)).body).None?
      ==> r.result == Failure(MalformedAuthResponse)
    ensures r.result.Success? ==>
      r.result.value == amc.accessToken(amc.postToken(AuthUrl(amc.endpoint.value)).body).value
  {
    match amc.endpoint
    case None => Run(Failure(MissingEndpoint), [])
    case Some(endpoint) =>
      var url := AuthUrl(endpoint);
      var response := amc.postToken(url);
      if response.status != StatusOk then Run(Failure(AuthFailure), [AuthRequest(url)])
      else match amc.accessToken(response.body)
        case None => Run(Failure(MalformedAuthResponse), [AuthRequest(url)])
        case Some(token) => Run(Success(token), [AuthRequest(url)])
  }

  /** Extraction: resolve the query, obtain a token, send the resolved SQL, and
      hand back the response text. */
  function Extract(catalog: Catalog, name: string, start: Option<string>, end: Option<string>, amc: Amc): (r: Run<string>)
    ensures name !in catalog ==> r == Run(Failure(UnknownQuery(name)), [])
    ensures name in catalog && amc.endpoint.Some?
      ==> |r.calls| >= 1 && r.calls[0] == AuthRequest(AuthUrl(amc.endpoint.value))
    ensures |r.calls| <= 2 && !TouchesWarehouse(r.calls)
    ensures name in catalog ==> (|r.calls| == 2 <==> RequestToken(amc).result.Success?)
    ensures name in catalog && RequestToken(amc).result.Failure? ==> r == RequestToken(amc)
    ensures |r.calls| == 2 ==>
      && name in catalog && amc.endpoint.Some?
      && r.calls[1].QueryRequest?
      && r.calls[1].url == amc.endpoint.value
      && r.calls[1].sql == Substitute(catalog[name].sql, start, end)
    ensures |r.calls| == 2 ==>
      RequestToken(amc).result.Success? && r.calls[1].token == RequestToken(amc).result.value
    ensures r.result.Success? <==>
      |r.calls| == 2 && amc.postQuery(r.calls[1].url, r.calls[1].token, r.calls[1].sql).status == StatusOk
    ensures r.result.Success? ==>
      r.result.value == amc.postQuery(r.calls[1].url, r.calls[1].token, r.calls[1].sql).body
    ensures r.result.Failure? && |r.calls| == 2 ==>
      r.result.error == ExtractionFailure(amc.postQuery(r.calls[1].url, r.calls[1].token, r.calls[1].sql).body)
  {
    match Resolve(catalog, name, start, end)
    case Failure(e) => Run(Failure(e), [])
    case Success(sql) =>
      var auth := RequestToken(amc);
      match auth.result
      case Failure(e) => Run(Failure(e), auth.calls)
      case Success(token) =>
        var url := amc.endpoint.value;
        var response := amc.postQuery(url, token, sql);
        var calls := auth.calls + [QueryRequest(url, token, sql)];
        if response.status != StatusOk then Run(Failure(ExtractionFailure(response.body)), calls)
        else Run(Success(response.body), calls)
  }
}
