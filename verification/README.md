# AMC-to-Snowflake ETL: a Dafny model of the pipeline core

The repository is a small Flask service. One HTTP trigger runs a three-stage ETL job:

1. **Extract.** Look up a named SQL template in the query catalog and splice in the optional
   start and end dates. Then obtain a token from Amazon Marketing Cloud (AMC) and post the
   resolved SQL to AMC. The reply is delimited text.
2. **Transform.** Read that text into a table. Convert every column whose lower-cased name
   contains `date` into dates. Then replace every absent cell with zero.
3. **Load.** Open a Snowflake connection and bulk-write the table into a table named after
   the query.

The run returns a summary whose `records_processed` is the transformed row count.

The model keeps this decision logic as pure functions over immutable data:

| module | file | what it holds |
|---|---|---|
| `Wrappers` | wrappers.dfy | `Option` and `Result` |
| `Text` | text.dfy | `in`, `find`, `split`, `join`, `replace` and `lower` with Python's semantics, plus their lemmas |
| `Errors` | errors.dfy | one error value per exception the pipeline can raise |
| `Tables` | tables.dfy | cells (`Missing`, `Text`, `Date`, `Zero`), tables, and the tables the reader produces |
| `Effects` | effects.dfy | the trace of external calls (token request, query request, connect, write, close) |
| `QueryCatalog` | catalog.dfy | catalog lookup and placeholder substitution |
| `AmcClient` | amc.dfy | token URL derivation, token exchange, extraction |
| `Transformer` | transform.dfy | date-column selection, column-wise date parsing, zero filling |
| `WarehouseLoader` | warehouse.dfy | connect, write, close |
| `Pipeline` | pipeline.dfy | request validation and the stage sequence |

Every external exchange is a value or a function value held in a service record (`Amc`, `Warehouse`,
`Environment`). Every stage returns a `Run`: its `Result` together with the calls it made, in
order. "No network call is made" and "the warehouse is never reached" are therefore statements
about that trace.

## Model

| member | source | states |
|---|---|---|
| Text.IndexOf | app.py:146 | The result is the first index at which the marker occurs. It is absent exactly when the marker occurs nowhere. |
| Text.Split | app.py:146 | `split` is undone by `join`: joining the pieces with the separator gives back the string. No piece contains the separator. |
| Text.ReplaceWithoutOccurrence | app.py:110-113 | `replace` leaves a string without the pattern unchanged. |
| Text.ReplaceAllIsJoinOfSplit | app.py:110-113 | `s.replace(p, v) == v.join(s.split(p))`. The text kept between replacements is exactly the pieces of the template between occurrences of the placeholder. |
| Text.ReplaceBySelfIsIdentity | app.py:110-113 | Replacing a placeholder by itself gives back the template. |
| Text.ReplaceRemovesPattern | app.py:110-113 | A non-empty replacement that shares no character with the pattern leaves no occurrence of the pattern. |
| Text.ReplaceKeepsAbsence | app.py:112-113 | Such a replacement cannot create an occurrence of another pattern that was absent before. |
| QueryCatalog.Resolve | app.py:104-113 | Resolution fails exactly when the name is not in the catalog, and the error names the query. With neither date supplied, the result is the stored SQL verbatim. An empty date counts as not supplied. |
| QueryCatalog.Substitute | app.py:109-113 | With no truthy date, the SQL is untouched. |
| QueryCatalog.ResolveStartOnly | app.py:110-111 | With only a start date, the result is the template's placeholder-free pieces joined by the start date. |
| QueryCatalog.ResolveEndOnly | app.py:112-113 | With only an end date, the result is the template's pieces between `{{end_date}}` occurrences joined by the end date. |
| QueryCatalog.ResolveBothDates | app.py:109-113 | With both dates, the result is the template's pieces between `{{start_date}}` occurrences joined by the start date, then that text's pieces between `{{end_date}}` occurrences joined by the end date. |
| QueryCatalog.ResolveLeavesNoStartPlaceholder | app.py:110-113 | A start date made of digits and dashes leaves no `{{start_date}}` in the resolved SQL, even after the end-date step. |
| QueryCatalog.ResolveLeavesNoEndPlaceholder | app.py:112-113 | An end date made of digits and dashes leaves no `{{end_date}}`, whatever the start date was. |
| QueryCatalog.EndValueCanRebuildEndPlaceholder | app.py:112-113 | The end step does not always remove `{{end_date}}`. The end value `d_date}}` turns the template `{{en{{end_date}}` into `{{end_date}}`. |
| QueryCatalog.StartValueRewrittenByEndStep | app.py:110-113 | In the template `{{start_date}}`, the start step runs first, so a start value that reads `{{end_date}}` is rewritten by the end step. For general templates see `QueryCatalog.ResolveBothDates`. |
| QueryCatalog.ResolveRangeTemplate | app.py:109-113 | A template with one `{{start_date}}` followed by one `{{end_date}}`, with no opening brace in the surrounding text or in the start date, resolves to the template with the two dates in place of the placeholders. |
| QueryCatalog.CampaignPerfScenario | app.py:104-113 | An example request: `campaign_perf` holding `SELECT * FROM t WHERE d BETWEEN {{start_date}} AND {{end_date}}`, requested with both dates, resolves to `SELECT * FROM t WHERE d BETWEEN 2024-01-01 AND 2024-01-31`. |
| AmcClient.AuthUrl | app.py:146 | The token URL is the endpoint's prefix before its first `/api` (the whole endpoint when there is none), followed by `/auth/token`. |
| AmcClient.RequestToken | app.py:139-159 | Exactly one request goes to the derived token URL. The exchange succeeds exactly when the status is 200 and the body holds an access token, and the token returned is that `access_token`. Any other status is an authentication failure. A 200 reply without a token is a malformed auth response. An unset endpoint fails before any call. |
| AmcClient.Extract | app.py:84-137 | An unknown query fails with no call at all. Otherwise the token request comes first. A failed token exchange ends extraction with that exchange's result and calls. A successful one is always followed by exactly one query request, which carries the token obtained and exactly the resolved SQL. Success means status 200 and yields the response body. A non-200 reply fails with that body. |
| Transformer.DateColumns | app.py:178 | The result lists exactly the positions whose lower-cased name contains `date`, in header order. |
| Transformer.IsDateColumnIgnoresCase | app.py:178 | A column counts as a date column exactly when its name contains `date` with each letter in either case (`Date`, `START_DATE`, `upDaTe`). |
| Text.ContainsLowerIgnoresCase | app.py:178 | For a lower-case word, searching the lower-cased string finds it exactly when the original string holds it at some index with each letter in lower or upper case. |
| Transformer.DateColumnNamesExact | app.py:178 | The set of date-column names equals the set of header names containing `date` once lower-cased. |
| Transformer.ParseDates | app.py:179-180 | The column loop succeeds exactly when every listed column parses. It then converts exactly the listed columns. Otherwise it reports the first column, in loop order, that does not parse. |
| Transformer.Normalized | app.py:179-183 | After `to_datetime` on the date columns and `fillna(0)`, no cell is absent, whatever its column. |
| Transformer.Transform | app.py:174-187 | The transform succeeds exactly when every present value in every date column parses. On success, the header and row count are kept and no cell is missing. Each cell matches the cell-wise reference `Normalized`: an absent cell becomes zero, a date-column value becomes its parsed date, and any other value is unchanged. On failure, the error names the first bad date column. |
| WarehouseLoader.Load | app.py:189-234 | The loader connects, then writes once into the table given by name, then closes. Success means the write succeeded, and the loader reports the write's own success flag, chunk count and row count. Every failure is a load failure. A failed connection makes only the connect attempt. A failed write leaves exactly the connect and the one write in the trace, with no close, and the failure carries the write's own message. |
| Pipeline.ExtractAndTransform | app.py:67-71 | The first two stages make only the extraction's calls. They succeed exactly when extraction succeeds, the text reads as a table, and its date columns parse, and the table they yield is `Transform` of that table. A failure carries the extraction's error, `MalformedCsv` for an unreadable reply, or the transform's error. |
| Pipeline.ExecuteEtl | app.py:53-82 | An unknown query makes no call. The warehouse is reached exactly when extraction and transform succeed. Once they succeed, the run's calls are the extraction's calls followed by the load's calls, so the token and query requests come before the connection. No AMC call follows a warehouse call. The run succeeds exactly when the first two stages and the load all succeed. A failed first stage or a failed load ends the run with that stage's error, and no summary is built. On success, `records_processed` is the row count of the table written, `load_details` is the loader's report, the status is `success`, and the query name and timestamp are the ones given. |
| Pipeline.RunEtl | app.py:36-47 | A missing or empty query name is rejected before any call. A non-empty name is handed, with both dates, to the pipeline run. A successful run carries the requested name. |
| Pipeline.RunCompletesIffEveryStageDoes | app.py:53-82 | A run completes exactly when the query is known, the token exchange and the query call succeed, the reply reads as a table whose date columns parse, and the warehouse write succeeds. The table written is then the transform of that reply, and the summary counts its rows and carries the loader's report. |
| Pipeline.RecordsIgnoreRowsLoaded | app.py:74-82 | `records_processed` is the transformed row count, whatever row count the warehouse reports. |
| Pipeline.ExtractionFailureStopsRun | app.py:67-74 | A failed extraction ends the run with its error and never reaches the warehouse. |
| Pipeline.BadDateNeverLoads | app.py:178-180 | A value in a date column that does not parse fails the run with a date error, and the warehouse is never reached. |

`Text.ReplaceAll` (`str.replace`, app.py:111 and app.py:113), `Text.Lower` (app.py:178),
`Transformer.ParseColumn` (app.py:180) and `Transformer.FillAll` (app.py:183) are building
blocks. Their contracts only describe how they compute. What they mean is stated by the
rows above: the `Text.Replace…` lemmas and `QueryCatalog.ResolveStartOnly` for `replace`,
`Text.ContainsLowerIgnoresCase` and `Transformer.IsDateColumnIgnoresCase` for `lower`, and
`Transformer.ParseDates` and `Transformer.Transform` for the other two.

## Left out

- Flask routing, `render_template`, JSON body parsing and HTTP status codes (app.py:27-51) are web plumbing. Only the decision to reject an empty name is modelled. The error text handed back to the caller is not modelled either: errors carry their data (query name, response body, cause) instead.
- The HTTP exchanges with AMC and the Snowflake connector are network I/O. They are parameters of the run (`Amc`, `Warehouse`). The client id and secret in the token request are not recorded in the trace.
- Reading `queries/amc_queries.json` (app.py:98-101) is file I/O. The catalog is a map parameter. A catalog entry without an `sql` key (a `KeyError` in the source) is not modelled: entries always carry their SQL.
- `pd.read_csv` is a parameter returning a table or nothing. `pd.to_datetime` is a partial parser applied to each value. Pandas' column-wide format inference is not modelled.
- Request fields of a non-string JSON type (a number as query name or date) are not modelled. Names and dates are optional strings, and Python truthiness becomes "present and non-empty".
- Text.ReplaceWithoutOccurrence: `ReplaceAll` is defined only for a non-empty pattern. Python's `replace('', v)` inserts `v` between characters, but the source only ever replaces the two fixed placeholders.
- Text.Lower: folds ASCII letters only. Python's `lower` covers all of Unicode; the only marker searched for is the ASCII word `date`.
- QueryCatalog.ResolveLeavesNoStartPlaceholder: stated for dates made of digits and dashes (the `YYYY-MM-DD` form). For arbitrary values it does not hold. A start value `art_d` turns the template `{{st{{start_date}}ate}}` into `{{start_date}}`.
- QueryCatalog.ResolveLeavesNoEndPlaceholder: stated for end dates made of digits and dashes (the `YYYY-MM-DD` form). For arbitrary values it does not hold. The end value `d_date}}` turns the template `{{en{{end_date}}` into `{{end_date}}`, as `QueryCatalog.EndValueCanRebuildEndPlaceholder` proves. For arbitrary truthy dates, `QueryCatalog.ResolveBothDates` gives the result exactly.
- The warehouse connection is closed only after a successful write (app.py:224). An error raised by the write leaves it open. Nothing closes it on the exception path, because there is no `finally`. The model follows the code, so `Load` claims no release on failure. An error raised by `conn.close()` itself, and a failed import of the connector, are folded into the connect and write outcomes.
- Re-running the transform on its own output after writing it back to delimited text would need a model of CSV serialisation, which is pandas behaviour. That idempotence is not stated.
- `datetime.now()` is the `now` parameter. Logging, environment-variable configuration (apart from whether the AMC endpoint is set), `os.makedirs` and the `__main__` block are side effects or configuration.
- app.py:174 builds the reader's input with `pd.StringIO`, which recent pandas versions do not provide at top level (`StringIO` lives in the `io` module). With such a version, the transform would raise before reading anything, and the run would end with that exception. The reader is a parameter of the model. A reader that always returns nothing gives that behaviour: every extracted reply then fails the transform stage, and the warehouse is never reached.
- An exception raised by `requests.post` itself (connection refused, timeout; app.py:129 and app.py:153) is not a separate outcome. The HTTP exchanges are total functions returning a status and a body, so a transport failure can only be modelled as a non-200 reply, which the model treats exactly like one.
