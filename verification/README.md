# PSPD Game of Life dispatch — a Dafny model

This project models the request path of the PSPD Game of Life system:

- **The dispatcher** (`images/socketserver/socketserver_http.c`). It reads one line
  `<POWMIN> <POWMAX> [engine]` from a client with `sscanf("%d %d %s")` and checks the range
  3 ≤ POWMIN ≤ POWMAX ≤ 15. It then picks a processing engine: an explicit `openmp` or
  `spark`, or a round robin on a static counter. It keeps the session counters
  `active_clients` and `total_requests`, which also supply the request id. It calls the
  engine with an HTTP GET, reads the reply with a single `recv` of at most 4095 bytes, and
  keeps the body of that reply after the first `"\r\n\r\n"`. It posts a JSON metrics record to ElasticSearch, and it answers the client
  with a `Status: SUCESSO` or `Status: FALHA` text block.
- **The OpenMP engine** (`images/openmpmpiengine/http_server.c`):
  - the flat `(tam+2)²` boards indexed by `ind2d`;
  - `InitTabul`, which places a glider;
  - `UmaVida`, one B3/S23 generation;
  - `Correto`, which checks that the glider reached the lower right corner;
  - `execute_game_of_life`, which runs every size `tam = 1 << pow`;
  - `parse_query_params`, with defaults 3 and 6 where the last token wins;
  - the prefix routing of `handle_client` and its three JSON replies.
- **The Spark engine's pure helpers** (`images/sparkengine/spark_distributed_server.py`):
  - `init_board`;
  - the neighbour list of `create_neighbors_mapping_distributed`;
  - `verify_distributed_result`;
  - the parameter checks of `process_game`;
  - the chained `when` next-state rule.

C strings are `string` values with one `char` per byte. The Portuguese messages spell
their accented letters as UTF-8 byte pairs, so lengths are `strlen` lengths. Every
`snprintf`/`strncpy` into a fixed buffer is an explicit truncation (`CText.Bounded`).
Behaviour the C code leaves undefined becomes a precondition:

- `int` overflow of a counter or of `%d`;
- `int` overflow of the neighbour sum `vizviv` in `UmaVida` and of the cell count `cnt` in `Correto`
  (both are discharged on 0/1 boards);
- `%s` into `engine_type[32]`;
- `strcpy` into `query[256]`;
- `atoi` of a query value outside `int`;
- `InitTabul` with `tam < 2`.

The dispatcher's `handle_client` is a pure step, `Handler.Handle`. It takes the shared
state and what the outside world supplies: the received bytes, how the engine call went,
and the clock texts. It returns the new state and the effects in the order the session
performs them: engine call, metrics record, client reply.

Modules, leaf first:

- `Wrappers`: `Option`.
- `CText`: C string helpers: NUL termination, `%d`, `strtol`/`atoi`, `strstr`, `strtok`,
  truncation.
- `Http`: message framing and body extraction.
- `Protocol`, `Selector`, `Stats`, `Relay`, `Telemetry`, `Handler`: the dispatcher.
- `LifeKernel` and `OpenMPEngine`: the OpenMP engine.
- `SparkEngine`: the Spark engine's helpers.
- `EndToEnd`: the dispatcher and the OpenMP engine read against each other.

## Model

| member | source | states |
|---|---|---|
| CText.CStr | images/socketserver/socketserver_http.c:239 | The C string read from a received buffer is a prefix of it. It holds no NUL, and it is followed by a NUL whenever it is shorter than the buffer. |
| CText.Bounded | images/socketserver/socketserver_http.c:201-202 | Copying into a buffer of `size` bytes with a terminating NUL keeps a prefix of the text. The prefix is the whole text when it fits, and exactly `size - 1` bytes otherwise. |
| CText.ScanDecimal | images/socketserver/socketserver_http.c:246 | A successful `%d` conversion consumes at least one byte. It stops at the end of the text or at a byte that is not a digit. |
| CText.ScanPrintedAt | images/socketserver/socketserver_http.c:246 | Suppose the text holds the printed form of `n` at `i`, followed by a non-digit or the end. Then `%d` at `i` reads back exactly `n` and stops right after the copy. |
| CText.AtoiIntToString | images/openmpmpiengine/http_server.c:128 | `atoi` inverts `%d` printing for every integer. |
| CText.Find | images/socketserver/socketserver_http.c:198 | `strstr` returns an occurrence of the pattern with no earlier occurrence. It returns nothing exactly when the pattern occurs nowhere. |
| CText.FindIsFirst | images/openmpmpiengine/http_server.c:155 | Any occurrence with no earlier occurrence is what `strstr` returns, so that condition pins down its result. |
| CText.Tokens | images/openmpmpiengine/http_server.c:125-132 | The `strtok` tokens are non-empty and hold no delimiter. Joined together, they give the input with its delimiters removed. |
| CText.TokensOfJoin | images/openmpmpiengine/http_server.c:125-132 | `strtok` splits a `&`-joined list of non-empty, `&`-free tokens back into exactly that list. |
| Http.ExtractBody | images/socketserver/socketserver_http.c:197-206 | There is no body exactly when `"\r\n\r\n"` occurs nowhere. Otherwise the body is the suffix that follows an occurrence of the separator. |
| Http.MessageBody | images/socketserver/socketserver_http.c:197-203 | Round trip: for a message with a CR-free start line and headers, body extraction returns exactly the body it was formatted with. This holds for any body. |
| Protocol.ScanRequest | images/socketserver/socketserver_http.c:243-246 | `sscanf` returns -1 to 3. It returns EOF exactly when the line is all white space. The engine stays `"auto"` unless all three conversions happened, and a read engine is a non-empty run of non-space bytes. |
| Protocol.Classify | images/socketserver/socketserver_http.c:246-266 | The line is malformed exactly when fewer than two conversions succeeded. Otherwise it is accepted exactly when 3 ≤ powmin ≤ powmax ≤ 15, and both outcomes carry the parsed values unchanged. |
| Protocol.ScanTwoNumbers | images/socketserver/socketserver_http.c:243-246 | For all integers `m`, `M`, the line `"<m> <M>"` followed only by white space parses as two conversions of `m` and `M`, with the engine left at `"auto"`. |
| Protocol.ScanThreeFields | images/socketserver/socketserver_http.c:243-246 | For all integers and every engine word, `"<m> <M> <engine>"`, optionally followed by white space, parses into exactly those three values. |
| Protocol.ScanGluedSuffix | images/socketserver/socketserver_http.c:246 | `sscanf` does not split on white space first: `"3 6x spark"` yields 3, 6 and the engine `"x"`. |
| Selector.Select | images/socketserver/socketserver_http.c:272-290 | An explicit `openmp`/`spark` picks that backend and leaves the counter alone. Any other name advances the counter by exactly one. The chosen backend is always one of the two, and the name reported is never `"auto"`. |
| Selector.FallbacksAlternate | images/socketserver/socketserver_http.c:279-289 | Successive fallback requests alternate strictly by counter parity: even gives OpenMP, odd gives Spark. |
| Selector.FallbacksBalanced | images/socketserver/socketserver_http.c:279-289 | From the initial counter 0, `2k` fallback requests send exactly `k` to each engine. |
| Stats.Begin | images/socketserver/socketserver_http.c:221-225 | Opening a session raises both counters by one, and the request id is the new total. |
| Stats.End | images/socketserver/socketserver_http.c:337-339 | The cleanup lowers the active count by one and leaves the total alone. |
| Stats.SessionBalanced | images/socketserver/socketserver_http.c:221-339 | A whole session leaves the active count where it was, adds one request, and gets id `total + 1`. |
| Stats.SessionsConsecutive | images/socketserver/socketserver_http.c:222-224 | Sessions run one after another get the ids `total + 1, total + 2, …`. They leave the active count unchanged. |
| Relay.EngineRequest | images/socketserver/socketserver_http.c:171-177 | The GET fits `request[512]`. It is the request line `GET <path>?powmin=<m>&powmax=<M> HTTP/1.1` followed by `Host`, `Connection: close` and the empty line when that message fits, and its first 511 bytes otherwise. |
| Relay.EngineRequestWhole | images/socketserver/socketserver_http.c:171-177 | For either backend and all 32-bit sizes, the `/process` GET takes at most 119 bytes, so `snprintf` never cuts it. |
| Relay.SentRequest | images/socketserver/socketserver_http.c:145-184 | No GET is handed to `send` when the socket or the connection fails. Once connected, the GET handed to `send` is the request for the path and the sizes. |
| Relay.CallEngine | images/socketserver/socketserver_http.c:137-207 | The call succeeds exactly when bytes arrived and hold the header terminator. The text is then the body cut to the 1024-byte buffer. Otherwise the text is the `ERRO:` message of the step that failed: socket creation, connection (naming `host:port`), send, an empty read ("Nenhuma resposta") or a missing terminator ("Resposta inválida"). |
| Relay.RelaysBody | images/socketserver/socketserver_http.c:195-203 | A well-formed, NUL-free reply that fits the receive buffer is relayed as success with its body. |
| Telemetry.Members | images/socketserver/socketserver_http.c:57-77 | The record carries the ten fixed keys in the format's order. An `error` member follows exactly when an error text is given, and it holds that text. |
| Telemetry.MetricsJson | images/socketserver/socketserver_http.c:56-77 | The JSON buffer fits `json_body[1024]`. It is the full object when that fits, and the object's first 1023 bytes otherwise. |
| Telemetry.RecordWhole | images/socketserver/socketserver_http.c:56-77 | A record whose numbers are `int`s and whose free-text fields take at most 800 bytes fits `json_body` whole. |
| Telemetry.MetricsPost | images/socketserver/socketserver_http.c:104-113 | The POST fits `request[2048]`. It is a prefix of the POST line, the four headers, the empty line and the JSON. |
| Telemetry.PostCarriesJson | images/socketserver/socketserver_http.c:104-113 | Every JSON buffer fits the POST whole, and the receiver's body extraction reads that buffer back. The `Content-Length` value reads back, through `atoi`, as the buffer's length. |
| Handler.Handle | images/socketserver/socketserver_http.c:210-344 | A session raises the total by one and restores the active count on every path. Its id is the new total. A failed receive has no effects. Otherwise exactly one reply is sent, and it is the last effect. The round-robin counter rises by at most one. |
| Handler.ExactlyOneReply | images/socketserver/socketserver_http.c:232-330 | The client receives exactly one message when bytes were received, and none when the receive failed. |
| Handler.EffectsByOutcome | images/socketserver/socketserver_http.c:246-330 | A malformed or out-of-range line gives one failed metrics record with an error and one reply, and the counter is untouched. An accepted line gives an engine call, a metrics record and a reply, in that order; the call carries a GET only when the connection was made. |
| Handler.DispatchOnlyValid | images/socketserver/socketserver_http.c:247-297 | An engine is called if and only if the line parsed with two numbers and passed the range check. Any called engine gets sizes inside 3..15. |
| Handler.MalformedSession | images/socketserver/socketserver_http.c:247-256 | A malformed line is reported with engine `"unknown"`, sizes 0 and 0, time 0, the session's id and the format error. It is answered with the usage text. |
| Handler.RangeSession | images/socketserver/socketserver_http.c:259-266 | A parsed line outside the range is reported with the values as parsed and the parameter error. It is answered with the range text. |
| Handler.ReplyFits | images/socketserver/socketserver_http.c:307-327 | The reply to an accepted request always fits `response[2048]` whole: `snprintf` never truncates it. |
| Handler.ReplyMentions | images/socketserver/socketserver_http.c:307-327 | The reply names the engine and the request id. On success it holds `Status: SUCESSO` and the engine's payload; on failure it holds `Status: FALHA` and `Erro: <text>`. |
| Handler.AcceptedSession | images/socketserver/socketserver_http.c:268-330 | An accepted request calls the selected backend. The GET for the parsed sizes is handed to `send` exactly when the connection was made. The metrics record names the resolved engine and carries an error exactly when the relay failed, and that error is the relay's text. The reply carries the matching status and text. |
| Handler.Run | images/socketserver/socketserver_http.c:220-225 | Sessions handled in sequence get the consecutive ids `total + 1, …, total + n`. They leave `active_clients` unchanged and raise `total_requests` by `n`, failed receives included. |
| LifeKernel.UmaVida | images/openmpmpiengine/http_server.c:22-43 | Every interior cell gets the rule applied to the cell and its eight-neighbour sum in `tabulIn`. Every border cell of the output keeps its previous value. |
| LifeKernel.NextCellIsConway | images/openmpmpiengine/http_server.c:33-40 | On 0/1 cells the `if` chain is exactly B3/S23: alive next iff three live neighbours, or alive with two. |
| LifeKernel.NextBoardBinary | images/openmpmpiengine/http_server.c:33-40 | A generation maps 0/1 boards to 0/1 boards. |
| LifeKernel.InitTabul | images/openmpmpiengine/http_server.c:45-54 | `tabulOut` is all zero. `tabulIn` is 1 exactly on the five glider cells (1,2), (2,3), (3,1), (3,2) and (3,3), and 0 everywhere else. |
| LifeKernel.ZeroBoard | images/openmpmpiengine/http_server.c:47-50 | The zeroing loop sets all `(tam+2)²` cells to 0. |
| LifeKernel.Correto | images/openmpmpiengine/http_server.c:56-63 | The counting loop and the five cell tests return exactly `IsCorrect`: total 5 and the five corner-glider cells alive. |
| LifeKernel.CorrectIffShiftedGlider | images/openmpmpiengine/http_server.c:56-63 | On a 0/1 board, `Correto` accepts exactly the starting glider moved `tam - 3` cells down and right, and nothing else. |
| LifeKernel.StartingBoardCorrectAtThree | images/openmpmpiengine/http_server.c:45-63 | With `tam = 3`, the board `InitTabul` builds already passes `Correto`. |
| LifeKernel.SmallestBoardIncorrect | images/openmpmpiengine/http_server.c:45-63 | With `tam = 2`, the starting board fails `Correto`. |
| LifeKernel.SizeTwoIncorrect | images/openmpmpiengine/http_server.c:75-98 | Size `1 << 1` ends ERRADO, because no generation runs. |
| LifeKernel.Pass | images/openmpmpiengine/http_server.c:92-95 | The two `UmaVida` calls of one pass compute one `Round` (in to out, then out to in), and they keep the boards 0/1. |
| LifeKernel.EvolveBinary | images/openmpmpiengine/http_server.c:92-95 | Any number of passes keeps 0/1 boards 0/1. |
| LifeKernel.CellsFit | images/openmpmpiengine/http_server.c:76-80 | For every `pow` in 1..15, `(tam+2)*(tam+2)` fits an `int`. |
| LifeKernel.SizeCorrectIsGlider | images/openmpmpiengine/http_server.c:92-98 | A size ends CORRETO exactly when the board left after `Passes(tam)` passes is the shifted glider. |
| LifeKernel.RunSize | images/openmpmpiengine/http_server.c:76-109 | The simulation of one size returns that size's `Correto` verdict on the evolved board. |
| LifeKernel.ExecuteGameOfLife | images/openmpmpiengine/http_server.c:66-119 | There is one verdict per size, in order. The result is 1 exactly when every size of the range is CORRETO, and 1 for an empty range. |
| OpenMPEngine.ParseQueryParams | images/openmpmpiengine/http_server.c:122-134 | The one pass over the tokens computes `QueryParams`: defaults 3 and 6, and for each key the `atoi` of its last token. |
| OpenMPEngine.SettingDefault | images/openmpmpiengine/http_server.c:123-133 | With no token carrying the key, the default stays. |
| OpenMPEngine.SettingIsLast | images/openmpmpiengine/http_server.c:126-133 | When some token carries the key, the value comes from a token with that key that no later token with the key follows. |
| OpenMPEngine.LaterTokenWins | images/openmpmpiengine/http_server.c:126-131 | A `key=<v>` token appended at the end decides the value `v`, whatever came before. |
| OpenMPEngine.OtherTokenIgnored | images/openmpmpiengine/http_server.c:126-132 | A token without the key changes nothing. |
| OpenMPEngine.KeysExclusive | images/openmpmpiengine/http_server.c:127-131 | No token starts with both `powmin=` and `powmax=`, so the `else if` never shadows a match. |
| OpenMPEngine.QueryRoundTrip | images/openmpmpiengine/http_server.c:122-134 | For all integers, the query `powmin=<m>&powmax=<M>` parses back into exactly `m` and `M`. |
| OpenMPEngine.QueryBetween | images/openmpmpiengine/http_server.c:155-163 | A query exists exactly when the request has a `?` with a ` HTTP` somewhere after it. It is then the text strictly between the first `?` and the first ` HTTP` that follows. |
| OpenMPEngine.QueryValuesFit | images/openmpmpiengine/http_server.c:126-131 | In the query `powmin=<m>&powmax=<M>` for two 32-bit numbers, every value `atoi` reads fits an `int`. |
| OpenMPEngine.RouteRequest | images/openmpmpiengine/http_server.c:153-211 | `/process` is chosen exactly when the prefix `GET /process` matches. `/health` is chosen exactly when only `GET /health` matches, and anything else is 404. Without a complete query the sizes are 3 and 6; with one they are the parsed query. |
| OpenMPEngine.ProcessResponseBody | images/openmpmpiengine/http_server.c:174-191 | A `/process` reply that escapes truncation frames its JSON so that the dispatcher's body extraction returns it whole. |
| OpenMPEngine.HandleClient | images/openmpmpiengine/http_server.c:136-216 | Nothing is sent exactly when the read got no bytes. Otherwise one reply goes out, chosen by the route. A `/process` reply's success field says that every size of the parsed range ends CORRETO. |
| SparkEngine.InitGrid | images/sparkengine/spark_distributed_server.py:53-56 | `init_board` is a `(tam+2)×(tam+2)` grid that is 1 exactly on the five glider cells. |
| SparkEngine.SquareFlatten | images/openmpmpiengine/http_server.c:13 | Row-major flattening puts grid cell `(i, j)` at the `ind2d(i, j)` index of the C board. |
| SparkEngine.InitGridIsInitBoard | images/sparkengine/spark_distributed_server.py:53-56 | The Spark starting grid flattens to the C engine's starting board. |
| SparkEngine.NeighbourLinksExact | images/sparkengine/spark_distributed_server.py:78-90 | Every ordered pair of distinct, touching interior cells occurs in the neighbour list exactly once, and nothing else occurs. |
| SparkEngine.NeighbourLinksSound | images/sparkengine/spark_distributed_server.py:81-90 | Every neighbour tuple has all four coordinates in 1..tam, differs from its cell, and lies within distance one of it. |
| SparkEngine.SparkNextIsNextCell | images/sparkengine/spark_distributed_server.py:160-168 | On 0/1 cells the chained `when` equals the C engine's `if` chain, and both are B3/S23. |
| SparkEngine.RulesDifferOffBinary | images/sparkengine/spark_distributed_server.py:160-168 | Off 0/1 the two rules differ. The Python tests `alive == 1` and the C tests non-zero, so a cell holding 2 with no neighbours stays 2 in Spark and becomes 0 in C. |
| SparkEngine.PlaceCells | images/sparkengine/spark_distributed_server.py:224-227 | Each cell of the placed board holds the `alive` value of the last collected row for that cell, and 0 where no row names it. |
| SparkEngine.VerifyDistributedResult | images/sparkengine/spark_distributed_server.py:223-230 | The Spark check on the placed rows is exactly the C engine's `Correto` condition on the flattened board. |
| SparkEngine.VerifyIffShiftedGlider | images/sparkengine/spark_distributed_server.py:223-230 | On 0/1 rows, the check accepts exactly when the placed board is the glider shifted into the corner. |
| SparkEngine.ProcessGame | images/sparkengine/spark_distributed_server.py:232-242 | A missing argument gives 400 `Missing parameters`. Present values outside 3 ≤ powmin ≤ powmax ≤ 15 give 400 `Invalid parameters`. Computation runs exactly when both are present and in range, and on exactly those values. |
| EndToEnd.DispatchedRequestRoutes | images/socketserver/socketserver_http.c:171-177 | For every backend and all 32-bit sizes, the GET the dispatcher formats fits the engine's query buffer. The engine's router reads it as `/process` for exactly those sizes. |
| EndToEnd.DispatchedRequestDefined | images/openmpmpiengine/http_server.c:154-164 | For every backend and all 32-bit sizes, the engine copies and parses the dispatcher's GET without overflowing `query[256]` or an `atoi`. |
| EndToEnd.EngineReplyRelayed | images/socketserver/socketserver_http.c:186-203 | A `/process` reply of the OpenMP engine that fits its buffer reaches the dispatcher as success with the JSON object it carries. The JSON is cut only to the 1024-byte buffer. |

## Left out

- Sockets are not modelled. This covers `socket`, `connect`, `send`, `recv`, `accept`, `bind`, `listen` and both `main` loops. Received bytes and the outcome of the engine call are inputs (`Handler.Connection`, `Relay.RelayIO`).
- Whether the metrics POST reaches ElasticSearch is not modelled. It cannot affect the client, so it is not an input.
- Threads and locking are not modelled: `pthread`, `stats_mutex` and OpenMP. Sessions run one after another, and `#pragma omp parallel for` is a plain loop.
- Race-freedom is not claimed. The static `engine_counter` is incremented outside the mutex (socketserver_http.c:280-281), so concurrent fallbacks can repeat a backend.
- Clocks and floating point are not modelled: `wall_time`, `get_timestamp_ms`, the ISO timestamp, and the `%.6f`/`%.7f` times. Each enters as the text it prints as.
- The timing lines of `execute_game_of_life` are not modelled, and neither is the `details` text that `result_buffer` holds. They are an opaque input to the JSON reply.
- `omp_get_max_threads()` is an input.
- `malloc` failure in `execute_game_of_life` and in the dispatcher's `main` is not modelled. The model has no allocator.
- `inet_aton` failure in `call_engine_http` and in the metrics sender is not modelled. The addresses are fixed, valid literals.
- The printed log lines (`printf`) are not modelled.
- The Spark engine's generation loop is not modelled: the DataFrame joins, `groupBy`, `cache` and `collect`. Neither are the Spark session, Flask, `uuid`, the `/health` and `/` routes of the Spark server, or its `jsonify` replies. Only the pure helpers are modelled, and the per-cell rule is related to the C rule.
- There is no proof that either engine's loop moves the glider to the corner for every `tam`. The verdict is stated as "the evolved board is the shifted glider" (`LifeKernel.SizeCorrectIsGlider`). The Spark loop runs `2*(tam-3)` generations while the C loop runs `4*(tam-3)`; this is not compared.
- JSON escaping is not modelled. The error and details strings are interpolated raw, as in the C code.
- The response the metrics POST receives is not modelled. It is only logged.
- `request.args.get(..., type=int)` is not modelled. Python `int()` parsing of the query values is outside the model; `SparkEngine.ProcessGame` takes the already-converted `Option<int>` values.
- Python negative indexes are not modelled. They could arise in `verify_distributed_result` for rows outside the board, or for `tam < 2`.
- Selector.Select: requires the round-robin counter to be below `INT_MAX` when a fallback happens, because `engine_counter++` on a C `int` is undefined past it.
- Stats.Begin: requires both counters below `INT_MAX` (C `int` overflow).
- Handler.Handle: requires the round-robin counter below `INT_MAX` on every session, through `CanHandle`; Handler.Run requires room for one step per session, through `CanRun`. The C code increments `engine_counter` only on a fallback, so this is stronger than `Selector.Select` needs. It costs nothing in a run from `Handler.Start`: the counter never exceeds `total_requests` (`Handler.CounterWithinTotal`), which must stay below `INT_MAX` anyway.
- Handler.Handle: requires the parsed numbers to fit an `int` and the engine name to fit `engine_type[32]`. A longer `%s` overflows the buffer, and a larger `%d` is undefined.
- OpenMPEngine.HandleClient: requires three things of a request that starts with `GET /process`; other requests need none of them. Its query must fit `query[256]`, because `strcpy` would overflow otherwise. Every `powmin=`/`powmax=` value must fit an `int`, because `atoi` is undefined otherwise. Its range must be empty or lie within 1..15, because smaller sizes write outside the board and larger ones overflow `(tam+2)*(tam+2)`.
- OpenMPEngine.RouteRequest: requires the query of a request that starts with `GET /process` to fit `query[256]`, for the same `strcpy` reason.
- LifeKernel.ExecuteGameOfLife: requires a non-empty range to lie within 1..15, for the same reason.
- LifeKernel.InitTabul: requires `tam >= 2` and that `(tam+2)²` fits an `int`. The fifth write is outside the array otherwise.
- SparkEngine.InitGrid: requires `tam >= 2`. Python raises `IndexError` otherwise.
- Relay.CallEngine: a `recv` result of 0 and one of -1 are the same case (an empty `Received`).
- Http.ExtractBody: states that the body follows an occurrence of the separator, not that it is the first one. `Http.MessageBody` and `CText.Find` carry the "first occurrence" fact.
- LifeKernel.InitTabul: zeroes the two boards with two calls of `LifeKernel.ZeroBoard`, where the C code uses one loop. Both leave the same boards.
