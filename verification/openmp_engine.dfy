/**
 * The OpenMP engine's HTTP front (images/openmpmpiengine/http_server.c): the query-string
 * parser, the routing on the request's first bytes, and the three JSON responses. The
 * simulation itself is `LifeKernel.ExecuteGameOfLife`.
 */
module OpenMPEngine {
  import opened Wrappers
  import opened CText
  import Http
  import LifeKernel

  /** `char buffer[BUFFER_SIZE]`: `recv` reads at most 2047 bytes. */
  const BufferSize: nat := 2048

  /** `char response[4096]`. */
  const ResponseSize: nat := 4096

  /** `char query[256]`, the target of `strcpy`. */
  const QuerySize: nat := 256

  const DefaultPowmin: int := 3
  const DefaultPowmax: int := 6

  const PowminKey: string := "powmin="
  const PowmaxKey: string := "powmax="

  /** The pair `parse_query_params` writes through its two pointers. */
  datatype Range = Range(powmin: int, powmax: int)

  // ---------------------------------------------------------------------------
  // parse_query_params
  // ---------------------------------------------------------------------------

  /** The value the tokens leave for `key`: the `atoi` of what follows the key in the last
      token that starts with it, or `dflt` when no token does. */
  function Setting(ts: seq<string>, key: string, dflt: int): int
    requires |key| == 7
  {
    if |ts| == 0 then dflt
    else if key <= ts[|ts| - 1] then Atoi(ts[|ts| - 1][7..])
    else Setting(ts[..|ts| - 1], key, dflt)
  }

  /** With no token carrying the key, the default stays. */
  lemma {:induction false} SettingDefault(ts: seq<string>, key: string, dflt: int)
    requires |key| == 7
    requires forall i :: 0 <= i < |ts| ==> !(key <= ts[i])
    ensures Setting(ts, key, dflt) == dflt
    decreases |ts|
  {
    if |ts| > 0 {
      var p := ts[..|ts| - 1];
      assert forall i :: 0 <= i < |p| ==> p[i] == ts[i];
      SettingDefault(p, key, dflt);
    }
  }

  /** `Setting` described without recursion: when some token carries the key, the value
      comes from a token that carries it and that no later token carrying it follows. */
  lemma {:induction false} SettingIsLast(ts: seq<string>, key: string, dflt: int, i: nat)
    requires |key| == 7
    requires i < |ts| && key <= ts[i]
    ensures exists k :: (i <= k < |ts| && key <= ts[k] && Setting(ts, key, dflt) == Atoi(ts[k][7..])
                         && forall j :: k < j < |ts| ==> !(key <= ts[j]))
    decreases |ts|
  {
    var n := |ts| - 1;
    if !(key <= ts[n]) {
      var p := ts[..n];
      assert i < n;
      assert p[i] == ts[i];
      SettingIsLast(p, key, dflt, i);
      var k :| i <= k < |p| && key <= p[k] && Setting(p, key, dflt) == Atoi(p[k][7..])
        && forall j :: k < j < |p| ==> !(key <= p[j]);
      assert ts[k] == p[k];
      assert forall j :: k < j < |ts| ==> !(key <= ts[j]) by {
        forall j | k < j < |ts| ensures !(key <= ts[j]) {
          if j < n { assert ts[j] == p[j]; }
        }
      }
    }
  }

  /** The value after one more token. */
  lemma SettingStep(ts: seq<string>, n: nat, key: string, dflt: int)
    requires |key| == 7 && n < |ts|
    ensures Setting(ts[..n + 1], key, dflt)
         == if key <= ts[n] then Atoi(ts[n][7..]) else Setting(ts[..n], key, dflt)
  {
    assert ts[..n + 1][..n] == ts[..n];
  }

  /** No token starts with both keys. */
  lemma KeysExclusive(t: string)
    ensures !(PowminKey <= t && PowmaxKey <= t)
  {
    if PowminKey <= t {
      assert t[4] == 'i';
    }
  }

  /** A token appended at the end decides the value of its key. */
  lemma LaterTokenWins(ts: seq<string>, key: string, dflt: int, v: int)
    requires |key| == 7
    ensures Setting(ts + [key + IntToString(v)], key, dflt) == v
  {
    var t := key + IntToString(v);
    assert (ts + [t])[|ts|] == t;
    assert t[7..] == IntToString(v);
    AtoiIntToString(v);
  }

  /** A token without the key changes nothing. */
  lemma OtherTokenIgnored(ts: seq<string>, key: string, dflt: int, t: string)
    requires |key| == 7 && !(key <= t)
    ensures Setting(ts + [t], key, dflt) == Setting(ts, key, dflt)
  {
    assert (ts + [t])[..|ts|] == ts;
  }

  /** The result of `parse_query_params` on `query`. */
  function QueryParams(query: string): Range {
    var ts := Tokens(query, '&');
    Range(Setting(ts, PowminKey, DefaultPowmin), Setting(ts, PowmaxKey, DefaultPowmax))
  }

  /** `parse_query_params`: defaults 3 and 6, then one pass over the `strtok` tokens, each
      token starting with `powmin=` or `powmax=` overwriting that value with the `atoi` of
      its remainder. No token can start with both keys. */
  method ParseQueryParams(query: string) returns (powmin: int, powmax: int)
    ensures Range(powmin, powmax) == QueryParams(query)
  {
    powmin, powmax := DefaultPowmin, DefaultPowmax;
    var ts := Tokens(query, '&');
    var n := 0;
    while n < |ts|
      invariant 0 <= n <= |ts|
      invariant powmin == Setting(ts[..n], PowminKey, DefaultPowmin)
      invariant powmax == Setting(ts[..n], PowmaxKey, DefaultPowmax)
    {
      var token := ts[n];
      SettingStep(ts, n, PowminKey, DefaultPowmin);
      SettingStep(ts, n, PowmaxKey, DefaultPowmax);
      KeysExclusive(token);
      if PowminKey <= token {
        powmin := Atoi(token[7..]);
      } else if PowmaxKey <= token {
        powmax := Atoi(token[7..]);
      }
      n := n + 1;
    }
    assert ts[..n] == ts;
  }

  /** A printed number holds no `&`. */
  lemma NumberHasNoAmpersand(v: int)
    ensures '&' !in IntToString(v)
  {
    var d := IntToString(v);
    forall k | 0 <= k < |d| ensures d[k] != '&' {
      if v < 0 && k > 0 {
        assert d[1..][k - 1] == d[k];
      }
    }
  }

  /** `key=<v>` is one `strtok` token. */
  lemma SettingToken(key: string, v: int)
    requires '&' !in key
    ensures |key + IntToString(v)| > 0 && '&' !in key + IntToString(v)
  {
    NumberHasNoAmpersand(v);
    var t := key + IntToString(v);
    forall k | 0 <= k < |t| ensures t[k] != '&' {
      if k < |key| { assert t[k] == key[k]; } else { assert t[k] == IntToString(v)[k - |key|]; }
    }
  }

  /** Two `&`-free tokens joined by `&` split back into the two. */
  lemma TwoTokens(a: string, b: string)
    requires |a| > 0 && '&' !in a && |b| > 0 && '&' !in b
    ensures Tokens(a + "&" + b, '&') == [a, b]
  {
    var ts := [a, b];
    assert ts[1..] == [b];
    assert Join(ts, '&') == a + "&" + b;
    TokensOfJoin(ts, '&');
  }

  /** The query the dispatcher sends, `powmin=<m>&powmax=<M>`, parses back into `m` and `M`. */
  lemma QueryRoundTrip(m: int, mx: int)
    ensures QueryParams((PowminKey + IntToString(m)) + "&" + (PowmaxKey + IntToString(mx))) == Range(m, mx)
  {
    var a := PowminKey + IntToString(m);
    var b := PowmaxKey + IntToString(mx);
    assert Tokens(a + "&" + b, '&') == [a] + [b] by {
      SettingToken(PowminKey, m);
      SettingToken(PowmaxKey, mx);
      TwoTokens(a, b);
    }
    assert Setting([a] + [b], PowminKey, DefaultPowmin) == m by {
      assert [a] == [] + [a];
      LaterTokenWins([], PowminKey, DefaultPowmin, m);
      KeysExclusive(b);
      OtherTokenIgnored([a], PowminKey, DefaultPowmin, b);
    }
    assert Setting([a] + [b], PowmaxKey, DefaultPowmax) == mx by {
      KeysExclusive(a);
      assert [a] == [] + [a];
      OtherTokenIgnored([], PowmaxKey, DefaultPowmax, a);
      LaterTokenWins([a], PowmaxKey, DefaultPowmax, mx);
    }
  }

  // ---------------------------------------------------------------------------
  // Routing in handle_client
  // ---------------------------------------------------------------------------

  const ProcessPrefix: string := "GET /process"
  const HealthPrefix: string := "GET /health"

  /** What `handle_client` does with a request. */
  datatype Route = Process(powmin: int, powmax: int) | Health | NotFound

  /** The text between the first `?` and the ` HTTP` that follows it, or `None` when either
      is missing (the `strstr` pair before `strcpy(query, …)`). */
  function QueryOf(req: string): (r: Option<string>)
    ensures r.Some? ==> exists q :: 0 <= q < |req| && req[q] == '?' && Contains(req, r.value)
  {
    match Find(req, "?")
    case None => None
    case Some(q) =>
      match FindFrom(req, " HTTP", q)
      case None => None
      case Some(e) =>
        assert req[q..q + 1] == "?" && req[e..e + 5] == " HTTP";
        assert req[q] == '?' && req[e] == ' ';
        assert q + 1 <= e;
        assert OccursAt(req, req[q + 1..e], q + 1);
        Some(req[q + 1..e])
  }

  /** `q` is the first `?` of the request and `e` the first ` HTTP` at or after it. */
  predicate QueryBounds(req: string, q: nat, e: nat) {
    q <= e
    && OccursAt(req, "?", q) && (forall k :: 0 <= k < q ==> !OccursAt(req, "?", k))
    && OccursAt(req, " HTTP", e) && (forall k :: q <= k < e ==> !OccursAt(req, " HTTP", k))
  }

  /** `QueryOf` described through the two searches: a query exists exactly when the request
      has a `?` followed somewhere by ` HTTP`, and it is the text strictly between the first
      `?` and the first ` HTTP` after it. */
  lemma QueryBetween(req: string)
    ensures QueryOf(req).Some? <==> exists q: nat, e: nat :: QueryBounds(req, q, e)
    ensures forall q: nat, e: nat :: QueryBounds(req, q, e) ==> q < e && QueryOf(req) == Some(req[q + 1..e])
  {
    forall q: nat, e: nat | QueryBounds(req, q, e) ensures q < e && QueryOf(req) == Some(req[q + 1..e]) {
      BoundsAreFound(req, q, e);
      assert req[q..q + 1] == "?" && req[e..e + 5] == " HTTP";
      assert req[q] != req[e];
    }
    match Find(req, "?")
    case None =>
    case Some(q) =>
      match FindFrom(req, " HTTP", q)
      case None =>
        forall q': nat, e: nat ensures !QueryBounds(req, q', e) {
          if QueryBounds(req, q', e) {
            BoundsAreFound(req, q', e);
          }
        }
      case Some(e) =>
        assert QueryBounds(req, q, e);
  }

  /** The two searches return the bounds. */
  lemma BoundsAreFound(req: string, q: nat, e: nat)
    requires QueryBounds(req, q, e)
    ensures Find(req, "?") == Some(q) && FindFrom(req, " HTTP", q) == Some(e)
  {
    FindIsFirst(req, "?", q);
  }

  /** The request's query fits `char query[256]` with its NUL. */
  predicate QueryFits(req: string) {
    match QueryOf(req)
    case None => true
    case Some(q) => |q| < QuerySize
  }

  /** Every value read by `atoi` from a `powmin=` or `powmax=` token fits an `int`;
      otherwise the C call's result is undefined. */
  predicate ValuesFit(query: string) {
    var ts := Tokens(query, '&');
    forall i :: 0 <= i < |ts| && (PowminKey <= ts[i] || PowmaxKey <= ts[i]) ==> IsInt32(Atoi(ts[i][7..]))
  }

  /** The query the dispatcher sends for two 32-bit numbers gives `atoi` nothing to overflow. */
  lemma QueryValuesFit(m: int, mx: int)
    requires IsInt32(m) && IsInt32(mx)
    ensures ValuesFit((PowminKey + IntToString(m)) + "&" + (PowmaxKey + IntToString(mx)))
  {
    var a := PowminKey + IntToString(m);
    var b := PowmaxKey + IntToString(mx);
    SettingToken(PowminKey, m);
    SettingToken(PowmaxKey, mx);
    TwoTokens(a, b);
    var ts := Tokens(a + "&" + b, '&');
    forall i | 0 <= i < |ts| && (PowminKey <= ts[i] || PowmaxKey <= ts[i]) ensures IsInt32(Atoi(ts[i][7..])) {
      if i == 0 {
        assert ts[i][7..] == IntToString(m);
        AtoiIntToString(m);
      } else {
        assert ts[i][7..] == IntToString(mx);
        AtoiIntToString(mx);
      }
    }
  }

  /** What a `/process` request needs for `handle_client` to stay within defined C: its
      query fits `char query[256]` and every value `atoi` reads from it fits an `int`.
      Other requests never reach the `strcpy` or `atoi`. */
  predicate ProcessDefined(req: string) {
    ProcessPrefix <= req ==> QueryFits(req) && (QueryOf(req).Some? ==> ValuesFit(QueryOf(req).value))
  }

  /** The routing decision on the received C string. `/process` without a complete query
      keeps the defaults 3 and 6. Only the first bytes are compared, so `GET /processing`
      and `GET /healthy` route as well. */
  function RouteRequest(req: string): (r: Route)
    requires ProcessPrefix <= req ==> QueryFits(req)
    ensures r.Process? <==> ProcessPrefix <= req
    ensures r.Health? <==> !(ProcessPrefix <= req) && HealthPrefix <= req
    ensures r.Process? && QueryOf(req).None? ==> r == Process(DefaultPowmin, DefaultPowmax)
    ensures r.Process? && QueryOf(req).Some? ==> Range(r.powmin, r.powmax) == QueryParams(QueryOf(req).value)
  {
    if ProcessPrefix <= req then
      match QueryOf(req)
      case None => Process(DefaultPowmin, DefaultPowmax)
      case Some(q) =>
        var p := QueryParams(q);
        Process(p.powmin, p.powmax)
    else if HealthPrefix <= req then Health
    else NotFound
  }

  // ---------------------------------------------------------------------------
  // The responses
  // ---------------------------------------------------------------------------

  const OkStatus: string := "HTTP/1.1 200 OK"
  const NotFoundStatus: string := "HTTP/1.1 404 Not Found"
  const JsonType: Http.Header := Http.Header("Content-Type", "application/json")
  const AnyOrigin: Http.Header := Http.Header("Access-Control-Allow-Origin", "*")

  function BoolText(b: bool): string {
    if b then "true" else "false"
  }

  /** The JSON object of a `/process` reply. The processing time is `%.6f` of a clock
      difference and `details` is the text `execute_game_of_life` wrote; both are inputs
      here, inserted without escaping as the C code does. */
  function ProcessJson(success: bool, powmin: int, powmax: int, time: string, threads: int, details: string): string {
    "{\"success\":" + BoolText(success)
    + ",\"engine\":\"OpenMP\",\"powmin\":" + IntToString(powmin)
    + ",\"powmax\":" + IntToString(powmax)
    + ",\"processing_time\":" + time
    + ",\"threads\":" + IntToString(threads)
    + ",\"details\":\"" + details + "\"}"
  }

  function HealthJson(threads: int): string {
    "{\"status\":\"healthy\",\"engine\":\"OpenMP\",\"threads\":" + IntToString(threads) + "}"
  }

  const NotFoundJson: string := "{\"error\":\"Not found\",\"endpoints\":[\"/process?powmin=X&powmax=Y\",\"/health\"]}"

  /** The three replies, each cut to `char response[4096]` by `snprintf`. */
  function ProcessResponse(success: bool, powmin: int, powmax: int, time: string, threads: int, details: string): string {
    Bounded(Http.Message(OkStatus, [JsonType, AnyOrigin], ProcessJson(success, powmin, powmax, time, threads, details)), ResponseSize)
  }

  function HealthResponse(threads: int): string {
    Bounded(Http.Message(OkStatus, [JsonType], HealthJson(threads)), ResponseSize)
  }

  function NotFoundResponse(): string {
    Bounded(Http.Message(NotFoundStatus, [JsonType], NotFoundJson), ResponseSize)
  }

  lemma StatusLinesClean()
    ensures Http.CleanText(OkStatus) && Http.CleanText(NotFoundStatus)
  {
    assert Http.CleanText(OkStatus);
  }

  lemma JsonTypeClean()
    ensures Http.CleanText(JsonType.name) && Http.CleanText(JsonType.value)
  {
    assert Http.CleanText(JsonType.name);
  }

  lemma AnyOriginClean()
    ensures Http.CleanText(AnyOrigin.name) && Http.CleanText(AnyOrigin.value)
  {
    assert Http.CleanText(AnyOrigin.name);
  }

  /** The start lines and headers the engine writes carry no CR. */
  lemma HeadersAreClean()
    ensures Http.CleanText(OkStatus) && Http.CleanText(NotFoundStatus)
    ensures Http.CleanHeaders([JsonType, AnyOrigin]) && Http.CleanHeaders([JsonType])
  {
    StatusLinesClean();
    JsonTypeClean();
    AnyOriginClean();
    forall h | h in [JsonType, AnyOrigin] ensures Http.CleanText(h.name) && Http.CleanText(h.value) {
      assert h == JsonType || h == AnyOrigin;
    }
  }

  /** A reply short enough to escape truncation frames the JSON so that the dispatcher's
      body extraction returns it whole. */
  lemma ProcessResponseBody(success: bool, powmin: int, powmax: int, time: string, threads: int, details: string)
    requires |Http.Message(OkStatus, [JsonType, AnyOrigin], ProcessJson(success, powmin, powmax, time, threads, details))| < ResponseSize
    ensures Http.ExtractBody(ProcessResponse(success, powmin, powmax, time, threads, details))
         == Some(ProcessJson(success, powmin, powmax, time, threads, details))
  {
    HeadersAreClean();
    Http.MessageBody(OkStatus, [JsonType, AnyOrigin], ProcessJson(success, powmin, powmax, time, threads, details));
  }

  // ---------------------------------------------------------------------------
  // handle_client
  // ---------------------------------------------------------------------------

  /** The ranges `execute_game_of_life` can run: empty, or every size `2^pow` with
      `pow` in 1..15. */
  predicate Runnable(r: Route) {
    r.Process? ==> r.powmin > r.powmax || (1 <= r.powmin && r.powmax <= 15)
  }

  /** The `success` field of a `/process` reply: every size of the range ends CORRETO. */
  predicate AllSizesCorrect(powmin: int, powmax: int)
    requires powmin > powmax || (1 <= powmin && powmax <= 15)
  {
    forall pow :: powmin <= pow <= powmax ==> LifeKernel.SizeCorrect(pow)
  }

  /** `handle_client` on the bytes one `recv` returned: nothing is sent when the read
      yields no bytes, otherwise exactly one reply chosen by `RouteRequest`. The clock
      reading, the thread count and the details text are inputs. */
  method HandleClient(received: string, threads: int, time: string, details: string) returns (reply: Option<string>)
    requires |received| < BufferSize
    requires ProcessDefined(CStr(received)) && Runnable(RouteRequest(CStr(received)))
    ensures |received| == 0 <==> reply.None?
    ensures var r := RouteRequest(CStr(received));
      reply.Some? && r.Process? ==>
        reply.value == ProcessResponse(AllSizesCorrect(r.powmin, r.powmax), r.powmin, r.powmax, time, threads, details)
    ensures reply.Some? && RouteRequest(CStr(received)).Health? ==> reply.value == HealthResponse(threads)
    ensures reply.Some? && RouteRequest(CStr(received)).NotFound? ==> reply.value == NotFoundResponse()
  {
    if |received| == 0 {
      return None;
    }
    var r := RouteRequest(CStr(received));
    if r.Process? {
      var success, _ := LifeKernel.ExecuteGameOfLife(r.powmin, r.powmax);
      reply := Some(ProcessResponse(success, r.powmin, r.powmax, time, threads, details));
    } else if r.Health? {
      reply := Some(HealthResponse(threads));
    } else {
      reply := Some(NotFoundResponse());
    }
  }
}
