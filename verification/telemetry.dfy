/**
 * The metrics record the dispatcher posts to ElasticSearch for every request it parses,
 * `send_metrics_to_elasticsearch` (images/socketserver/socketserver_http.c): a flat JSON
 * object printed into a 1024-byte buffer, sent as the body of an HTTP POST printed into a
 * 2048-byte buffer. Strings are interpolated without JSON escaping, as in the C code.
 */
module Telemetry {
  import opened Wrappers
  import opened CText
  import Http

  const ElasticHost: string := "192.168.122.1"
  const ElasticPort: int := 9200

  const JsonSize: nat := 1024
  const PostSize: nat := 2048

  /** One metrics record. The ISO timestamp and the `%.6f` processing time are clock
      readings and enter as the text they print as; `active` and `total` are the shared
      counters as read when the record is built. */
  datatype Metrics = Metrics(
    timestamp: string,
    engine: string,
    powmin: int,
    powmax: int,
    requestId: int,
    success: bool,
    processingTime: string,
    clientIp: string,
    active: int,
    total: int,
    error: Option<string>)

  /** A JSON member: the key and the value as printed. */
  datatype Member = Member(key: string, value: string)

  function Quoted(s: string): string {
    "\"" + s + "\""
  }

  /** The keys every record carries, in the order the format string prints them. */
  const FixedKeys: seq<string> := ["timestamp", "engine", "powmin", "powmax", "request_id",
    "success", "processing_time", "client_ip", "active_clients", "total_requests"]

  function Members(m: Metrics): (ms: seq<Member>)
    ensures |ms| == |FixedKeys| + (if m.error.Some? then 1 else 0)
    ensures forall i :: 0 <= i < |FixedKeys| ==> ms[i].key == FixedKeys[i]
    ensures m.error.Some? ==> ms[|FixedKeys|] == Member("error", Quoted(m.error.value))
  {
    var fixed := FirstMembers(m) + LastMembers(m);
    match m.error
    case Some(e) => fixed + [Member("error", Quoted(e))]
    case None => fixed
  }

  /** The first five members: the request's identity. */
  function FirstMembers(m: Metrics): seq<Member> {
    [Member("timestamp", Quoted(m.timestamp)),
     Member("engine", Quoted(m.engine)),
     Member("powmin", IntToString(m.powmin)),
     Member("powmax", IntToString(m.powmax)),
     Member("request_id", IntToString(m.requestId))]
  }

  /** The last five fixed members: the outcome and the counters. */
  function LastMembers(m: Metrics): seq<Member> {
    [Member("success", if m.success then "true" else "false"),
     Member("processing_time", m.processingTime),
     Member("client_ip", Quoted(m.clientIp)),
     Member("active_clients", IntToString(m.active)),
     Member("total_requests", IntToString(m.total))]
  }

  /** `"k":v` members separated by commas. */
  function MemberList(ms: seq<Member>): string {
    if |ms| == 0 then []
    else if |ms| == 1 then Quoted(ms[0].key) + ":" + ms[0].value
    else Quoted(ms[0].key) + ":" + ms[0].value + "," + MemberList(ms[1..])
  }

  function ObjectText(ms: seq<Member>): string {
    "{" + MemberList(ms) + "}"
  }

  /** `json_body` after the `snprintf`. */
  function MetricsJson(m: Metrics): (r: string)
    ensures |r| < JsonSize
    ensures r <= ObjectText(Members(m))
    ensures |ObjectText(Members(m))| < JsonSize ==> r == ObjectText(Members(m))
    ensures |ObjectText(Members(m))| >= JsonSize ==> |r| == JsonSize - 1
  {
    Bounded(ObjectText(Members(m)), JsonSize)
  }

  /** A bound on the bytes the member list takes: per member the key, its two quotes, the
      colon, the value and a comma. */
  function MembersSize(ms: seq<Member>): nat {
    if |ms| == 0 then 0 else |ms[0].key| + |ms[0].value| + 4 + MembersSize(ms[1..])
  }

  lemma {:induction false} MemberListLength(ms: seq<Member>)
    ensures |MemberList(ms)| <= MembersSize(ms)
    decreases |ms|
  {
    if |ms| > 1 {
      MemberListLength(ms[1..]);
    }
  }

  /** The bytes of the record's free-text fields. */
  function TextSize(m: Metrics): nat {
    |m.timestamp| + |m.engine| + |m.processingTime| + |m.clientIp|
    + match m.error case Some(e) => |e| case None => 0
  }

  /** The record's numbers are C `int`s. */
  predicate NumbersFit(m: Metrics) {
    IsInt32(m.powmin) && IsInt32(m.powmax) && IsInt32(m.requestId) && IsInt32(m.active) && IsInt32(m.total)
  }

  function MemberSize(x: Member): nat {
    |x.key| + |x.value| + 4
  }

  lemma {:induction false} MembersSizeAppend(a: seq<Member>, b: seq<Member>)
    ensures MembersSize(a + b) == MembersSize(a) + MembersSize(b)
    decreases |a|
  {
    if |a| > 0 {
      assert (a + b)[1..] == a[1..] + b;
      MembersSizeAppend(a[1..], b);
    } else {
      assert a + b == b;
    }
  }

  lemma MembersSizeCons(x: Member, rest: seq<Member>)
    ensures MembersSize([x] + rest) == MemberSize(x) + MembersSize(rest)
  {
    assert ([x] + rest)[1..] == rest;
  }

  lemma FiveMembersSize(a: Member, b: Member, c: Member, d: Member, e: Member)
    ensures MembersSize([a, b, c, d, e])
         == MemberSize(a) + MemberSize(b) + MemberSize(c) + MemberSize(d) + MemberSize(e)
  {
    MembersSizeCons(e, []);
    MembersSizeCons(d, [e]);
    MembersSizeCons(c, [d, e]);
    MembersSizeCons(b, [c, d, e]);
    MembersSizeCons(a, [b, c, d, e]);
    assert [a, b, c, d, e] == [a] + [b, c, d, e];
    assert [b, c, d, e] == [b] + [c, d, e];
    assert [c, d, e] == [c] + [d, e];
    assert [d, e] == [d] + [e];
    assert [e] == [e] + [];
  }

  /** A number member takes at most its key and fifteen bytes. */
  lemma NumberMemberSize(key: string, n: int)
    requires IsInt32(n)
    ensures MemberSize(Member(key, IntToString(n))) <= |key| + 15
  {
    Int32Length(n);
  }

  /** Everything but the free text takes at most 213 bytes. */
  lemma MembersBound(m: Metrics)
    requires NumbersFit(m)
    ensures MembersSize(Members(m)) <= 213 + TextSize(m)
  {
    var a, b := FirstMembers(m), LastMembers(m);
    FirstMembersBound(m);
    LastMembersBound(m);
    MembersSizeAppend(a, b);
    match m.error
    case None =>
    case Some(e) =>
      var c := [Member("error", Quoted(e))];
      MembersSizeAppend(a + b, c);
  }

  lemma FirstMembersBound(m: Metrics)
    requires NumbersFit(m)
    ensures MembersSize(FirstMembers(m)) <= 94 + |m.timestamp| + |m.engine|
  {
    NumberMemberSize("powmin", m.powmin);
    NumberMemberSize("powmax", m.powmax);
    NumberMemberSize("request_id", m.requestId);
    FiveMembersSize(Member("timestamp", Quoted(m.timestamp)), Member("engine", Quoted(m.engine)),
      Member("powmin", IntToString(m.powmin)), Member("powmax", IntToString(m.powmax)),
      Member("request_id", IntToString(m.requestId)));
  }

  lemma LastMembersBound(m: Metrics)
    requires NumbersFit(m)
    ensures MembersSize(LastMembers(m)) <= 108 + |m.processingTime| + |m.clientIp|
  {
    NumberMemberSize("active_clients", m.active);
    NumberMemberSize("total_requests", m.total);
    FiveMembersSize(Member("success", if m.success then "true" else "false"),
      Member("processing_time", m.processingTime), Member("client_ip", Quoted(m.clientIp)),
      Member("active_clients", IntToString(m.active)), Member("total_requests", IntToString(m.total)));
  }

  /** A record whose numbers are `int`s and whose free text takes at most 800 bytes fits
      `json_body` whole. */
  lemma RecordWhole(m: Metrics)
    requires NumbersFit(m) && TextSize(m) <= 800
    ensures |ObjectText(Members(m))| < JsonSize
    ensures MetricsJson(m) == ObjectText(Members(m))
  {
    MembersBound(m);
    MemberListLength(Members(m));
  }

  function PostHeaders(json: string): seq<Http.Header> {
    [Http.Header("Host", ElasticHost + ":" + IntToString(ElasticPort)),
     Http.Header("Content-Type", "application/json"),
     Http.Header("Content-Length", IntToString(|json|)),
     Http.Header("Connection", "close")]
  }

  const PostLine: string := "POST /pspd-metrics/_doc HTTP/1.1"

  /** The POST as `snprintf` leaves it in `char request[2048]`. `Content-Length` is the
      `strlen` of the JSON buffer, that is, of the possibly truncated text. */
  function MetricsPost(json: string): (r: string)
    ensures |r| < PostSize
    ensures r <= Http.Message(PostLine, PostHeaders(json), json)
  {
    Bounded(Http.Message(PostLine, PostHeaders(json), json), PostSize)
  }

  lemma DigitsClean(n: nat)
    ensures Http.CleanText(IntToString(n))
  {
    var d := IntToString(n);
    forall k | 0 <= k < |d| ensures d[k] != '\r' {
      assert IsDigit(d[k]);
    }
  }

  /** The header names carry no carriage return. */
  lemma NamesClean()
    ensures Http.CleanText("Host") && Http.CleanText("Content-Type")
    ensures Http.CleanText("Content-Length") && Http.CleanText("Connection")
  {
  }

  /** Nor does the request line. */
  lemma PostLineClean()
    ensures Http.CleanText(PostLine)
  {
  }

  /** Nor do the fixed header values. */
  lemma FixedValuesClean()
    ensures Http.CleanText(ElasticHost) && Http.CleanText(":")
    ensures Http.CleanText("application/json") && Http.CleanText("close")
  {
  }

  /** No header of the POST can end its line early. */
  lemma {:induction false} HeadersClean(json: string)
    ensures Http.CleanHeaders(PostHeaders(json))
  {
    var hs := PostHeaders(json);
    NamesClean();
    FixedValuesClean();
    DigitsClean(ElasticPort);
    Http.CleanJoin(ElasticHost, ":");
    Http.CleanJoin(ElasticHost + ":", IntToString(ElasticPort));
    DigitsClean(|json|);
    forall i | 0 <= i < |hs| ensures Http.CleanText(hs[i].name) && Http.CleanText(hs[i].value) {
    }
  }

  /** The header section of the POST, up to and including the empty line. */
  lemma {:induction false} PostHeadLength(json: string)
    requires |json| < JsonSize
    ensures |Http.Message(PostLine, PostHeaders(json), [])| <= 160
  {
    Int32Length(|json|);
    Int32Length(ElasticPort);
    var hs := PostHeaders(json);
    Http.HeaderLinesLength(hs);
    assert Http.HeadersSize(hs) <= 120 by {
      assert Http.HeadersSize(hs[3..]) == 19;
      assert Http.HeadersSize(hs[2..]) <= 29 + 19;
      assert Http.HeadersSize(hs[1..]) <= 32 + 29 + 19;
    }
  }

  /** Every JSON buffer fits the POST whole, the receiver reads exactly that buffer back as
      the body, and the `Content-Length` it is announced with reads back as its length. */
  lemma {:induction false} PostCarriesJson(json: string)
    requires |json| < JsonSize
    ensures MetricsPost(json) == Http.Message(PostLine, PostHeaders(json), json)
    ensures Http.ExtractBody(MetricsPost(json)) == Some(json)
    ensures Atoi(PostHeaders(json)[2].value) == |json|
  {
    PostHeadLength(json);
    Http.MessageSplit(PostLine, PostHeaders(json), json);
    HeadersClean(json);
    PostLineClean();
    Http.MessageBody(PostLine, PostHeaders(json), json);
    AtoiIntToString(|json|);
  }
}
