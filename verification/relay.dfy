/**
 * The dispatcher's call to a processing engine, `call_engine_http`
 * (images/socketserver/socketserver_http.c): it formats one HTTP GET, and reduces what the
 * socket calls return to a success flag plus the text left in the caller's 1024-byte
 * `engine_response`, which is either the body of the engine's reply or an error message.
 */
module Relay {
  import opened Wrappers
  import opened CText
  import Http
  import Selector

  /** The path the dispatcher always asks for. */
  const ProcessPath: string := "/process"

  /** Sizes of the C buffers involved: the request, the receive buffer and the caller's
      `engine_response`. */
  const RequestSize: nat := 512
  const ReceiveSize: nat := 4096
  const ResponseSize: nat := 1024

  /** The request line `GET <path>?powmin=<m>&powmax=<M> HTTP/1.1`. */
  function RequestLine(path: string, powmin: int, powmax: int): string {
    "GET " + path + "?powmin=" + IntToString(powmin) + "&powmax=" + IntToString(powmax) + " HTTP/1.1"
  }

  function RequestHeaders(b: Selector.Backend): seq<Http.Header> {
    [Http.Header("Host", b.host + ":" + IntToString(b.port)), Http.Header("Connection", "close")]
  }

  /** The GET as `snprintf` leaves it in `char request[512]`: the whole message when it
      fits, and otherwise its first 511 bytes. */
  function EngineRequest(b: Selector.Backend, path: string, powmin: int, powmax: int): (r: string)
    ensures |r| < RequestSize
    ensures r <= Http.Message(RequestLine(path, powmin, powmax), RequestHeaders(b), "")
    ensures |Http.Message(RequestLine(path, powmin, powmax), RequestHeaders(b), "")| < RequestSize
            ==> r == Http.Message(RequestLine(path, powmin, powmax), RequestHeaders(b), "")
    ensures |Http.Message(RequestLine(path, powmin, powmax), RequestHeaders(b), "")| >= RequestSize
            ==> |r| == RequestSize - 1
  {
    Bounded(Http.Message(RequestLine(path, powmin, powmax), RequestHeaders(b), ""), RequestSize)
  }

  /** For either backend and any two 32-bit values, the `/process` GET takes well under
      512 bytes, so `snprintf` never cuts it. */
  lemma EngineRequestWhole(b: Selector.Backend, powmin: int, powmax: int)
    requires Selector.IsBackend(b) && IsInt32(powmin) && IsInt32(powmax)
    ensures |Http.Message(RequestLine(ProcessPath, powmin, powmax), RequestHeaders(b), "")| <= 119
    ensures EngineRequest(b, ProcessPath, powmin, powmax)
         == Http.Message(RequestLine(ProcessPath, powmin, powmax), RequestHeaders(b), "")
  {
    RequestLineLength(powmin, powmax);
    HeadersLength(b);
    var m := Http.Message(RequestLine(ProcessPath, powmin, powmax), RequestHeaders(b), "");
    assert |m| == |RequestLine(ProcessPath, powmin, powmax)| + 2 + |Http.HeaderLines(RequestHeaders(b))| + 2;
  }

  lemma RequestLineLength(powmin: int, powmax: int)
    requires IsInt32(powmin) && IsInt32(powmax)
    ensures |RequestLine(ProcessPath, powmin, powmax)| <= 59
  {
    Int32Length(powmin);
    Int32Length(powmax);
  }

  lemma HeadersLength(b: Selector.Backend)
    requires Selector.IsBackend(b)
    ensures |Http.HeaderLines(RequestHeaders(b))| <= 56
  {
    var hs := RequestHeaders(b);
    Http.HeaderLinesLength(hs);
    Int32Length(b.port);
    assert Http.HeadersSize(hs[1..][1..]) == 0;
    assert Http.HeadersSize(hs[1..]) == 19;
  }

  /** How far the socket calls got. `Received` holds the bytes `recv` returned; an empty
      sequence stands for a `recv` result of 0 or -1. The `inet_aton` check on the host
      cannot fail for the two fixed backend addresses and is not a case here. */
  datatype RelayIO =
    | SocketFailed
    | ConnectFailed
    | SendFailed
    | Received(bytes: string)

  /** Whether the call got as far as formatting the GET and handing it to `send`: the
      socket was created and the connection made. */
  predicate Connected(io: RelayIO) {
    io.SendFailed? || io.Received?
  }

  /** The GET `call_engine_http` hands to `send`, if it gets that far: nothing when the
      socket or the connection failed, and otherwise the request for `path` and the range. */
  function SentRequest(b: Selector.Backend, io: RelayIO, path: string, powmin: int, powmax: int): (r: Option<string>)
    ensures r.None? <==> io.SocketFailed? || io.ConnectFailed?
    ensures r.Some? ==> r.value == EngineRequest(b, path, powmin, powmax)
  {
    if Connected(io) then Some(EngineRequest(b, path, powmin, powmax)) else None
  }

  /** The return value of `call_engine_http` and the text it leaves in the caller's buffer. */
  datatype Outcome = Outcome(success: bool, text: string)

  const SocketError: string := "ERRO: Falha ao criar socket para engine"
  const SendError: string := "ERRO: Falha ao enviar requisi\U{C3}\U{A7}\U{C3}\U{A3}o para engine"
  const NoReplyError: string := "ERRO: Nenhuma resposta do engine"
  const BadReplyError: string := "ERRO: Resposta inv\U{C3}\U{A1}lida do engine"

  function ConnectError(b: Selector.Backend): string {
    "ERRO: Falha ao conectar em " + b.host + ":" + IntToString(b.port)
  }

  /** The relay succeeds exactly when bytes arrived and, read as a C string, they contain
      the empty line that ends the header section; the text is then the body after it, cut
      to the caller's buffer. `recv` is given one byte less than the receive buffer. */
  function CallEngine(b: Selector.Backend, io: RelayIO): (r: Outcome)
    requires io.Received? ==> |io.bytes| < ReceiveSize
    ensures |r.text| < ResponseSize
    ensures r.success <==> io.Received? && |io.bytes| > 0 && Http.ExtractBody(CStr(io.bytes)).Some?
    ensures r.success ==> r.text == Bounded(Http.ExtractBody(CStr(io.bytes)).value, ResponseSize)
    ensures !r.success ==> "ERRO: " <= r.text
    ensures io.SocketFailed? ==> r.text == SocketError
    ensures io.ConnectFailed? ==> r.text == Bounded(ConnectError(b), ResponseSize)
    ensures io.SendFailed? ==> r.text == SendError
    ensures io.Received? && |io.bytes| == 0 ==> r.text == NoReplyError
    ensures io.Received? && |io.bytes| > 0 && Http.ExtractBody(CStr(io.bytes)).None? ==> r.text == BadReplyError
  {
    match io
    case SocketFailed => Outcome(false, Bounded(SocketError, ResponseSize))
    case ConnectFailed => Outcome(false, Bounded(ConnectError(b), ResponseSize))
    case SendFailed => Outcome(false, Bounded(SendError, ResponseSize))
    case Received(bytes) =>
      if |bytes| == 0 then Outcome(false, Bounded(NoReplyError, ResponseSize))
      else
        match Http.ExtractBody(CStr(bytes))
        case Some(body) => Outcome(true, Bounded(body, ResponseSize))
        case None => Outcome(false, Bounded(BadReplyError, ResponseSize))
  }

  /** A well-formed engine reply that fits the receive buffer is relayed as its body. */
  lemma RelaysBody(b: Selector.Backend, start: string, hs: seq<Http.Header>, body: string)
    requires Http.CleanText(start) && Http.CleanHeaders(hs)
    requires NUL !in Http.Message(start, hs, body)
    requires |Http.Message(start, hs, body)| < ReceiveSize
    ensures CallEngine(b, Received(Http.Message(start, hs, body))) == Outcome(true, Bounded(body, ResponseSize))
  {
    var m := Http.Message(start, hs, body);
    CStrOfClean(m);
    Http.MessageBody(start, hs, body);
  }

  /** A buffer without NUL bytes is its own C string. */
  lemma {:induction false} CStrOfClean(s: string)
    requires NUL !in s
    ensures CStr(s) == s
    decreases |s|
  {
    if |s| > 0 {
      assert s[0] in s;
      assert forall k :: 0 <= k < |s| - 1 ==> s[1..][k] == s[k + 1];
      assert NUL !in s[1..] by {
        forall k | 0 <= k < |s[1..]| ensures s[1..][k] != NUL {
          assert s[k + 1] in s;
        }
      }
      CStrOfClean(s[1..]);
      assert s == [s[0]] + s[1..];
    }
  }
}
