/**
 * One client session of the dispatcher, `handle_client`
 * (images/socketserver/socketserver_http.c), as a pure step. The session takes the shared
 * state (session counters and the round-robin counter) and what the outside world
 * supplies (client address, received bytes, how the engine call went, clock readings). It
 * returns the new state and the externally visible effects in the order the session
 * performs them: the call of an engine (with the GET handed to `send` when the connection
 * gets that far), the metrics record sent to ElasticSearch, the message sent to the client.
 * The reply's status line reads `Status: SUCESSO` or `Status: FALHA`.
 */
module Handler {
  import opened Wrappers
  import opened CText
  import Protocol
  import Selector
  import Stats
  import Relay
  import Telemetry

  const BufferSize: nat := 2048

  /** The state shared by all sessions. */
  datatype Server = Server(stats: Stats.Stats, counter: nat)

  const Start: Server := Server(Stats.Initial, 0)

  /** An effect visible outside the session. `CallBackend` is a call of `call_engine_http`;
      its `request` is the GET handed to `send`, absent when the socket or the connection
      failed first. */
  datatype Effect =
    | Report(metrics: Telemetry.Metrics)
    | CallBackend(backend: Selector.Backend, request: Option<string>)
    | Reply(text: string)

  /** What the outside world supplies to one session. `received` holds the bytes `recv`
      returned (empty for a result of 0 or -1); `relay` is how the engine call goes if one
      is made; `timestamp` is the ISO time printed into the metrics record and `elapsed`
      the `%.6f` text of the measured processing time. */
  datatype Connection = Connection(
    clientIp: string,
    received: string,
    relay: Relay.RelayIO,
    timestamp: string,
    elapsed: string)

  datatype Session = Session(server: Server, requestId: int, effects: seq<Effect>)

  const UsageText: string :=
    "ERRO: Formato inv\U{C3}\U{A1}lido. Use: <POWMIN> <POWMAX> [engine]\n"
    + "Exemplo: 3 6 spark\n"
    + "Engines dispon\U{C3}\U{AD}veis: openmp, spark, auto"
  const RangeText: string := "ERRO: POWMIN deve estar entre 3-15 e POWMIN <= POWMAX"
  const FormatError: string := "Formato inv\U{C3}\U{A1}lido de entrada"
  const RangeError: string := "Par\U{C3}\U{A2}metros inv\U{C3}\U{A1}lidos"
  /** The engine name recorded when the line could not be parsed. */
  const UnknownEngine: string := "unknown"
  /** `%.6f` of the 0.0 processing time reported for rejected requests. */
  const ZeroTime: string := "0.000000"

  function Rule(n: nat): string {
    seq(n, _ => '=')
  }

  const SuccessHeader: string := "=== PSPD - Resultado do Processamento ==="
  const FailureHeader: string := "=== PSPD - Erro no Processamento ==="
  const SuccessStatus: string := "Status: SUCESSO"
  const FailureStatus: string := "Status: FALHA"

  function EngineLine(engine: string): string {
    "Engine: " + engine
  }

  function SizesLine(powmin: int, powmax: int): string {
    "POWMIN: " + IntToString(powmin) + ", POWMAX: " + IntToString(powmax)
  }

  function IdLine(id: int): string {
    "Request ID: " + IntToString(id)
  }

  /** The lines of the success reply; the format string separates them with newlines. */
  function SuccessLines(engine: string, powmin: int, powmax: int, id: int, details: string): seq<string> {
    [SuccessHeader, EngineLine(engine), SizesLine(powmin, powmax), IdLine(id), SuccessStatus, "",
     "Detalhes:", details, Rule(41)]
  }

  function FailureLines(engine: string, powmin: int, powmax: int, id: int, error: string): seq<string> {
    [FailureHeader, EngineLine(engine), SizesLine(powmin, powmax), IdLine(id), FailureStatus, "",
     "Erro: " + error, Rule(35)]
  }

  /** The reply as `snprintf` leaves it in `char response[2048]`. */
  function ReplyText(success: bool, engine: string, powmin: int, powmax: int, id: int, text: string): (r: string)
    ensures |r| < BufferSize
  {
    Bounded(
      Join(if success then SuccessLines(engine, powmin, powmax, id, text)
           else FailureLines(engine, powmin, powmax, id, text), '\n'),
      BufferSize)
  }

  /** The C string `sscanf` reads: the received bytes up to the first NUL. */
  function Line(c: Connection): string {
    CStr(c.received)
  }

  /** What the C code needs to stay within defined behaviour: the session counters can be
      incremented, `recv` filled at most `BUFFER_SIZE - 1` bytes, `sscanf` stored numbers
      that fit an `int` and an engine name that fits `engine_type[32]`, and a fallback
      selection can increment `engine_counter`. */
  predicate CanHandle(s: Server, c: Connection) {
    Stats.Fits(s.stats) && s.stats.active < INT_MAX && s.stats.total < INT_MAX
    && s.counter < INT_MAX
    && ConnectionFits(c)
  }

  predicate ConnectionFits(c: Connection) {
    |c.received| < BufferSize
    && (c.relay.Received? ==> |c.relay.bytes| < Relay.ReceiveSize)
    && Protocol.FitsTargets(Protocol.ScanRequest(Line(c)))
  }

  predicate IsReply(e: Effect) { e.Reply? }
  predicate IsCall(e: Effect) { e.CallBackend? }
  predicate IsReport(e: Effect) { e.Report? }

  /** Exactly one message to the client, and it comes last. */
  predicate OneReplyLast(es: seq<Effect>) {
    |es| > 0 && es[|es| - 1].Reply? && forall k :: 0 <= k < |es| - 1 ==> !es[k].Reply?
  }

  /** A line `sscanf` could not read two numbers from: a failed metrics record with the
      engine "unknown" and zero sizes, then the usage text. */
  function RejectMalformed(live: Stats.Stats, id: int, c: Connection): (es: seq<Effect>)
    ensures OneReplyLast(es) && |es| == 2 && es[0].Report?
  {
    var m := Telemetry.Metrics(c.timestamp, UnknownEngine, 0, 0, id, false, ZeroTime, c.clientIp,
      live.active, live.total, Some(FormatError));
    [Report(m), Reply(UsageText)]
  }

  /** Sizes outside the accepted range: a failed metrics record with the values as parsed,
      then the range error text. */
  function RejectRange(live: Stats.Stats, id: int, c: Connection, powmin: int, powmax: int, engine: string): (es: seq<Effect>)
    ensures OneReplyLast(es) && |es| == 2 && es[0].Report?
  {
    var m := Telemetry.Metrics(c.timestamp, engine, powmin, powmax, id, false, ZeroTime, c.clientIp,
      live.active, live.total, Some(RangeError));
    [Report(m), Reply(RangeText)]
  }

  /** The effects of an accepted request, in the order the session performs them. */
  function Accepted(call: Effect, report: Effect, reply: string): (es: seq<Effect>)
    requires call.CallBackend? && report.Report?
    ensures OneReplyLast(es) && |es| == 3 && es[0] == call && es[1] == report && es[2] == Reply(reply)
  {
    [call, report, Reply(reply)]
  }

  /** An accepted request: select a backend, call it, report, reply. */
  function Dispatch(counter: nat, live: Stats.Stats, id: int, c: Connection, powmin: int, powmax: int, engine: string)
    : (r: (nat, seq<Effect>))
    requires Selector.Explicit(engine) || counter < INT_MAX
    requires c.relay.Received? ==> |c.relay.bytes| < Relay.ReceiveSize
    ensures OneReplyLast(r.1) && |r.1| == 3 && r.1[0].CallBackend? && r.1[1].Report?
    ensures counter <= r.0 <= counter + 1
  {
    var sel := Selector.Select(counter, engine);
    var b := sel.backend;
    var out := Relay.CallEngine(b, c.relay);
    var m := Telemetry.Metrics(c.timestamp, b.name, powmin, powmax, id, out.success, c.elapsed, c.clientIp,
      live.active, live.total, if out.success then None else Some(out.text));
    (sel.counter,
     Accepted(CallBackend(b, Relay.SentRequest(b, c.relay, Relay.ProcessPath, powmin, powmax)), Report(m),
       ReplyText(out.success, b.name, powmin, powmax, id, out.text)))
  }

  /** The work between the receive and the cleanup label, given the request id and the
      counters as they stand while the session is open. */
  function Respond(counter: nat, live: Stats.Stats, id: int, c: Connection): (r: (nat, seq<Effect>))
    requires |c.received| > 0 && counter < INT_MAX
    requires c.relay.Received? ==> |c.relay.bytes| < Relay.ReceiveSize
    ensures OneReplyLast(r.1)
    ensures counter <= r.0 <= counter + 1
  {
    match Protocol.Classify(Line(c))
    case Malformed => (counter, RejectMalformed(live, id, c))
    case OutOfRange(powmin, powmax, engine) => (counter, RejectRange(live, id, c, powmin, powmax, engine))
    case Accepted(powmin, powmax, engine) => Dispatch(counter, live, id, c, powmin, powmax, engine)
  }

  /** One session from accept to cleanup. */
  function Handle(s: Server, c: Connection): (r: Session)
    requires CanHandle(s, c)
    ensures r.server.stats == Stats.Stats(s.stats.active, s.stats.total + 1)
    ensures r.requestId == s.stats.total + 1
    ensures |c.received| == 0 ==> r.effects == [] && r.server.counter == s.counter
    ensures |c.received| > 0 ==> OneReplyLast(r.effects)
    ensures s.counter <= r.server.counter <= s.counter + 1
  {
    var o := Stats.Begin(s.stats);
    var closed := Stats.End(o.stats);
    if |c.received| == 0 then Session(Server(closed, s.counter), o.requestId, [])
    else
      var r := Respond(s.counter, o.stats, o.requestId, c);
      Session(Server(closed, r.0), o.requestId, r.1)
  }

  // ---------------------------------------------------------------------------
  // What a session promises
  // ---------------------------------------------------------------------------

  function Replies(es: seq<Effect>): nat {
    if |es| == 0 then 0 else Replies(es[..|es| - 1]) + (if es[|es| - 1].Reply? then 1 else 0)
  }

  lemma {:induction false} NoReplies(es: seq<Effect>)
    requires forall k :: 0 <= k < |es| ==> !es[k].Reply?
    ensures Replies(es) == 0
    decreases |es|
  {
    if |es| > 0 {
      NoReplies(es[..|es| - 1]);
    }
  }

  /** The client gets exactly one message when something was received, and none when the
      receive failed. */
  lemma ExactlyOneReply(s: Server, c: Connection)
    requires CanHandle(s, c)
    ensures Replies(Handle(s, c).effects) == if |c.received| > 0 then 1 else 0
  {
    var es := Handle(s, c).effects;
    if |es| > 0 {
      NoReplies(es[..|es| - 1]);
    }
  }

  /** What a session does, by the outcome of parsing and validation: nothing after a failed
      receive; one failed metrics record and one error message for a line that is malformed
      or out of range, the selection counter untouched; and for an accepted line, a call to
      the selected engine, its metrics record and the reply. */
  lemma EffectsByOutcome(s: Server, c: Connection)
    requires CanHandle(s, c)
    ensures var r := Handle(s, c);
      (|c.received| == 0 ==> r.effects == [] && r.server.counter == s.counter) &&
      (|c.received| > 0 && !Protocol.Classify(Line(c)).Accepted? ==>
        r.server.counter == s.counter && |r.effects| == 2 && r.effects[0].Report?
        && !r.effects[0].metrics.success && r.effects[0].metrics.error.Some?) &&
      (|c.received| > 0 && Protocol.Classify(Line(c)).Accepted? ==>
        |r.effects| == 3 && r.effects[0].CallBackend? && r.effects[1].Report?
        && (r.effects[0].request.Some? <==> Relay.Connected(c.relay)))
  {
  }

  /** Only a line that parses and passes the range check reaches an engine. */
  lemma DispatchOnlyValid(s: Server, c: Connection)
    requires CanHandle(s, c)
    ensures (exists k :: 0 <= k < |Handle(s, c).effects| && Handle(s, c).effects[k].CallBackend?)
        <==> |c.received| > 0 && Protocol.Classify(Line(c)).Accepted?
    ensures (exists k :: 0 <= k < |Handle(s, c).effects| && Handle(s, c).effects[k].CallBackend?)
        ==> Protocol.ValidRange(Protocol.ScanRequest(Line(c)).powmin, Protocol.ScanRequest(Line(c)).powmax)
  {
    var r := Handle(s, c);
    EffectsByOutcome(s, c);
    if |c.received| > 0 && Protocol.Classify(Line(c)).Accepted? {
      assert r.effects[0].CallBackend?;
    }
  }

  /** A malformed line is reported as engine "unknown" with sizes 0 and answered with the
      usage text. */
  lemma MalformedSession(s: Server, c: Connection)
    requires CanHandle(s, c) && |c.received| > 0
    requires Protocol.ScanRequest(Line(c)).count < 2
    ensures var r := Handle(s, c);
      var m := r.effects[0].metrics;
      |r.effects| == 2 && r.effects[1] == Reply(UsageText) && r.effects[0].Report?
      && m.engine == UnknownEngine && m.powmin == 0 && m.powmax == 0 && m.requestId == r.requestId
      && m.error == Some(FormatError) && !m.success && m.processingTime == ZeroTime
  {
  }

  /** A parsed line outside the range is reported with the values as parsed and answered
      with the range message. */
  lemma RangeSession(s: Server, c: Connection)
    requires CanHandle(s, c) && |c.received| > 0
    requires Protocol.ScanRequest(Line(c)).count >= 2
    requires !Protocol.ValidRange(Protocol.ScanRequest(Line(c)).powmin, Protocol.ScanRequest(Line(c)).powmax)
    ensures var r := Handle(s, c);
      var p := Protocol.ScanRequest(Line(c));
      var m := r.effects[0].metrics;
      |r.effects| == 2 && r.effects[1] == Reply(RangeText) && r.effects[0].Report?
      && m.engine == p.engine && m.powmin == p.powmin && m.powmax == p.powmax
      && m.error == Some(RangeError) && !m.success
  {
  }

  /** The success reply is at most 216 bytes plus the engine's payload. */
  lemma {:induction false} SuccessLength(engine: string, powmin: int, powmax: int, id: int, text: string)
    requires |engine| <= 31 && IsInt32(powmin) && IsInt32(powmax) && IsInt32(id)
    ensures |Join(SuccessLines(engine, powmin, powmax, id, text), '\n')| <= 216 + |text|
  {
    Int32Length(powmin);
    Int32Length(powmax);
    Int32Length(id);
    var ls := SuccessLines(engine, powmin, powmax, id, text);
    JoinLength(ls, '\n');
    assert LengthTo(ls, 1) == 41;
    assert LengthTo(ls, 2) <= 41 + 39;
    assert LengthTo(ls, 3) <= 41 + 39 + 40;
    assert LengthTo(ls, 4) <= 41 + 39 + 40 + 23;
    assert LengthTo(ls, 5) <= 41 + 39 + 40 + 23 + 15;
    assert LengthTo(ls, 6) <= 41 + 39 + 40 + 23 + 15;
    assert LengthTo(ls, 7) <= 41 + 39 + 40 + 23 + 15 + 9;
    assert LengthTo(ls, 8) <= 41 + 39 + 40 + 23 + 15 + 9 + |text|;
    assert LengthTo(ls, 9) <= 41 + 39 + 40 + 23 + 15 + 9 + |text| + 41;
  }

  /** The failure reply is at most 199 bytes plus the error text. */
  lemma {:induction false} FailureLength(engine: string, powmin: int, powmax: int, id: int, text: string)
    requires |engine| <= 31 && IsInt32(powmin) && IsInt32(powmax) && IsInt32(id)
    ensures |Join(FailureLines(engine, powmin, powmax, id, text), '\n')| <= 199 + |text|
  {
    Int32Length(powmin);
    Int32Length(powmax);
    Int32Length(id);
    var ls := FailureLines(engine, powmin, powmax, id, text);
    JoinLength(ls, '\n');
    assert LengthTo(ls, 1) == 36;
    assert LengthTo(ls, 2) <= 36 + 39;
    assert LengthTo(ls, 3) <= 36 + 39 + 40;
    assert LengthTo(ls, 4) <= 36 + 39 + 40 + 23;
    assert LengthTo(ls, 5) <= 36 + 39 + 40 + 23 + 13;
    assert LengthTo(ls, 6) <= 36 + 39 + 40 + 23 + 13;
    assert LengthTo(ls, 7) <= 36 + 39 + 40 + 23 + 13 + 6 + |text|;
    assert LengthTo(ls, 8) <= 36 + 39 + 40 + 23 + 13 + 6 + |text| + 35;
  }

  /** The reply to an accepted request fits its buffer whole. */
  lemma {:induction false} ReplyFits(success: bool, engine: string, powmin: int, powmax: int, id: int, text: string)
    requires |engine| <= 31 && IsInt32(powmin) && IsInt32(powmax) && IsInt32(id)
    requires |text| < Relay.ResponseSize
    ensures ReplyText(success, engine, powmin, powmax, id, text)
         == Join(if success then SuccessLines(engine, powmin, powmax, id, text)
                 else FailureLines(engine, powmin, powmax, id, text), '\n')
  {
    if success {
      SuccessLength(engine, powmin, powmax, id, text);
    } else {
      FailureLength(engine, powmin, powmax, id, text);
    }
  }

  /** The reply names the engine and the request id and carries the status line and either
      the engine's payload or the error text. */
  lemma {:induction false} ReplyMentions(success: bool, engine: string, powmin: int, powmax: int, id: int, text: string)
    requires |engine| <= 31 && IsInt32(powmin) && IsInt32(powmax) && IsInt32(id)
    requires |text| < Relay.ResponseSize
    ensures var reply := ReplyText(success, engine, powmin, powmax, id, text);
      Contains(reply, EngineLine(engine)) && Contains(reply, IdLine(id))
      && (success ==> Contains(reply, SuccessStatus) && Contains(reply, text))
      && (!success ==> Contains(reply, FailureStatus) && Contains(reply, "Erro: " + text))
  {
    ReplyFits(success, engine, powmin, powmax, id, text);
    if success {
      var ls := SuccessLines(engine, powmin, powmax, id, text);
      JoinContains(ls, '\n', 1);
      JoinContains(ls, '\n', 3);
      JoinContains(ls, '\n', 4);
      JoinContains(ls, '\n', 7);
    } else {
      var ls := FailureLines(engine, powmin, powmax, id, text);
      JoinContains(ls, '\n', 1);
      JoinContains(ls, '\n', 3);
      JoinContains(ls, '\n', 4);
      JoinContains(ls, '\n', 6);
    }
  }

  /** An accepted request calls the selected engine, and the GET with the parsed sizes is
      handed to `send` once the connection is made; the metrics
      record carries an error exactly when the relay failed, and the reply names the engine
      and the request id and holds either the success status with the engine's payload or
      the failure status with the relay's error text. */
  lemma {:induction false} AcceptedSession(s: Server, c: Connection)
    requires CanHandle(s, c) && |c.received| > 0
    requires Protocol.Classify(Line(c)).Accepted?
    ensures var r := Handle(s, c);
      var p := Protocol.ScanRequest(Line(c));
      var sel := Selector.Select(s.counter, p.engine);
      var out := Relay.CallEngine(sel.backend, c.relay);
      var m := r.effects[1].metrics;
      var reply := r.effects[2].text;
      |r.effects| == 3 && r.effects[1].Report? && r.effects[2].Reply?
      && r.effects[0] == CallBackend(sel.backend, Relay.SentRequest(sel.backend, c.relay, Relay.ProcessPath, p.powmin, p.powmax))
      && r.server.counter == sel.counter
      && m.engine == sel.backend.name && m.powmin == p.powmin && m.powmax == p.powmax
      && m.requestId == r.requestId && m.success == out.success
      && (m.error.None? <==> out.success) && (!out.success ==> m.error == Some(out.text))
      && Contains(reply, EngineLine(sel.backend.name)) && Contains(reply, IdLine(r.requestId))
      && (out.success ==> Contains(reply, SuccessStatus) && Contains(reply, out.text))
      && (!out.success ==> Contains(reply, FailureStatus) && Contains(reply, "Erro: " + out.text))
  {
    var r := Handle(s, c);
    var p := Protocol.ScanRequest(Line(c));
    var sel := Selector.Select(s.counter, p.engine);
    var out := Relay.CallEngine(sel.backend, c.relay);
    var id := r.requestId;
    var name := sel.backend.name;
    assert |name| <= 31;
    ReplyMentions(out.success, name, p.powmin, p.powmax, id, out.text);
    assert r.effects[2] == Reply(ReplyText(out.success, name, p.powmin, p.powmax, id, out.text));
  }

  /** The round-robin counter never passes the request total: a session adds one request
      and advances the counter by at most one. From `Start` on, the bound `CanHandle` puts
      on the counter therefore follows from the one on the total. */
  lemma CounterWithinTotal(s: Server, c: Connection)
    requires CanHandle(s, c) && s.counter <= s.stats.total
    ensures Handle(s, c).server.counter <= Handle(s, c).server.stats.total
  {
  }

  /** The connection-side conditions every session of a run meets, and room in the counters
      for all of them. */
  predicate CanRun(s: Server, cs: seq<Connection>) {
    Stats.Fits(s.stats) && s.stats.active < INT_MAX
    && s.stats.total + |cs| <= INT_MAX && s.counter + |cs| <= INT_MAX
    && forall i :: 0 <= i < |cs| ==> ConnectionFits(cs[i])
  }

  /** After one session, which counts one request and advances the selection counter by at
      most one, the remaining sessions still fit. */
  lemma CanRunNext(s: Server, t: Server, cs: seq<Connection>)
    requires |cs| > 0 && CanRun(s, cs)
    requires t.stats == Stats.Stats(s.stats.active, s.stats.total + 1)
    requires s.counter <= t.counter <= s.counter + 1
    ensures CanRun(t, cs[1..])
  {
    assert forall i :: 0 <= i < |cs| - 1 ==> cs[1..][i] == cs[i + 1];
  }

  /** The ids `first, first + 1, …` in order. */
  predicate Consecutive(ids: seq<int>, first: int) {
    forall i :: 0 <= i < |ids| ==> ids[i] == first + i
  }

  lemma ConsecutiveCons(first: int, ids: seq<int>)
    requires Consecutive(ids, first + 1)
    ensures Consecutive([first] + ids, first)
  {
    forall i | 0 <= i < 1 + |ids| ensures ([first] + ids)[i] == first + i {
      if i > 0 {
        assert ([first] + ids)[i] == ids[i - 1];
      }
    }
  }

  /** Sessions handled one after another: the final state and the request ids in order.
      They get the ids `total + 1, total + 2, …`, leave the number of active clients where
      it was and count every session, including those whose receive failed. */
  function Run(s: Server, cs: seq<Connection>): (r: (Server, seq<int>))
    requires CanRun(s, cs)
    ensures |r.1| == |cs| && Consecutive(r.1, s.stats.total + 1)
    ensures r.0.stats == Stats.Stats(s.stats.active, s.stats.total + |cs|)
    decreases |cs|
  {
    if |cs| == 0 then (s, [])
    else
      var step := Handle(s, cs[0]);
      CanRunNext(s, step.server, cs);
      var rest := Run(step.server, cs[1..]);
      ConsecutiveCons(step.requestId, rest.1);
      (rest.0, [step.requestId] + rest.1)
  }
}
