/**
 * The two ends of the wire between the dispatcher and the OpenMP engine, read together:
 * the GET the dispatcher formats in `call_engine_http` is routed by the engine's
 * `handle_client` to a run of exactly the range the client asked for, and the reply the
 * engine formats comes back to the dispatcher as the JSON object it holds.
 */
module EndToEnd {
  import opened Wrappers
  import opened CText
  import Http
  import Selector
  import Relay
  import OpenMPEngine

  // ---------------------------------------------------------------------------
  // Bytes that survive the C string reading
  // ---------------------------------------------------------------------------

  predicate NulFree(s: string) {
    NUL !in s
  }

  lemma NulFreeJoin(a: string, b: string)
    requires NulFree(a) && NulFree(b)
    ensures NulFree(a + b)
  {
    forall k | 0 <= k < |a + b| ensures (a + b)[k] != NUL {
      if k < |a| { assert a[k] in a; } else { assert b[k - |a|] in b; }
    }
  }

  /** A printed number holds digits and at most a leading minus sign. */
  lemma NumberChars(v: int)
    ensures forall k :: 0 <= k < |IntToString(v)| ==> IsDigit(IntToString(v)[k]) || IntToString(v)[k] == '-'
  {
    var d := IntToString(v);
    forall k | 0 <= k < |d| ensures IsDigit(d[k]) || d[k] == '-' {
      if v < 0 && k > 0 {
        assert d[1..][k - 1] == d[k];
      }
    }
  }

  lemma NumberNulFree(v: int)
    ensures NulFree(IntToString(v)) && ' ' !in IntToString(v)
  {
    NumberChars(v);
  }

  /** Reading a buffer as a C string keeps a NUL-free head intact. */
  lemma {:induction false} CStrAppend(a: string, rest: string)
    requires NulFree(a)
    ensures CStr(a + rest) == a + CStr(rest)
    decreases |a|
  {
    if |a| > 0 {
      assert a[0] in a;
      assert NulFree(a[1..]) by {
        forall k | 0 <= k < |a| - 1 ensures a[1..][k] != NUL {
          assert a[1..][k] == a[k + 1];
          assert a[k + 1] in a;
        }
      }
      assert (a + rest)[0] == a[0] && (a + rest)[1..] == a[1..] + rest;
      CStrAppend(a[1..], rest);
    } else {
      assert a + rest == rest;
    }
  }

  // ---------------------------------------------------------------------------
  // The request
  // ---------------------------------------------------------------------------

  /** The query the dispatcher sends. */
  function Query(m: int, mx: int): string {
    (OpenMPEngine.PowminKey + IntToString(m)) + "&" + (OpenMPEngine.PowmaxKey + IntToString(mx))
  }

  const VersionSuffix: string := " HTTP/1.1"

  /** The request line of the dispatcher's GET, read as the engine reads it. */
  lemma RequestLineShape(m: int, mx: int)
    ensures Relay.RequestLine(Relay.ProcessPath, m, mx) == OpenMPEngine.ProcessPrefix + "?" + Query(m, mx) + VersionSuffix
  {
    assert "GET " + Relay.ProcessPath == OpenMPEngine.ProcessPrefix;
    assert "?powmin=" == "?" + OpenMPEngine.PowminKey;
    assert "&powmax=" == "&" + OpenMPEngine.PowmaxKey;
    Regroup("GET ", Relay.ProcessPath, "?powmin=", IntToString(m), "&powmax=", IntToString(mx), VersionSuffix,
            OpenMPEngine.ProcessPrefix, "?", OpenMPEngine.PowminKey, "&", OpenMPEngine.PowmaxKey);
  }

  /** The regrouping of the request line's pieces, on plain strings. */
  lemma Regroup(g: string, p: string, q1: string, a: string, q2: string, b: string, h: string,
                pp: string, qm: string, k1: string, amp: string, k2: string)
    requires g + p == pp && q1 == qm + k1 && q2 == amp + k2
    ensures g + p + q1 + a + q2 + b + h == pp + qm + ((k1 + a) + amp + (k2 + b)) + h
  {
  }

  lemma QueryChars(m: int, mx: int)
    ensures ' ' !in Query(m, mx) && NulFree(Query(m, mx))
    ensures IsInt32(m) && IsInt32(mx) ==> |Query(m, mx)| <= 37
  {
    var a, b := IntToString(m), IntToString(mx);
    NumberNulFree(m);
    NumberNulFree(mx);
    var q := Query(m, mx);
    assert q == "powmin=" + a + "&powmax=" + b;
    forall k | 0 <= k < |q| ensures q[k] != ' ' && q[k] != NUL {
      if k < 7 {
      } else if k < 7 + |a| {
        assert q[k] == a[k - 7];
        assert a[k - 7] in a;
      } else if k < 15 + |a| {
      } else {
        assert q[k] == b[k - 15 - |a|];
        assert b[k - 15 - |a|] in b;
      }
    }
    if IsInt32(m) && IsInt32(mx) {
      Int32Length(m);
      Int32Length(mx);
    }
  }

  /** The first `?` of the request follows the twelve bytes of `GET /process`. */
  lemma FirstQuestionMark(req: string, qs: string)
    requires OpenMPEngine.ProcessPrefix + "?" + qs <= req
    ensures Find(req, "?") == Some(12)
  {
    var p := OpenMPEngine.ProcessPrefix;
    assert req[12] == '?' && req[12..13] == "?";
    forall k | 0 <= k < 12 ensures !OccursAt(req, "?", k) {
      assert req[k] == p[k];
      assert req[k..k + 1][0] == req[k];
    }
    FindIsFirst(req, "?", 12);
  }

  /** The first ` HTTP` after the `?` follows the query when the query holds no space. */
  lemma QueryEnd(req: string, qs: string)
    requires OpenMPEngine.ProcessPrefix + "?" + qs + VersionSuffix <= req
    requires ' ' !in qs
    ensures FindFrom(req, " HTTP", 12) == Some(13 + |qs|)
  {
    var pre := OpenMPEngine.ProcessPrefix + "?";
    var e := 13 + |qs|;
    assert req[..e] == pre + qs;
    assert req[e..e + 5] == " HTTP";
    var r := FindFrom(req, " HTTP", 12);
    assert OccursAt(req, " HTTP", e);
    forall k | 12 <= k < e ensures !OccursAt(req, " HTTP", k) {
      if k + 5 <= |req| {
        assert req[k..k + 5][0] == req[k];
        if k > 12 {
          assert req[k] == qs[k - 13];
          assert qs[k - 13] in qs;
        }
      }
    }
  }

  /** `handle_client` routes any received text starting with `GET /process?<qs> HTTP/1.1`
      to the range `parse_query_params` reads from `qs`, as long as `qs` holds no space. */
  lemma RouteWithQuery(qs: string, rest: string)
    requires ' ' !in qs && |qs| < OpenMPEngine.QuerySize
    ensures OpenMPEngine.QueryOf(OpenMPEngine.ProcessPrefix + "?" + qs + VersionSuffix + rest) == Some(qs)
    ensures OpenMPEngine.QueryFits(OpenMPEngine.ProcessPrefix + "?" + qs + VersionSuffix + rest)
    ensures OpenMPEngine.RouteRequest(OpenMPEngine.ProcessPrefix + "?" + qs + VersionSuffix + rest)
         == OpenMPEngine.Process(OpenMPEngine.QueryParams(qs).powmin, OpenMPEngine.QueryParams(qs).powmax)
  {
    var req := OpenMPEngine.ProcessPrefix + "?" + qs + VersionSuffix + rest;
    assert OpenMPEngine.ProcessPrefix + "?" + qs + VersionSuffix <= req;
    FirstQuestionMark(req, qs);
    QueryEnd(req, qs);
    assert req[13..13 + |qs|] == qs;
    assert OpenMPEngine.ProcessPrefix <= req;
  }

  lemma StartOfMessage(start: string, hs: seq<Http.Header>, body: string)
    ensures start <= Http.Message(start, hs, body)
  {
  }

  /** A prefix shorter than the buffer survives the `snprintf` cut. */
  lemma PrefixSurvivesBound(p: string, s: string, size: nat)
    requires p <= s && |p| < size
    ensures p <= Bounded(s, size)
  {
  }

  /** Whatever backend it is addressed to and whatever the `snprintf` bound cuts, the GET
      the dispatcher formats for a range of two 32-bit numbers reaches the engine's router
      as a `/process` request for exactly that range. */
  lemma DispatchedRequestRoutes(b: Selector.Backend, m: int, mx: int)
    requires IsInt32(m) && IsInt32(mx)
    ensures OpenMPEngine.QueryFits(CStr(Relay.EngineRequest(b, Relay.ProcessPath, m, mx)))
    ensures OpenMPEngine.QueryOf(CStr(Relay.EngineRequest(b, Relay.ProcessPath, m, mx))) == Some(Query(m, mx))
    ensures OpenMPEngine.RouteRequest(CStr(Relay.EngineRequest(b, Relay.ProcessPath, m, mx)))
         == OpenMPEngine.Process(m, mx)
  {
    var rest := SentRequestLine(b, m, mx);
    RouteWithQuery(Query(m, mx), rest);
    OpenMPEngine.QueryRoundTrip(m, mx);
  }

  /** The engine reads the dispatcher's GET as its request line followed by some tail, and
      the query in that line holds no space and fits `query[256]`. */
  lemma SentRequestLine(b: Selector.Backend, m: int, mx: int) returns (rest: string)
    requires IsInt32(m) && IsInt32(mx)
    ensures CStr(Relay.EngineRequest(b, Relay.ProcessPath, m, mx))
         == OpenMPEngine.ProcessPrefix + "?" + Query(m, mx) + VersionSuffix + rest
    ensures ' ' !in Query(m, mx) && |Query(m, mx)| < OpenMPEngine.QuerySize
  {
    var line := Relay.RequestLine(Relay.ProcessPath, m, mx);
    var sent := Relay.EngineRequest(b, Relay.ProcessPath, m, mx);
    RequestLineShape(m, mx);
    QueryChars(m, mx);
    LineStartsRequest(b, m, mx);
    LineNulFree(m, mx);
    var tail := sent[|line|..];
    assert sent == line + tail;
    CStrAppend(line, tail);
    rest := CStr(tail);
  }

  /** The request line survives the `snprintf` bound. */
  lemma LineStartsRequest(b: Selector.Backend, m: int, mx: int)
    requires IsInt32(m) && IsInt32(mx)
    ensures Relay.RequestLine(Relay.ProcessPath, m, mx) <= Relay.EngineRequest(b, Relay.ProcessPath, m, mx)
  {
    var line := Relay.RequestLine(Relay.ProcessPath, m, mx);
    RequestLineShape(m, mx);
    QueryChars(m, mx);
    StartOfMessage(line, Relay.RequestHeaders(b), "");
    PrefixSurvivesBound(line, Http.Message(line, Relay.RequestHeaders(b), ""), Relay.RequestSize);
  }

  lemma LineNulFree(m: int, mx: int)
    ensures NulFree(Relay.RequestLine(Relay.ProcessPath, m, mx))
  {
    var qs := Query(m, mx);
    RequestLineShape(m, mx);
    QueryChars(m, mx);
    assert NulFree(OpenMPEngine.ProcessPrefix + "?");
    NulFreeJoin(OpenMPEngine.ProcessPrefix + "?", qs);
    assert NulFree(VersionSuffix);
    NulFreeJoin(OpenMPEngine.ProcessPrefix + "?" + qs, VersionSuffix);
  }

  /** The same GET never makes `handle_client` overflow `query[256]` or an `atoi`. */
  lemma DispatchedRequestDefined(b: Selector.Backend, m: int, mx: int)
    requires IsInt32(m) && IsInt32(mx)
    ensures OpenMPEngine.ProcessDefined(CStr(Relay.EngineRequest(b, Relay.ProcessPath, m, mx)))
  {
    DispatchedRequestRoutes(b, m, mx);
    OpenMPEngine.QueryValuesFit(m, mx);
  }

  // ---------------------------------------------------------------------------
  // The reply
  // ---------------------------------------------------------------------------

  lemma {:induction false} HeaderLinesNulFree(hs: seq<Http.Header>)
    requires forall h :: h in hs ==> NulFree(h.name) && NulFree(h.value)
    ensures NulFree(Http.HeaderLines(hs))
    decreases |hs|
  {
    if |hs| > 0 {
      assert hs[0] in hs;
      forall h | h in hs[1..] ensures NulFree(h.name) && NulFree(h.value) { assert h in hs; }
      HeaderLinesNulFree(hs[1..]);
      assert NulFree(": ") && NulFree(Http.CRLF);
      NulFreeJoin(hs[0].name, ": ");
      NulFreeJoin(hs[0].name + ": ", hs[0].value);
      NulFreeJoin(hs[0].name + ": " + hs[0].value, Http.CRLF);
      NulFreeJoin(hs[0].name + ": " + hs[0].value + Http.CRLF, Http.HeaderLines(hs[1..]));
    }
  }

  lemma MessageNulFree(start: string, hs: seq<Http.Header>, body: string)
    requires NulFree(start) && NulFree(body)
    requires forall h :: h in hs ==> NulFree(h.name) && NulFree(h.value)
    ensures NulFree(Http.Message(start, hs, body))
  {
    HeaderLinesNulFree(hs);
    assert NulFree(Http.CRLF);
    NulFreeJoin(start, Http.CRLF);
    NulFreeJoin(start + Http.CRLF, Http.HeaderLines(hs));
    NulFreeJoin(start + Http.CRLF + Http.HeaderLines(hs), Http.CRLF);
    NulFreeJoin(start + Http.CRLF + Http.HeaderLines(hs) + Http.CRLF, body);
  }

  lemma EngineHeadersNulFree()
    ensures NulFree(OpenMPEngine.OkStatus)
    ensures forall h :: h in [OpenMPEngine.JsonType, OpenMPEngine.AnyOrigin] ==> NulFree(h.name) && NulFree(h.value)
  {
    OkStatusNulFree();
    JsonTypeNulFree();
    AnyOriginNulFree();
    forall h | h in [OpenMPEngine.JsonType, OpenMPEngine.AnyOrigin] ensures NulFree(h.name) && NulFree(h.value) {
      assert h == OpenMPEngine.JsonType || h == OpenMPEngine.AnyOrigin;
    }
  }

  lemma OkStatusNulFree()
    ensures NulFree(OpenMPEngine.OkStatus)
  {
    assert NulFree(OpenMPEngine.OkStatus);
  }

  lemma JsonTypeNulFree()
    ensures NulFree(OpenMPEngine.JsonType.name) && NulFree(OpenMPEngine.JsonType.value)
  {
    assert NulFree(OpenMPEngine.JsonType.name);
  }

  lemma AnyOriginNulFree()
    ensures NulFree(OpenMPEngine.AnyOrigin.name) && NulFree(OpenMPEngine.AnyOrigin.value)
  {
    assert NulFree(OpenMPEngine.AnyOrigin.name);
  }

  lemma JsonHeadNulFree(success: bool, powmin: int)
    ensures NulFree("{\"success\":" + OpenMPEngine.BoolText(success) + ",\"engine\":\"OpenMP\",\"powmin\":" + IntToString(powmin))
  {
    NumberNulFree(powmin);
    assert NulFree("{\"success\":");
    assert NulFree(OpenMPEngine.BoolText(success));
    assert NulFree(",\"engine\":\"OpenMP\",\"powmin\":");
    NulFreeJoin("{\"success\":", OpenMPEngine.BoolText(success));
    NulFreeJoin("{\"success\":" + OpenMPEngine.BoolText(success), ",\"engine\":\"OpenMP\",\"powmin\":");
    NulFreeJoin("{\"success\":" + OpenMPEngine.BoolText(success) + ",\"engine\":\"OpenMP\",\"powmin\":", IntToString(powmin));
  }

  /** Adds `<lit><x>` to a NUL-free text. */
  lemma AppendField(a: string, lit: string, x: string)
    requires NulFree(a) && NulFree(lit) && NulFree(x)
    ensures NulFree(a + lit + x)
  {
    NulFreeJoin(a, lit);
    NulFreeJoin(a + lit, x);
  }

  lemma ProcessJsonNulFree(success: bool, powmin: int, powmax: int, time: string, threads: int, details: string)
    requires NulFree(time) && NulFree(details)
    ensures NulFree(OpenMPEngine.ProcessJson(success, powmin, powmax, time, threads, details))
  {
    var a := "{\"success\":" + OpenMPEngine.BoolText(success) + ",\"engine\":\"OpenMP\",\"powmin\":" + IntToString(powmin);
    JsonHeadNulFree(success, powmin);
    NumberNulFree(powmax);
    NumberNulFree(threads);
    assert NulFree(",\"powmax\":");
    AppendField(a, ",\"powmax\":", IntToString(powmax));
    var b := a + ",\"powmax\":" + IntToString(powmax);
    assert NulFree(",\"processing_time\":");
    AppendField(b, ",\"processing_time\":", time);
    var c := b + ",\"processing_time\":" + time;
    assert NulFree(",\"threads\":");
    AppendField(c, ",\"threads\":", IntToString(threads));
    var d := c + ",\"threads\":" + IntToString(threads);
    assert NulFree(",\"details\":\"");
    AppendField(d, ",\"details\":\"", details);
    var e := d + ",\"details\":\"" + details;
    assert NulFree("\"}");
    NulFreeJoin(e, "\"}");
  }

  /** A `/process` reply that fits the engine's buffer reaches the dispatcher's caller as
      the JSON object it carries, cut only to the caller's 1024-byte buffer, provided the
      clock text and the details text hold no NUL byte. */
  lemma EngineReplyRelayed(b: Selector.Backend, success: bool, powmin: int, powmax: int,
                           time: string, threads: int, details: string)
    requires NulFree(time) && NulFree(details)
    requires |Http.Message(OpenMPEngine.OkStatus, [OpenMPEngine.JsonType, OpenMPEngine.AnyOrigin],
                           OpenMPEngine.ProcessJson(success, powmin, powmax, time, threads, details))| < OpenMPEngine.ResponseSize
    ensures Relay.CallEngine(b, Relay.Received(OpenMPEngine.ProcessResponse(success, powmin, powmax, time, threads, details)))
         == Relay.Outcome(true, Bounded(OpenMPEngine.ProcessJson(success, powmin, powmax, time, threads, details), Relay.ResponseSize))
  {
    var json := OpenMPEngine.ProcessJson(success, powmin, powmax, time, threads, details);
    var hs := [OpenMPEngine.JsonType, OpenMPEngine.AnyOrigin];
    ProcessJsonNulFree(success, powmin, powmax, time, threads, details);
    EngineHeadersNulFree();
    MessageNulFree(OpenMPEngine.OkStatus, hs, json);
    OpenMPEngine.HeadersAreClean();
    Relay.RelaysBody(b, OpenMPEngine.OkStatus, hs, json);
  }
}
