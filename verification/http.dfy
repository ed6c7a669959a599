/**
 * The HTTP/1.1 text every server in the system writes by hand with `snprintf`: a start line,
 * `Name: value` header lines, an empty line, then the body (message framing of section 3
 * of RFC 7230), and the reverse step the dispatcher performs on a backend's reply: the body
 * is whatever follows the first "\r\n\r\n".
 */
module Http {
  import opened Wrappers
  import opened CText

  datatype Header = Header(name: string, value: string)

  const CRLF: string := "\r\n"

  /** The empty line that closes the header section. */
  const HeaderEnd: string := "\r\n\r\n"

  function HeaderLines(hs: seq<Header>): string {
    if |hs| == 0 then [] else hs[0].name + ": " + hs[0].value + CRLF + HeaderLines(hs[1..])
  }

  /** The number of bytes the header lines take. */
  function HeadersSize(hs: seq<Header>): nat {
    if |hs| == 0 then 0 else |hs[0].name| + |hs[0].value| + 4 + HeadersSize(hs[1..])
  }

  lemma {:induction false} HeaderLinesLength(hs: seq<Header>)
    ensures |HeaderLines(hs)| == HeadersSize(hs)
  {
    if |hs| > 0 {
      HeaderLinesLength(hs[1..]);
    }
  }

  /** An HTTP message as the servers format it. */
  function Message(start: string, hs: seq<Header>, body: string): string {
    start + CRLF + HeaderLines(hs) + CRLF + body
  }

  /** A message is its header section followed by the body. */
  lemma MessageSplit(start: string, hs: seq<Header>, body: string)
    ensures Message(start, hs, body) == Message(start, hs, []) + body
  {
  }

  /** A line the framing can carry: no carriage return inside it. */
  predicate CleanText(s: string) {
    '\r' !in s
  }

  predicate CleanHeaders(hs: seq<Header>) {
    forall h :: h in hs ==> CleanText(h.name) && CleanText(h.value)
  }

  lemma CleanJoin(a: string, b: string)
    requires CleanText(a) && CleanText(b)
    ensures CleanText(a + b)
  {
    forall k | 0 <= k < |a + b| ensures (a + b)[k] != '\r' {
      if k < |a| { assert a[k] in a; } else { assert b[k - |a|] in b; }
    }
  }

  /** `strstr(raw, "\r\n\r\n")` followed by a skip of the four separator bytes: the body of a
      received message, or `None` when the separator never occurs. */
  function ExtractBody(raw: string): (r: Option<string>)
    ensures r.None? <==> forall k :: 0 <= k <= |raw| ==> !OccursAt(raw, HeaderEnd, k)
    ensures r.Some? ==> exists k :: 0 <= k && k + 4 + |r.value| == |raw| && OccursAt(raw, HeaderEnd, k)
    ensures r.Some? ==> r.value == raw[|raw| - |r.value|..]
  {
    match Find(raw, HeaderEnd)
    case Some(k) => Some(raw[k + 4..])
    case None => None
  }

  predicate NoHeaderEnd(q: string) {
    forall k :: 0 <= k <= |q| ==> !OccursAt(q, HeaderEnd, k)
  }

  predicate EndsWithCRLF(q: string) {
    |q| >= 2 && q[|q| - 2] == '\r' && q[|q| - 1] == '\n'
  }

  lemma HeaderEndAt(s: string, k: nat)
    ensures OccursAt(s, HeaderEnd, k) <==>
      k + 4 <= |s| && s[k] == '\r' && s[k + 1] == '\n' && s[k + 2] == '\r' && s[k + 3] == '\n'
  {
    if k + 4 <= |s| {
      var w := s[k..k + 4];
      assert w[0] == s[k] && w[1] == s[k + 1] && w[2] == s[k + 2] && w[3] == s[k + 3];
    }
  }

  /** A start line followed by CRLF holds no empty line. */
  lemma StartLineClean(start: string)
    requires CleanText(start)
    ensures EndsWithCRLF(start + CRLF) && NoHeaderEnd(start + CRLF)
  {
    var s := start + CRLF;
    forall k | 0 <= k <= |s| ensures !OccursAt(s, HeaderEnd, k) {
      HeaderEndAt(s, k);
      if k < |start| {
        assert s[k] == start[k];
        assert start[k] in start;
      }
    }
  }

  /** Appending one more non-empty, CR-free line keeps the text free of empty lines. */
  lemma AppendLine(q: string, l: string)
    requires EndsWithCRLF(q) && NoHeaderEnd(q)
    requires |l| > 0 && CleanText(l)
    ensures EndsWithCRLF(q + l + CRLF) && NoHeaderEnd(q + l + CRLF)
  {
    var s := q + l + CRLF;
    forall k | 0 <= k <= |s| ensures !OccursAt(s, HeaderEnd, k) {
      HeaderEndAt(s, k);
      if k + 4 <= |q| {
        HeaderEndAt(q, k);
        assert s[k] == q[k] && s[k + 1] == q[k + 1] && s[k + 2] == q[k + 2] && s[k + 3] == q[k + 3];
      } else if k + 3 == |q| {
        assert s[k + 1] == q[|q| - 2];
      } else if k + 2 == |q| {
        assert s[k + 2] == l[0];
        assert l[0] in l;
      } else if k + 1 == |q| {
        assert s[k] == q[|q| - 1];
      } else if k < |q| + |l| {
        assert s[k] == l[k - |q|];
        assert l[k - |q|] in l;
      }
    }
  }

  lemma {:induction false} HeaderLinesClean(q: string, hs: seq<Header>)
    requires EndsWithCRLF(q) && NoHeaderEnd(q)
    requires CleanHeaders(hs)
    ensures EndsWithCRLF(q + HeaderLines(hs)) && NoHeaderEnd(q + HeaderLines(hs))
    decreases |hs|
  {
    if |hs| > 0 {
      var h := hs[0];
      assert h in hs;
      var l := h.name + ": " + h.value;
      assert l[|h.name|] == ':';
      assert CleanText(l) by {
        assert forall m :: 0 <= m < |l| ==>
          l[m] == (if m < |h.name| then h.name[m] else if m < |h.name| + 2 then ": "[m - |h.name|] else h.value[m - |h.name| - 2]);
        forall m | 0 <= m < |l| ensures l[m] != '\r' {
          if m < |h.name| { assert h.name[m] in h.name; }
          else if m >= |h.name| + 2 { assert h.value[m - |h.name| - 2] in h.value; }
        }
      }
      AppendLine(q, l);
      forall g | g in hs[1..] ensures CleanText(g.name) && CleanText(g.value) { assert g in hs; }
      HeaderLinesClean(q + l + CRLF, hs[1..]);
      assert q + HeaderLines(hs) == (q + l + CRLF) + HeaderLines(hs[1..]);
    } else {
      assert q + HeaderLines(hs) == q;
    }
  }

  /** Framing round trip: reading back a message the servers format yields exactly its body,
      whatever the body contains, as long as the start line and the headers carry no CR. */
  lemma MessageBody(start: string, hs: seq<Header>, body: string)
    requires CleanText(start) && CleanHeaders(hs)
    ensures ExtractBody(Message(start, hs, body)) == Some(body)
  {
    StartLineClean(start);
    HeaderLinesClean(start + CRLF, hs);
    var p := start + CRLF + HeaderLines(hs);
    var m := p + CRLF + body;
    assert m == Message(start, hs, body);
    HeaderEndAt(m, |p| - 2);
    forall k | 0 <= k < |p| - 2 ensures !OccursAt(m, HeaderEnd, k) {
      HeaderEndAt(m, k);
      if k + 4 <= |p| {
        HeaderEndAt(p, k);
        assert m[k] == p[k] && m[k + 1] == p[k + 1] && m[k + 2] == p[k + 2] && m[k + 3] == p[k + 3];
      } else {
        assert m[k + 1] == p[|p| - 2];
      }
    }
    FindIsFirst(m, HeaderEnd, |p| - 2);
    assert m[|p| - 2 + 4..] == body;
  }
}
