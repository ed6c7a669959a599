/**
 * The dispatcher's client protocol: one line `<powmin> <powmax> [engine]`, read with
 * `sscanf(buffer, "%d %d %s", …)` and then checked against the allowed size range
 * (images/socketserver/socketserver_http.c, `handle_client`).
 */
module Protocol {
  import opened Wrappers
  import opened CText

  /** The engine name `engine_type` holds before `sscanf` runs. */
  const AutoEngine: string := "auto"

  /** What `sscanf(buffer, "%d %d %s", &powmin, &powmax, engine_type)` leaves behind: its
      return value and the three targets. A target the call did not reach keeps its previous
      content: "auto" for the engine; the C integers are then uninitialised and never read,
      and they are 0 here. */
  datatype Scan = Scan(count: int, powmin: int, powmax: int, engine: string)

  /** The run of non-space bytes starting at `i`: what the `%s` conversion stores. */
  function WordAt(s: string, i: nat): (w: string)
    requires i <= |s|
    ensures CopyAt(s, i, w)
    ensures forall k :: 0 <= k < |w| ==> !IsSpace(w[k])
    ensures i + |w| == |s| || IsSpace(s[i + |w|])
    decreases |s| - i
  {
    if i < |s| && !IsSpace(s[i]) then
      var r := WordAt(s, i + 1);
      CopyAtCons(s, i, r);
      [s[i]] + r
    else
      CopyAtBytes(s, i, []);
      []
  }

  /** `sscanf` on the received C string. It returns EOF (-1) when the input ends before the
      first conversion, otherwise the number of conversions made before the first failure.
      Each ` ` directive and each conversion first skips white space; `%d` needs at least one
      digit after an optional sign; `%s` takes the longest run of non-space bytes. No token
      splitting happens beforehand, so "3 6x spark" reads the engine "x". */
  function ScanRequest(buf: string): (r: Scan)
    ensures -1 <= r.count <= 3
    ensures r.count == -1 <==> SkipSpace(buf, 0) == |buf|
    ensures r.count < 3 ==> r.engine == AutoEngine
    ensures r.count == 3 ==> |r.engine| > 0 && forall k :: 0 <= k < |r.engine| ==> !IsSpace(r.engine[k])
  {
    if SkipSpace(buf, 0) == |buf| then Scan(-1, 0, 0, AutoEngine)
    else
      match ScanDecimal(buf, 0)
      case None => Scan(0, 0, 0, AutoEngine)
      case Some(a) =>
        match ScanDecimal(buf, SkipSpace(buf, a.next))
        case None => Scan(1, a.value, 0, AutoEngine)
        case Some(b) =>
          var j := SkipSpace(buf, b.next);
          if j == |buf| then Scan(2, a.value, b.value, AutoEngine)
          else Scan(3, a.value, b.value, WordAt(buf, j))
  }

  /** The range the dispatcher accepts: the negation of
      `powmin < 3 || powmax > 15 || powmin > powmax`. */
  predicate ValidRange(powmin: int, powmax: int) {
    3 <= powmin <= powmax <= 15
  }

  /** The C buffers `sscanf` writes into can hold what it read: both numbers fit an `int`
      and the engine name fits `char engine_type[32]` with its NUL. */
  predicate FitsTargets(s: Scan) {
    IsInt32(s.powmin) && IsInt32(s.powmax) && |s.engine| <= 31
  }

  /** The outcome of parsing and validation, in the order `handle_client` checks them. */
  datatype Parsed =
    | Malformed
    | OutOfRange(powmin: int, powmax: int, engine: string)
    | Accepted(powmin: int, powmax: int, engine: string)

  function Classify(buf: string): (r: Parsed)
    ensures r.Malformed? <==> ScanRequest(buf).count < 2
    ensures r.OutOfRange? ==> !ValidRange(r.powmin, r.powmax)
    ensures r.Accepted? ==> ValidRange(r.powmin, r.powmax)
    ensures !r.Malformed? ==>
      var s := ScanRequest(buf);
      r.powmin == s.powmin && r.powmax == s.powmax && r.engine == s.engine
  {
    var s := ScanRequest(buf);
    if s.count < 2 then Malformed
    else if s.powmin < 3 || s.powmax > 15 || s.powmin > s.powmax then OutOfRange(s.powmin, s.powmax, s.engine)
    else Accepted(s.powmin, s.powmax, s.engine)
  }

  // ---------------------------------------------------------------------------
  // What the parser does on the lines a client writes
  // ---------------------------------------------------------------------------

  predicate AllSpace(s: string) {
    forall k :: 0 <= k < |s| ==> IsSpace(s[k])
  }

  /** An engine token the `%s` conversion reads whole. */
  predicate Word(e: string) {
    |e| > 0 && forall k :: 0 <= k < |e| ==> !IsSpace(e[k])
  }

  lemma SkipSpaceOver(s: string, i: nat, n: nat)
    requires i + n <= |s|
    requires forall k :: i <= k < i + n ==> IsSpace(s[k])
    requires i + n == |s| || !IsSpace(s[i + n])
    ensures SkipSpace(s, i) == i + n
    decreases n
  {
    if n > 0 {
      SkipSpaceOver(s, i + 1, n - 1);
    }
  }

  /** The word `%s` reads is the longest run of non-space bytes, so any such run that ends
      at white space or at the end of the text is that word. */
  lemma {:induction false} WordAtIs(s: string, i: nat, w: string)
    requires CopyAt(s, i, w) && forall k :: 0 <= k < |w| ==> !IsSpace(w[k])
    requires i + |w| == |s| || IsSpace(s[i + |w|])
    ensures WordAt(s, i) == w
    decreases |w|
  {
    CopyAtBytes(s, i, w);
    if |w| > 0 {
      var v := w[1..];
      assert s[i + 0] == w[0];
      assert forall k :: 0 <= k < |v| ==> s[i + 1 + k] == s[i + (k + 1)] == v[k];
      CopyAtBytes(s, i + 1, v);
      WordAtIs(s, i + 1, v);
      assert w == [w[0]] + v;
    }
  }

  lemma ScanRequestTwo(s: string, a: Scanned, b: Scanned)
    requires SkipSpace(s, 0) < |s| && ScanDecimal(s, 0) == Some(a)
    requires a.next <= |s| && ScanDecimal(s, SkipSpace(s, a.next)) == Some(b)
    requires b.next <= |s| && SkipSpace(s, b.next) == |s|
    ensures ScanRequest(s) == Scan(2, a.value, b.value, AutoEngine)
  {
  }

  lemma ScanRequestThree(s: string, a: Scanned, b: Scanned, j: nat, w: string)
    requires SkipSpace(s, 0) < |s| && ScanDecimal(s, 0) == Some(a)
    requires a.next <= |s| && ScanDecimal(s, SkipSpace(s, a.next)) == Some(b)
    requires b.next <= |s| && SkipSpace(s, b.next) == j < |s|
    requires WordAt(s, j) == w
    ensures ScanRequest(s) == Scan(3, a.value, b.value, w)
  {
  }

  /** The single space the client puts between fields. */
  const Space: string := " "

  /** A printed number starts with a digit or a minus sign, so it is never white space. */
  lemma PrintedStart(n: int)
    ensures !IsSpace(IntToString(n)[0])
  {
    var q := IntToString(n);
    if n >= 0 {
      assert IsDigit(q[0]);
    }
  }

  /** Where the text holds a copy of the printed `n` at `i` and white space or the end of
      the text follows it, `%d` started at `i` reads `n`. */
  lemma {:induction false} NumberField(s: string, i: nat, n: int)
    requires CopyAt(s, i, IntToString(n))
    requires i + |IntToString(n)| == |s| || IsSpace(s[i + |IntToString(n)|])
    ensures i < |s| && !IsSpace(s[i])
    ensures ScanDecimal(s, i) == Some(Scanned(n, i + |IntToString(n)|))
  {
    var q := IntToString(n);
    PrintedStart(n);
    CopyAtBytes(s, i, q);
    assert s[i + 0] == q[0];
    ScanPrintedAt(s, i, n);
  }

  /** A copy of all-space text that reaches the end leaves nothing for `SkipSpace`. */
  lemma {:induction false} SpaceToEnd(s: string, i: nat, tail: string)
    requires CopyAt(s, i, tail) && i + |tail| == |s| && AllSpace(tail)
    ensures SkipSpace(s, i) == |s|
  {
    CopyAtBytes(s, i, tail);
    forall k | i <= k < |s| ensures IsSpace(s[k]) {
      assert s[i + (k - i)] == tail[k - i];
    }
    SkipSpaceOver(s, i, |s| - i);
  }

  /** A copy of the single space is a space byte. */
  lemma {:induction false} SpaceAt(s: string, i: nat)
    requires CopyAt(s, i, Space)
    ensures i < |s| && s[i] == ' '
  {
    CopyAtBytes(s, i, Space);
    assert s[i + 0] == Space[0];
  }

  /** A copy of the word `engine` followed by white space up to the end is what `%s` reads. */
  lemma {:induction false} WordThenSpace(s: string, w: nat, engine: string, tail: string)
    requires Word(engine) && AllSpace(tail)
    requires CopyAt(s, w, engine) && CopyAt(s, w + |engine|, tail) && w + |engine| + |tail| == |s|
    ensures w < |s| && !IsSpace(s[w]) && WordAt(s, w) == engine
  {
    CopyAtBytes(s, w, engine);
    assert s[w + 0] == engine[0];
    CopyAtBytes(s, w + |engine|, tail);
    assert w + |engine| < |s| ==> s[w + |engine| + 0] == tail[0];
    WordAtIs(s, w, engine);
  }

  /** The line `p + " " + q + tail` with white space `tail`: the printed numbers at their
      places, the single space between them, and white space from the end of `q` on. */
  lemma {:induction false} TwoFieldsLayout(s: string, p: string, q: string, tail: string)
    requires s == p + Space + q + tail && AllSpace(tail)
    ensures CopyAt(s, 0, p) && |p| < |s| && s[|p|] == ' ' && CopyAt(s, |p| + 1, q)
    ensures SkipSpace(s, |p| + 1 + |q|) == |s|
  {
    assert |Space| == 1;
    CopyAtFour(p, Space, q, tail);
    SpaceAt(s, |p|);
    SpaceToEnd(s, |p| + 1 + |q|, tail);
  }

  /** The line `p + " " + q + " " + engine + tail` with white space `tail`: the printed
      numbers at their places, single spaces between the fields, and the word `engine` as
      what `%s` reads after the second space. */
  lemma {:induction false} ThreeFieldsLayout(s: string, p: string, q: string, engine: string, tail: string)
    requires s == p + Space + q + Space + engine + tail && Word(engine) && AllSpace(tail)
    ensures CopyAt(s, 0, p) && |p| < |s| && s[|p|] == ' ' && CopyAt(s, |p| + 1, q)
    ensures |p| + |q| + 2 < |s| && s[|p| + |q| + 1] == ' '
    ensures SkipSpace(s, |p| + |q| + 1) == |p| + |q| + 2 && WordAt(s, |p| + |q| + 2) == engine
  {
    var w := |p| + |q| + 2;
    assert |Space| == 1 && |p + Space| == |p| + 1;
    CopyAtFive(p + Space, q, Space, engine, tail);
    CopyAtSplit(s, 0, p, Space);
    SpaceAt(s, |p|);
    SpaceAt(s, w - 1);
    WordThenSpace(s, w, engine, tail);
    SkipSpaceOver(s, w - 1, 1);
  }

  /** `%d`, a space, `%d`: the two printed numbers `p` of `m` and `q` of `mx` at their places. */
  lemma {:induction false} TwoNumbersAt(s: string, m: int, mx: int, p: string, q: string)
    requires p == IntToString(m) && q == IntToString(mx)
    requires CopyAt(s, 0, p) && |p| < |s| && s[|p|] == ' ' && CopyAt(s, |p| + 1, q)
    requires |p| + 1 + |q| == |s| || IsSpace(s[|p| + 1 + |q|])
    ensures SkipSpace(s, 0) < |s| && ScanDecimal(s, 0) == Some(Scanned(m, |p|))
    ensures ScanDecimal(s, SkipSpace(s, |p|)) == Some(Scanned(mx, |p| + 1 + |q|))
  {
    NumberField(s, 0, m);
    NoSkip(s, 0);
    NumberField(s, |p| + 1, mx);
    SkipSpaceOver(s, |p|, 1);
  }

  /** Two printed numbers separated by a space, then only white space: two conversions. */
  lemma {:induction false} TwoNumbersLine(s: string, m: int, mx: int, p: string, q: string)
    requires p == IntToString(m) && q == IntToString(mx)
    requires CopyAt(s, 0, p) && |p| < |s| && s[|p|] == ' ' && CopyAt(s, |p| + 1, q)
    requires SkipSpace(s, |p| + 1 + |q|) == |s|
    ensures ScanRequest(s) == Scan(2, m, mx, AutoEngine)
  {
    TwoNumbersAt(s, m, mx, p, q);
    ScanRequestTwo(s, Scanned(m, |p|), Scanned(mx, |p| + 1 + |q|));
  }

  /** Two printed numbers and a word, separated by single spaces: three conversions. */
  lemma {:induction false} ThreeFieldsLine(s: string, m: int, mx: int, p: string, q: string, engine: string)
    requires p == IntToString(m) && q == IntToString(mx)
    requires CopyAt(s, 0, p) && |p| < |s| && s[|p|] == ' ' && CopyAt(s, |p| + 1, q)
    requires |p| + |q| + 2 < |s| && s[|p| + |q| + 1] == ' '
    requires SkipSpace(s, |p| + |q| + 1) == |p| + |q| + 2 && WordAt(s, |p| + |q| + 2) == engine
    ensures ScanRequest(s) == Scan(3, m, mx, engine)
  {
    TwoNumbersAt(s, m, mx, p, q);
    ScanRequestThree(s, Scanned(m, |p|), Scanned(mx, |p| + 1 + |q|), |p| + |q| + 2, engine);
  }

  /** The line `"<m> <M>"` followed only by white space (such as the newline a terminal
      client appends) parses as two numbers with the engine left at "auto". */
  lemma {:induction false} ScanTwoNumbers(m: int, mx: int, tail: string)
    requires AllSpace(tail)
    ensures ScanRequest(IntToString(m) + Space + IntToString(mx) + tail) == Scan(2, m, mx, AutoEngine)
  {
    var s := IntToString(m) + Space + IntToString(mx) + tail;
    TwoFieldsLayout(s, IntToString(m), IntToString(mx), tail);
    TwoNumbersLine(s, m, mx, IntToString(m), IntToString(mx));
  }

  /** The line `"<m> <M> <engine>"`, optionally followed by white space, parses into exactly
      those three values. */
  lemma {:induction false} ScanThreeFields(m: int, mx: int, engine: string, tail: string)
    requires Word(engine) && AllSpace(tail)
    ensures ScanRequest(IntToString(m) + Space + IntToString(mx) + Space + engine + tail)
         == Scan(3, m, mx, engine)
  {
    var s := IntToString(m) + Space + IntToString(mx) + Space + engine + tail;
    ThreeFieldsLayout(s, IntToString(m), IntToString(mx), engine, tail);
    ThreeFieldsLine(s, m, mx, IntToString(m), IntToString(mx), engine);
  }

  /** `sscanf` does not split on white space first: "3 6x spark" yields powmin 3, powmax 6
      and engine "x", which the selector then treats as an unknown name. */
  lemma ScanGluedSuffix()
    ensures ScanRequest("3 6x spark") == Scan(3, 3, 6, "x")
  {
    var s := "3 6x spark";
    assert IntToString(3) == "3" && IntToString(6) == "6";
    CopyAtBytes(s, 0, "3");
    CopyAtBytes(s, 2, "6");
    CopyAtBytes(s, 3, "x");
    ScanPrintedAt(s, 0, 3);
    NoSkip(s, 0);
    SkipSpaceOver(s, 1, 1);
    ScanPrintedAt(s, 2, 6);
    SkipSpaceOver(s, 3, 0);
    WordAtIs(s, 3, "x");
    ScanRequestThree(s, Scanned(3, 1), Scanned(6, 3), 3, "x");
  }
}
