/**
 * The dispatcher's shared session counters `active_clients` and `total_requests`
 * (images/socketserver/socketserver_http.c, `handle_client`). Each session increments both
 * on entry and takes the new total as its request id; the cleanup label every exit path
 * reaches decrements `active_clients` again. The mutex is not modelled: sessions run one
 * after another here.
 */
module Stats {
  import opened CText

  datatype Stats = Stats(active: int, total: int)

  const Initial: Stats := Stats(0, 0)

  /** The session's opening: both counters rise and the request id is the new total. */
  datatype Opened = Opened(stats: Stats, requestId: int)

  /** Both counters are C `int`s. */
  predicate Fits(s: Stats) {
    IsInt32(s.active) && IsInt32(s.total)
  }

  /** The increments are defined only while neither counter is already INT_MAX. */
  function Begin(s: Stats): (r: Opened)
    requires Fits(s) && s.active < INT_MAX && s.total < INT_MAX
    ensures Fits(r.stats)
    ensures r.stats.active == s.active + 1
    ensures r.stats.total == s.total + 1
    ensures r.requestId == r.stats.total
  {
    var t := Stats(s.active + 1, s.total + 1);
    Opened(t, t.total)
  }

  function End(s: Stats): (r: Stats)
    requires s.active > INT_MIN
    ensures r.active == s.active - 1 && r.total == s.total
  {
    Stats(s.active - 1, s.total)
  }

  /** A whole session leaves the active count where it was and adds one request. */
  lemma SessionBalanced(s: Stats)
    requires Fits(s) && s.active < INT_MAX && s.total < INT_MAX
    ensures var o := Begin(s);
      End(o.stats) == Stats(s.active, s.total + 1) && o.requestId == s.total + 1
  {
  }

  /** The ids `n` sessions run one after another receive, and the counters after them. */
  function Sessions(s: Stats, n: nat): (r: (seq<int>, Stats))
    requires Fits(s) && s.active < INT_MAX && s.total + n <= INT_MAX
    ensures |r.0| == n
    decreases n
  {
    if n == 0 then ([], s)
    else
      var o := Begin(s);
      var rest := Sessions(End(o.stats), n - 1);
      ([o.requestId] + rest.0, rest.1)
  }

  /** Sessions run in sequence get the ids `total + 1, total + 2, …` and leave the active
      count unchanged. */
  lemma {:induction false} SessionsConsecutive(s: Stats, n: nat)
    requires Fits(s) && s.active < INT_MAX && s.total + n <= INT_MAX
    ensures forall i :: 0 <= i < n ==> Sessions(s, n).0[i] == s.total + 1 + i
    ensures Sessions(s, n).1 == Stats(s.active, s.total + n)
    decreases n
  {
    if n > 0 {
      var t := End(Begin(s).stats);
      SessionsConsecutive(t, n - 1);
      var r := Sessions(s, n);
      assert r.0 == [s.total + 1] + Sessions(t, n - 1).0;
      forall i | 0 <= i < n ensures r.0[i] == s.total + 1 + i {
        if i > 0 { assert r.0[i] == Sessions(t, n - 1).0[i - 1]; }
      }
    }
  }
}
