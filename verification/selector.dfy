/**
 * Backend selection in the dispatcher's `handle_client`
 * (images/socketserver/socketserver_http.c): an explicit engine name picks its service,
 * any other name falls back to a round robin on the static `engine_counter`.
 */
module Selector {
  import opened CText
  import Protocol

  /** A processing engine as the dispatcher addresses it: its name, IPv4 address and port. */
  datatype Backend = Backend(name: string, host: string, port: int)

  const OpenMP: Backend := Backend("openmp", "10.108.84.193", 8081)
  const Spark: Backend := Backend("spark", "10.101.15.95", 8082)

  predicate IsBackend(b: Backend) {
    b == OpenMP || b == Spark
  }

  /** A name the client can use to bypass the round robin. */
  predicate Explicit(engine: string) {
    engine == OpenMP.name || engine == Spark.name
  }

  /** The chosen backend and the counter afterwards. `engine_type` is overwritten with the
      chosen backend's name in the fallback branch, and already equals it otherwise, so
      `backend.name` is also the engine name reported from then on. */
  datatype Selection = Selection(backend: Backend, counter: nat)

  /** `engine_counter++ % 2` on a C `int` is defined only while the counter stays below
      INT_MAX. */
  function Select(counter: nat, engine: string): (r: Selection)
    requires Explicit(engine) || counter < INT_MAX
    ensures IsBackend(r.backend) && r.backend.name != Protocol.AutoEngine
    ensures Explicit(engine) ==> r.counter == counter && r.backend.name == engine
    ensures !Explicit(engine) ==> r.counter == counter + 1
  {
    if engine == "openmp" then Selection(OpenMP, counter)
    else if engine == "spark" then Selection(Spark, counter)
    else if counter % 2 == 0 then Selection(OpenMP, counter + 1)
    else Selection(Spark, counter + 1)
  }

  /** The backends `n` consecutive fallback requests get, starting from `counter`, and the
      counter they leave behind. */
  function Fallbacks(counter: nat, n: nat): (r: (seq<Backend>, nat))
    requires counter + n <= INT_MAX
    ensures |r.0| == n && r.1 == counter + n
    decreases n
  {
    if n == 0 then ([], counter)
    else
      var s := Select(counter, Protocol.AutoEngine);
      var rest := Fallbacks(s.counter, n - 1);
      ([s.backend] + rest.0, rest.1)
  }

  function Count(bs: seq<Backend>, b: Backend): nat {
    if |bs| == 0 then 0 else (if bs[0] == b then 1 else 0) + Count(bs[1..], b)
  }

  /** Fallback requests alternate strictly, starting with OpenMP when the counter is even. */
  lemma {:induction false} FallbacksAlternate(counter: nat, n: nat)
    requires counter + n <= INT_MAX
    ensures forall i :: 0 <= i < n ==>
      Fallbacks(counter, n).0[i] == (if (counter + i) % 2 == 0 then OpenMP else Spark)
    decreases n
  {
    if n > 0 {
      var s := Select(counter, Protocol.AutoEngine);
      FallbacksAlternate(counter + 1, n - 1);
      var r := Fallbacks(counter, n);
      var rest := Fallbacks(counter + 1, n - 1);
      assert r.0 == [s.backend] + rest.0;
      forall i | 0 <= i < n
        ensures r.0[i] == (if (counter + i) % 2 == 0 then OpenMP else Spark)
      {
        if i > 0 {
          assert r.0[i] == rest.0[i - 1];
          assert counter + 1 + (i - 1) == counter + i;
        }
      }
    }
  }

  /** From the initial counter 0, `2k` fallback requests send exactly `k` to each engine. */
  lemma {:induction false} FallbacksBalanced(k: nat)
    requires 2 * k <= INT_MAX
    ensures Count(Fallbacks(0, 2 * k).0, OpenMP) == k
    ensures Count(Fallbacks(0, 2 * k).0, Spark) == k
  {
    FallbacksAlternate(0, 2 * k);
    var bs := Fallbacks(0, 2 * k).0;
    PairsCount(bs, k);
  }

  lemma {:induction false} PairsCount(bs: seq<Backend>, k: nat)
    requires |bs| == 2 * k
    requires forall i :: 0 <= i < |bs| ==> bs[i] == (if i % 2 == 0 then OpenMP else Spark)
    ensures Count(bs, OpenMP) == k && Count(bs, Spark) == k
    decreases k
  {
    if k > 0 {
      var tail := bs[2..];
      forall i | 0 <= i < |tail| ensures tail[i] == (if i % 2 == 0 then OpenMP else Spark) {
        assert tail[i] == bs[i + 2];
      }
      PairsCount(tail, k - 1);
      assert bs[1..][1..] == tail;
      assert bs[0] == OpenMP && bs[1] == Spark;
      assert OpenMP != Spark;
    }
  }
}
