/** The Postgres limiter: one row per key, created by the first call, refines one in-memory limiter per key. */
module PgRateLimiter {
  import opened RateLimiter

  /** One `acquire`: the statement reads the clock once. */
  datatype Request = Request(key: string, now: real, cost: real)

  type Rows = map<string, Bucket>

  /** INSERT the first row with a full bucket, or refill and deduct in place. */
  function Upserted(rows: Rows, maxRps: real, r: Request): Rows {
    if r.key !in rows then rows[r.key := Bucket(maxRps - r.cost, r.now)]
    else
      var row := rows[r.key];
      rows[r.key := Bucket(Min(maxRps, row.tokens + (r.now - row.lastRefill) * maxRps) - r.cost, r.now)]
  }

  /** The wait, from the balance before the deduction. */
  function WaitAfter(afterDeduct: real, cost: real, maxRps: real): real
    requires maxRps > 0.0
  {
    var beforeDeduct := afterDeduct + cost;
    if beforeDeduct >= cost then 0.0 else (cost - beforeDeduct) / maxRps
  }

  // ---- Runs ----

  function RunRows(rows: Rows, maxRps: real, rs: seq<Request>): Rows {
    if rs == [] then rows else Upserted(RunRows(rows, maxRps, rs[..|rs| - 1]), maxRps, rs[|rs| - 1])
  }

  /** The wait told to request `i` of a run that starts without any row. */
  function WaitOf(maxRps: real, rs: seq<Request>, i: nat): real
    requires maxRps > 0.0 && i < |rs|
  {
    var rows := RunRows(map[], maxRps, rs[..i + 1]);
    WaitAfter(if rs[i].key in rows then rows[rs[i].key].tokens else maxRps, rs[i].cost, maxRps)
  }

  /** The requests of one key, as calls of an in-memory limiter with the same clock readings. */
  function CallsOf(rs: seq<Request>, key: string): seq<Call> {
    if rs == [] then []
    else
      var rest, r := CallsOf(rs[..|rs| - 1], key), rs[|rs| - 1];
      if r.key == key then rest + [Call(r.now, r.now, r.cost)] else rest
  }

  lemma CallsSnoc(rs: seq<Request>, r: Request, key: string)
    ensures CallsOf(rs + [r], key) ==
            if r.key == key then CallsOf(rs, key) + [Call(r.now, r.now, r.cost)] else CallsOf(rs, key)
  {
    assert (rs + [r])[..|rs|] == rs;
  }

  /** The row of a key is the state of an in-memory limiter created before the key's first request. */
  ghost predicate Simulates(rows: Rows, maxRps: real, rs: seq<Request>, key: string, created: real) {
    var calls := CallsOf(rs, key);
    if calls == [] then key !in rows
    else key in rows && rows[key] == Run(Bucket(maxRps, created), maxRps, calls)
  }

  /** The first call finds a full bucket, whether it inserts the row or refills an idle one. */
  lemma FirstCall(maxRps: real, created: real, r: Request)
    requires maxRps > 0.0 && created <= r.now
    ensures After(Bucket(maxRps, created), maxRps, Call(r.now, r.now, r.cost)) == Bucket(maxRps - r.cost, r.now)
  {
    RefillMonotone(maxRps, 0.0, r.now - created);
    RefillDifference(maxRps, 0.0, 0.0);
    assert (r.now - created) * maxRps == Refill(maxRps, r.now - created);
  }

  lemma {:induction false} RowsSimulate(maxRps: real, rs: seq<Request>, key: string, created: real)
    requires maxRps > 0.0 && forall i :: 0 <= i < |rs| && rs[i].key == key ==> created <= rs[i].now
    ensures Simulates(RunRows(map[], maxRps, rs), maxRps, rs, key, created)
  {
    if rs != [] {
      var front, r := rs[..|rs| - 1], rs[|rs| - 1];
      RowsSimulate(maxRps, front, key, created);
      assert rs == front + [r];
      var calls := CallsOf(front, key);
      var call := Call(r.now, r.now, r.cost);
      if r.key == key {
        assert (calls + [call])[..|calls|] == calls;
        if calls == [] {
          FirstCall(maxRps, created, r);
        }
      }
    }
  }

  lemma SameWait(tokens: real, cost: real, maxRps: real)
    requires maxRps > 0.0
    ensures WaitAfter(tokens, cost, maxRps) == WaitFor(tokens, maxRps)
  {
  }

  /**
   In any interleaving of keys, request `i` is told exactly the wait that an in-memory limiter,
   used for its key alone with the same clock readings and costs, tells.
   */
  lemma WaitsRefine(maxRps: real, rs: seq<Request>, i: nat, created: real)
    requires maxRps > 0.0 && i < |rs|
    requires forall j :: 0 <= j <= i && rs[j].key == rs[i].key ==> created <= rs[j].now
    ensures WaitOf(maxRps, rs, i) ==
            WaitFor(Run(Bucket(maxRps, created), maxRps, CallsOf(rs[..i + 1], rs[i].key)).tokens, maxRps)
  {
    var front, r := rs[..i], rs[i];
    assert rs[..i + 1] == front + [r];
    CallsSnoc(front, r, r.key);
    RowsSimulate(maxRps, rs[..i + 1], r.key, created);
    SameWait(RunRows(map[], maxRps, rs[..i + 1])[r.key].tokens, r.cost, maxRps);
  }

  ghost predicate CreatedBefore(rs: seq<Request>, key: string, created: real) {
    forall i :: 0 <= i < |rs| && rs[i].key == key ==> created <= rs[i].now
  }

  lemma RunRowsSnoc(rows: Rows, maxRps: real, rs: seq<Request>, r: Request)
    ensures RunRows(rows, maxRps, rs + [r]) == Upserted(RunRows(rows, maxRps, rs), maxRps, r)
  {
    assert (rs + [r])[..|rs|] == rs;
  }

  lemma LastWaitRefines(maxRps: real, rs: seq<Request>, r: Request, created: real)
    requires maxRps > 0.0 && CreatedBefore(rs + [r], r.key, created)
    ensures var rows := RunRows(map[], maxRps, rs + [r]);
      && r.key in rows
      && WaitAfter(rows[r.key].tokens, r.cost, maxRps) ==
           WaitFor(Run(Bucket(maxRps, created), maxRps, CallsOf(rs + [r], r.key)).tokens, maxRps)
  {
    CallsSnoc(rs, r, r.key);
    RowsSimulate(maxRps, rs + [r], r.key, created);
    SameWait(RunRows(map[], maxRps, rs + [r])[r.key].tokens, r.cost, maxRps);
  }

  lemma LastIsCalled(rs: seq<Request>, r: Request)
    ensures CallsOf(rs + [r], r.key) == CallsOf(rs, r.key) + [Call(r.now, r.now, r.cost)]
  {
    CallsSnoc(rs, r, r.key);
  }

  /** The least wait of the key's calls: just as long as the greatest excess takes to refill. */
  lemma LastWaitIsLeast(maxRps: real, rs: seq<Request>, r: Request, created: real)
    requires maxRps > 0.0 && CreatedBefore(rs + [r], r.key, created)
    ensures var rows, calls := RunRows(map[], maxRps, rs + [r]), CallsOf(rs + [r], r.key);
      && r.key in rows && calls != []
      && LeastWait(maxRps, calls, |calls| - 1, WaitAfter(rows[r.key].tokens, r.cost, maxRps))
  {
    hide RunRows, WaitAfter, LeastWait, CallsOf, WaitFor, Run;
    var calls := CallsOf(rs + [r], r.key);
    LastWaitRefines(maxRps, rs, r, created);
    LastIsCalled(rs, r);
    FirstCalledAfter(rs + [r], r.key, created);
    WaitIsLeast(maxRps, created, calls, |calls| - 1);
    assert calls[..|calls|] == calls;
  }

  lemma {:induction false} FirstCalledAfter(rs: seq<Request>, key: string, created: real)
    requires CreatedBefore(rs, key, created)
    ensures CallsOf(rs, key) != [] ==> created <= CallsOf(rs, key)[0].first
  {
    if rs != [] {
      FirstCalledAfter(rs[..|rs| - 1], key, created);
    }
  }

  /** Some moment precedes all requests. */
  lemma {:induction false} SomeMomentBefore(rs: seq<Request>, key: string) returns (created: real)
    ensures CreatedBefore(rs, key, created)
  {
    created := 0.0;
    if rs != [] {
      var r := rs[|rs| - 1];
      var before := SomeMomentBefore(rs[..|rs| - 1], key);
      created := if r.now < before then r.now else before;
      forall i | 0 <= i < |rs| && rs[i].key == key ensures created <= rs[i].now {
        if i < |rs| - 1 {
          assert rs[..|rs| - 1][i] == rs[i];
        }
      }
    }
  }

  // ---- The limiter ----

  class Limiter {
    const maxRps: real
    var rows: Rows
    ghost var requests: seq<Request>

    /** The rows are what the requests so far made of an empty table. */
    ghost predicate Valid()
      reads this
    {
      rows == RunRows(map[], maxRps, requests)
    }

    constructor (maxRps: real)
      ensures this.maxRps == maxRps && Valid() && rows == map[] && requests == []
    {
      this.maxRps, rows := maxRps, map[];
      requests := [];
    }

    /** The wait is the one that an in-memory limiter for the key alone tells, whenever that was created. */
    method Acquire(r: Request) returns (wait: real)
      requires maxRps > 0.0 && Valid()
      modifies this
      ensures Valid() && requests == old(requests) + [r]
      ensures rows == Upserted(old(rows), maxRps, r)
      ensures wait == WaitAfter(rows[r.key].tokens, r.cost, maxRps)
      ensures forall created: real | CreatedBefore(requests, r.key, created) ::
        wait == WaitFor(Run(Bucket(maxRps, created), maxRps, CallsOf(requests, r.key)).tokens, maxRps)
      ensures CallsOf(requests, r.key) != []
      ensures LeastWait(maxRps, CallsOf(requests, r.key), |CallsOf(requests, r.key)| - 1, wait)
    {
      ghost var before := requests;
      requests := requests + [r];
      rows := Upserted(rows, maxRps, r);
      var afterDeduct := rows[r.key].tokens;
      var beforeDeduct := afterDeduct + r.cost;
      RunRowsSnoc(map[], maxRps, before, r);
      if beforeDeduct >= r.cost {
        wait := 0.0;
      } else {
        var deficit := r.cost - beforeDeduct;
        wait := deficit / maxRps;
      }
      hide Upserted, WaitAfter, RunRows, Run, CallsOf, WaitFor, LeastWait;
      var moment := SomeMomentBefore(requests, r.key);
      LastWaitIsLeast(maxRps, before, r, moment);
      forall created: real | CreatedBefore(requests, r.key, created)
        ensures wait == WaitFor(Run(Bucket(maxRps, created), maxRps, CallsOf(requests, r.key)).tokens, maxRps)
      {
        LastWaitRefines(maxRps, before, r, created);
      }
    }
  }
}
