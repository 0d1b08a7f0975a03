/** The token-bucket rate limiter with borrowing, in memory and in Postgres, over real time in seconds. */
module RateLimiter {
  import opened Sequences

  /** Tokens may go negative: they are borrowed from future refills. */
  datatype Bucket = Bucket(tokens: real, lastRefill: real)

  /** One call reads the clock twice: first to refill, then to remember the refill. */
  datatype Call = Call(first: real, second: real, cost: real)

  function Min(a: real, b: real): real {
    if a < b then a else b
  }

  function Max(a: real, b: real): real {
    if a < b then b else a
  }

  function After(b: Bucket, maxRps: real, c: Call): Bucket {
    Bucket(Min(maxRps, b.tokens + (c.first - b.lastRefill) * maxRps) - c.cost, c.second)
  }

  function WaitFor(tokens: real, maxRps: real): real
    requires maxRps > 0.0
  {
    if tokens >= 0.0 then 0.0 else -tokens / maxRps
  }

  function Run(b: Bucket, maxRps: real, calls: seq<Call>): Bucket {
    if calls == [] then b else After(Run(b, maxRps, calls[..|calls| - 1]), maxRps, calls[|calls| - 1])
  }

  /** When call `i` proceeds: the moment it returns, plus the wait it was told. */
  function StartOf(b: Bucket, maxRps: real, calls: seq<Call>, i: nat): real
    requires maxRps > 0.0 && i < |calls|
  {
    calls[i].second + WaitFor(Run(b, maxRps, calls[..i + 1]).tokens, maxRps)
  }

  /** The clock does not run backwards, and costs are not negative. */
  ghost predicate Proper(b: Bucket, calls: seq<Call>) {
    && (forall i :: 0 <= i < |calls| ==> calls[i].first <= calls[i].second && calls[i].cost >= 0.0)
    && (forall i :: 0 < i < |calls| ==> calls[i - 1].second <= calls[i].first)
    && (calls != [] ==> b.lastRefill <= calls[0].first)
  }

  function Sum(calls: seq<Call>): real {
    if calls == [] then 0.0 else Sum(calls[..|calls| - 1]) + calls[|calls| - 1].cost
  }

  // ---- Time measured in tokens ----

  /** What a time span refills. */
  function Refill(maxRps: real, span: real): real {
    maxRps * span
  }

  lemma RefillMonotone(r: real, x: real, y: real)
    requires r > 0.0
    ensures Refill(r, x) <= Refill(r, y) <==> x <= y
  {
    assert Refill(r, y) - Refill(r, x) == r * (y - x);
    if y < x {
      NegativeProduct(r, y - x);
    }
  }

  lemma NegativeProduct(r: real, d: real)
    requires r > 0.0 && d < 0.0
    ensures r * d < 0.0
  {
  }

  lemma RefillDifference(r: real, x: real, y: real)
    ensures Refill(r, y - x) == Refill(r, y) - Refill(r, x)
    ensures Refill(r, x + 1.0) == Refill(r, x) + r
    ensures Refill(r, 0.0) == 0.0
  {
  }

  /** The moment the balance is back at zero, in tokens. */
  function Due(b: Bucket, maxRps: real): real {
    Refill(maxRps, b.lastRefill) - b.tokens
  }

  /** Every call pushes the due moment back by its cost. */
  lemma DueGrows(b: Bucket, maxRps: real, c: Call)
    requires maxRps > 0.0 && c.first <= c.second
    ensures Due(After(b, maxRps, c), maxRps) >= Due(b, maxRps) + c.cost
  {
    RefillMonotone(maxRps, c.first, c.second);
    RefillDifference(maxRps, b.lastRefill, c.first);
    assert (c.first - b.lastRefill) * maxRps == Refill(maxRps, c.first - b.lastRefill);
  }

  /** A call starts at its return or at the due moment, whichever is later. */
  lemma ScaledStart(tokens: real, second: real, maxRps: real)
    requires maxRps > 0.0
    ensures Refill(maxRps, second + WaitFor(tokens, maxRps)) ==
            Max(Refill(maxRps, second), Due(Bucket(tokens, second), maxRps))
  {
    if tokens < 0.0 {
      assert maxRps * (second + -tokens / maxRps) == maxRps * second + maxRps * (-tokens / maxRps);
      assert maxRps * (-tokens / maxRps) == -tokens;
    }
  }

  lemma RunSnoc(b: Bucket, maxRps: real, calls: seq<Call>, i: nat)
    requires i < |calls|
    ensures Run(b, maxRps, calls[..i + 1]) == After(Run(b, maxRps, calls[..i]), maxRps, calls[i])
  {
    assert calls[..i + 1][..i] == calls[..i];
  }

  /** Due moment after call `i`. */
  function DueAt(b: Bucket, maxRps: real, calls: seq<Call>, i: nat): real
    requires i < |calls|
  {
    Due(Run(b, maxRps, calls[..i + 1]), maxRps)
  }

  lemma StartInTokens(b: Bucket, maxRps: real, calls: seq<Call>, i: nat)
    requires maxRps > 0.0 && i < |calls|
    ensures var returned := Refill(maxRps, calls[i].second);
            && Refill(maxRps, StartOf(b, maxRps, calls, i)) == Max(returned, DueAt(b, maxRps, calls, i))
            && returned <= DueAt(b, maxRps, calls, i) + maxRps - calls[i].cost
  {
    hide Refill;
    var bucket := Run(b, maxRps, calls[..i + 1]);
    RunSnoc(b, maxRps, calls, i);
    ScaledStart(bucket.tokens, calls[i].second, maxRps);
  }

  lemma {:induction false} DueGrowsFrom(b: Bucket, maxRps: real, calls: seq<Call>, i: nat, j: nat)
    requires maxRps > 0.0 && Proper(b, calls) && i <= j < |calls|
    ensures DueAt(b, maxRps, calls, j) >= DueAt(b, maxRps, calls, i) + Sum(calls[i + 1..j + 1])
    decreases j
  {
    hide Refill;
    if i < j {
      DueGrowsFrom(b, maxRps, calls, i, j - 1);
      RunSnoc(b, maxRps, calls, j);
      DueGrows(Run(b, maxRps, calls[..j]), maxRps, calls[j]);
      assert calls[i + 1..j + 1][..j - i - 1] == calls[i + 1..j];
    }
  }

  lemma {:induction false} SumFrom(calls: seq<Call>, i: nat, j: nat)
    requires i <= j < |calls|
    ensures Sum(calls[i..j + 1]) == calls[i].cost + Sum(calls[i + 1..j + 1])
    decreases j
  {
    if i == j {
      assert calls[i..j + 1][..0] == [] && calls[i + 1..j + 1] == [];
    } else {
      SumFrom(calls, i, j - 1);
      assert calls[i..j + 1][..j - i] == calls[i..j];
      assert calls[i + 1..j + 1][..j - i - 1] == calls[i + 1..j];
    }
  }

  lemma {:induction false} SecondsAscend(b: Bucket, calls: seq<Call>, i: nat, j: nat)
    requires Proper(b, calls) && i <= j < |calls|
    ensures calls[i].second <= calls[j].second
    decreases j
  {
    if i < j {
      SecondsAscend(b, calls, i, j - 1);
    }
  }

  lemma {:induction false} SumNonNegative(calls: seq<Call>)
    requires forall i :: 0 <= i < |calls| ==> calls[i].cost >= 0.0
    ensures Sum(calls) >= 0.0
  {
    if calls != [] {
      SumNonNegative(calls[..|calls| - 1]);
    }
  }

  /** Calls proceed in the order in which they were made. */
  lemma StartsAscend(b: Bucket, maxRps: real, calls: seq<Call>, i: nat, j: nat)
    requires maxRps > 0.0 && Proper(b, calls) && i <= j < |calls|
    ensures StartOf(b, maxRps, calls, i) <= StartOf(b, maxRps, calls, j)
  {
    hide Refill, DueAt, StartOf;
    StartInTokens(b, maxRps, calls, i);
    StartInTokens(b, maxRps, calls, j);
    DueGrowsFrom(b, maxRps, calls, i, j);
    SumNonNegative(calls[i + 1..j + 1]);
    SecondsAscend(b, calls, i, j);
    RefillMonotone(maxRps, calls[i].second, calls[j].second);
    RefillMonotone(maxRps, StartOf(b, maxRps, calls, i), StartOf(b, maxRps, calls, j));
  }

  /** The cost of calls `i..j` is bounded by the time between their starts plus one burst. */
  lemma CostBetween(b: Bucket, maxRps: real, calls: seq<Call>, i: nat, j: nat)
    requires maxRps > 0.0 && Proper(b, calls) && i <= j < |calls|
    ensures Sum(calls[i..j + 1]) <=
            Refill(maxRps, StartOf(b, maxRps, calls, j) - StartOf(b, maxRps, calls, i)) + Max(maxRps, calls[i].cost)
  {
    hide Refill, DueAt, StartOf;
    StartInTokens(b, maxRps, calls, i);
    StartInTokens(b, maxRps, calls, j);
    DueGrowsFrom(b, maxRps, calls, i, j);
    SumFrom(calls, i, j);
    RefillDifference(maxRps, StartOf(b, maxRps, calls, i), StartOf(b, maxRps, calls, j));
  }

  // ---- Windows ----

  /** The cost of all calls that start within the closed window from `lo` to `hi`. */
  function CostInWindow(b: Bucket, maxRps: real, calls: seq<Call>, lo: real, hi: real, n: nat): real
    requires maxRps > 0.0 && n <= |calls|
  {
    if n == 0 then 0.0
    else
      CostInWindow(b, maxRps, calls, lo, hi, n - 1) +
      (if lo <= StartOf(b, maxRps, calls, n - 1) <= hi then calls[n - 1].cost else 0.0)
  }

  lemma {:induction false} WindowIsCovered(b: Bucket, maxRps: real, calls: seq<Call>, lo: real, hi: real, n: nat)
    returns (i: nat, j: nat)
    requires maxRps > 0.0 && Proper(b, calls) && n <= |calls|
    ensures CostInWindow(b, maxRps, calls, lo, hi, n) == 0.0 ||
            (i <= j < n
             && lo <= StartOf(b, maxRps, calls, i) <= hi && lo <= StartOf(b, maxRps, calls, j) <= hi
             && CostInWindow(b, maxRps, calls, lo, hi, n) <= Sum(calls[i..j + 1]))
  {
    hide *;
    i, j := 0, 0;
    if n == 0 {
      WindowOfNone(b, maxRps, calls, lo, hi);
    } else {
      i, j := WindowIsCovered(b, maxRps, calls, lo, hi, n - 1);
      var before := CostInWindow(b, maxRps, calls, lo, hi, n - 1);
      WindowOneMore(b, maxRps, calls, lo, hi, n);
      if lo <= StartOf(b, maxRps, calls, n - 1) <= hi {
        if before == 0.0 {
          i, j := n - 1, n - 1;
          SumOfOne(calls, n - 1);
        } else {
          CoverGrows(b, calls, i, j, n - 1);
          j := n - 1;
        }
      }
    }
  }

  lemma WindowOfNone(b: Bucket, maxRps: real, calls: seq<Call>, lo: real, hi: real)
    requires maxRps > 0.0
    ensures CostInWindow(b, maxRps, calls, lo, hi, 0) == 0.0
  {
  }

  lemma WindowOneMore(b: Bucket, maxRps: real, calls: seq<Call>, lo: real, hi: real, n: nat)
    requires maxRps > 0.0 && 0 < n <= |calls|
    ensures CostInWindow(b, maxRps, calls, lo, hi, n) == CostInWindow(b, maxRps, calls, lo, hi, n - 1) +
      (if lo <= StartOf(b, maxRps, calls, n - 1) <= hi then calls[n - 1].cost else 0.0)
  {
  }

  lemma CoverGrows(b: Bucket, calls: seq<Call>, i: nat, j: nat, k: nat)
    requires Proper(b, calls) && i <= j < k < |calls|
    ensures Sum(calls[i..j + 1]) + calls[k].cost <= Sum(calls[i..k + 1])
  {
    hide Sum;
    SumGrows(calls, i, j + 1, k);
    SumOneMore(calls, i, k);
  }

  lemma SumSnoc(calls: seq<Call>, c: Call)
    ensures Sum(calls + [c]) == Sum(calls) + c.cost
  {
    assert (calls + [c])[..|calls|] == calls;
  }

  lemma SumOneMore(calls: seq<Call>, i: nat, k: nat)
    requires i <= k < |calls|
    ensures Sum(calls[i..k + 1]) == Sum(calls[i..k]) + calls[k].cost
  {
    hide Sum;
    SliceOneMore(calls, i, k);
    SumSnoc(calls[i..k], calls[k]);
  }

  lemma SumOfOne(calls: seq<Call>, k: nat)
    requires k < |calls|
    ensures Sum(calls[k..k + 1]) == calls[k].cost
  {
    SumOneMore(calls, k, k);
  }

  lemma {:induction false} SumGrows(calls: seq<Call>, i: nat, j: nat, k: nat)
    requires i <= j <= k <= |calls| && forall x :: 0 <= x < |calls| ==> calls[x].cost >= 0.0
    ensures Sum(calls[i..j]) <= Sum(calls[i..k])
    decreases k
  {
    hide Sum;
    if j < k {
      SumGrows(calls, i, j, k - 1);
      SumOneMore(calls, i, k - 1);
    }
  }

  /** In any window the starting cost is at most the refill of its length plus one burst or one call. */
  lemma WindowBound(b: Bucket, maxRps: real, calls: seq<Call>, lo: real, hi: real, most: real)
    requires maxRps > 0.0 && Proper(b, calls) && lo <= hi
    requires forall i :: 0 <= i < |calls| ==> calls[i].cost <= most
    ensures CostInWindow(b, maxRps, calls, lo, hi, |calls|) <= Refill(maxRps, hi - lo) + Max(maxRps, most)
  {
    hide Refill, StartOf, CostInWindow;
    var i, j := WindowIsCovered(b, maxRps, calls, lo, hi, |calls|);
    RefillDifference(maxRps, 0.0, 0.0);
    RefillMonotone(maxRps, 0.0, hi - lo);
    if CostInWindow(b, maxRps, calls, lo, hi, |calls|) != 0.0 {
      CostBetween(b, maxRps, calls, i, j);
      RefillMonotone(maxRps, StartOf(b, maxRps, calls, j) - StartOf(b, maxRps, calls, i), hi - lo);
    }
  }

  /** In every window of every length `w` seconds, calls costing at most `maxRps * (w + 1)` start. */
  ghost predicate RateKept(b: Bucket, maxRps: real, calls: seq<Call>)
    requires maxRps > 0.0
  {
    forall lo: real, hi: real :: lo <= hi ==>
      CostInWindow(b, maxRps, calls, lo, hi, |calls|) <= maxRps * (hi - lo + 1.0)
  }

  lemma {:induction false} WindowHolds(b: Bucket, maxRps: real, calls: seq<Call>, lo: real, hi: real, i: nat, n: nat)
    requires maxRps > 0.0 && Proper(b, calls) && i < n <= |calls|
    requires lo <= StartOf(b, maxRps, calls, i) <= hi
    ensures CostInWindow(b, maxRps, calls, lo, hi, n) >= calls[i].cost
  {
    if n == i + 1 {
      WindowNonNegative(b, maxRps, calls, lo, hi, i);
    } else {
      WindowHolds(b, maxRps, calls, lo, hi, i, n - 1);
    }
  }

  lemma {:induction false} WindowNonNegative(b: Bucket, maxRps: real, calls: seq<Call>, lo: real, hi: real, n: nat)
    requires maxRps > 0.0 && Proper(b, calls) && n <= |calls|
    ensures CostInWindow(b, maxRps, calls, lo, hi, n) >= 0.0
  {
    if n > 0 {
      WindowNonNegative(b, maxRps, calls, lo, hi, n - 1);
    }
  }

  /** The rate is kept, for any sequence of calls, exactly when no single call costs more than one second's worth. */
  lemma RateKeptIff(b: Bucket, maxRps: real, calls: seq<Call>)
    requires maxRps > 0.0 && Proper(b, calls)
    ensures RateKept(b, maxRps, calls) <==> forall i :: 0 <= i < |calls| ==> calls[i].cost <= maxRps
  {
    hide StartOf, CostInWindow;
    if forall i :: 0 <= i < |calls| ==> calls[i].cost <= maxRps {
      forall lo: real, hi: real | lo <= hi
        ensures CostInWindow(b, maxRps, calls, lo, hi, |calls|) <= maxRps * (hi - lo + 1.0)
      {
        WindowBound(b, maxRps, calls, lo, hi, maxRps);
        RefillDifference(maxRps, hi - lo, 0.0);
      }
    } else {
      var i :| 0 <= i < |calls| && calls[i].cost > maxRps;
      var lo := StartOf(b, maxRps, calls, i);
      WindowHolds(b, maxRps, calls, lo, lo, i, |calls|);
      assert CostInWindow(b, maxRps, calls, lo, lo, |calls|) > maxRps * (lo - lo + 1.0);
    }
  }

  lemma TwoFullCalls(maxRps: real, t: real)
    requires maxRps > 0.0
    ensures var b, calls := Bucket(maxRps, t), [Call(t, t, maxRps), Call(t, t, maxRps)];
            StartOf(b, maxRps, calls, 0) == t && StartOf(b, maxRps, calls, 1) == t + 1.0
  {
    var b, c := Bucket(maxRps, t), Call(t, t, maxRps);
    assert [c, c][..1] == [c] && [c, c][..2] == [c, c] && [c][..0] == [];
    assert (t - t) * maxRps == 0.0;
    assert Run(b, maxRps, [c]) == Bucket(0.0, t);
    assert Run(b, maxRps, [c, c]) == Bucket(-maxRps, t);
  }

  /** The bound is reached: two full-rate calls at once start one second apart. */
  lemma BoundReached(maxRps: real, t: real)
    requires maxRps > 0.0
    ensures var b, calls := Bucket(maxRps, t), [Call(t, t, maxRps), Call(t, t, maxRps)];
            Proper(b, calls) && CostInWindow(b, maxRps, calls, t, t + 1.0, 2) == maxRps + maxRps
  {
    hide StartOf;
    TwoFullCalls(maxRps, t);
    var b, calls := Bucket(maxRps, t), [Call(t, t, maxRps), Call(t, t, maxRps)];
    assert CostInWindow(b, maxRps, calls, t, t + 1.0, 1) == maxRps;
  }

  // ---- When a call waits, and how long ----

  /** The time in which the bucket fills between call `i` and call `j`: from each call's return to the next call. */
  function Idle(calls: seq<Call>, i: nat, j: nat): real
    requires i <= j < |calls|
    decreases j
  {
    if i == j then 0.0 else Idle(calls, i, j - 1) + (calls[j].first - calls[j - 1].second)
  }

  /** By how much calls `i..j` cost more than a full bucket and what it is refilled with between them. */
  function Excess(maxRps: real, calls: seq<Call>, i: nat, j: nat): real
    requires i <= j < |calls|
  {
    Sum(calls[i..j + 1]) - (maxRps + maxRps * Idle(calls, i, j))
  }

  /** Some calls up to call `j` cost more than was there for them. */
  ghost predicate Overdrawn(maxRps: real, calls: seq<Call>, j: nat)
    requires j < |calls|
  {
    exists i: nat :: i <= j && Excess(maxRps, calls, i, j) > 0.0
  }

  /** The wait is the time that refills the greatest excess, and zero if there is none. */
  ghost predicate LeastWait(maxRps: real, calls: seq<Call>, j: nat, wait: real)
    requires j < |calls|
  {
    && wait >= 0.0
    && (forall i: nat :: i <= j ==> Excess(maxRps, calls, i, j) <= wait * maxRps)
    && (wait == 0.0 || exists i: nat :: i <= j && Excess(maxRps, calls, i, j) == wait * maxRps)
  }

  /** The balance after call `j` is the greatest excess, taken off. */
  ghost predicate Owes(maxRps: real, calls: seq<Call>, j: nat, tokens: real)
    requires j < |calls|
  {
    && (forall i: nat :: i <= j ==> Excess(maxRps, calls, i, j) <= -tokens)
    && exists i: nat :: i <= j && Excess(maxRps, calls, i, j) == -tokens
  }

  lemma ExcessOneMore(maxRps: real, calls: seq<Call>, i: nat, j: nat)
    requires i < j < |calls|
    ensures Excess(maxRps, calls, i, j) ==
            Excess(maxRps, calls, i, j - 1) + calls[j].cost - (calls[j].first - calls[j - 1].second) * maxRps
  {
    hide Sum;
    SumOneMore(calls, i, j);
    assert maxRps * Idle(calls, i, j) ==
           maxRps * Idle(calls, i, j - 1) + maxRps * (calls[j].first - calls[j - 1].second);
  }

  lemma ExcessOfOne(maxRps: real, calls: seq<Call>, j: nat)
    requires j < |calls|
    ensures Excess(maxRps, calls, j, j) == calls[j].cost - maxRps
  {
    hide Sum;
    SumOfOne(calls, j);
    assert maxRps * 0.0 == 0.0;
  }

  /** One more call, as the bucket sees it. */
  lemma OwesNext(maxRps: real, calls: seq<Call>, j: nat, tokens: real, next: real)
    requires 0 < j < |calls| && Owes(maxRps, calls, j - 1, tokens)
    requires var full := tokens + (calls[j].first - calls[j - 1].second) * maxRps;
      next == (if maxRps < full then maxRps else full) - calls[j].cost
    ensures Owes(maxRps, calls, j, next)
  {
    hide Excess;
    ExcessOfOne(maxRps, calls, j);
    forall i: nat | i <= j ensures Excess(maxRps, calls, i, j) <= -next {
      if i < j {
        ExcessOneMore(maxRps, calls, i, j);
      }
    }
    var i: nat :| i <= j - 1 && Excess(maxRps, calls, i, j - 1) == -tokens;
    ExcessOneMore(maxRps, calls, i, j);
    assert Excess(maxRps, calls, i, j) == -next || Excess(maxRps, calls, j, j) == -next;
  }

  lemma {:induction false} BalanceOwes(maxRps: real, created: real, calls: seq<Call>, j: nat)
    requires maxRps > 0.0 && j < |calls| && created <= calls[0].first
    ensures var bucket := Run(Bucket(maxRps, created), maxRps, calls[..j + 1]);
            bucket.lastRefill == calls[j].second && Owes(maxRps, calls, j, bucket.tokens)
    decreases j
  {
    hide Owes, Excess;
    var b := Bucket(maxRps, created);
    RunSnoc(b, maxRps, calls, j);
    if j == 0 {
      assert calls[..0] == [];
      FullBefore(maxRps, created, calls[0].first);
      OwesFirst(maxRps, calls, Run(b, maxRps, calls[..1]).tokens);
    } else {
      BalanceOwes(maxRps, created, calls, j - 1);
      OwesNext(maxRps, calls, j, Run(b, maxRps, calls[..j]).tokens, Run(b, maxRps, calls[..j + 1]).tokens);
    }
  }

  /** A full bucket stays full. */
  lemma FullBefore(maxRps: real, created: real, first: real)
    requires maxRps > 0.0 && created <= first
    ensures Min(maxRps, maxRps + (first - created) * maxRps) == maxRps
  {
    RefillMonotone(maxRps, 0.0, first - created);
    RefillDifference(maxRps, 0.0, 0.0);
    assert (first - created) * maxRps == Refill(maxRps, first - created);
  }

  lemma OwesFirst(maxRps: real, calls: seq<Call>, tokens: real)
    requires calls != [] && tokens == maxRps - calls[0].cost
    ensures Owes(maxRps, calls, 0, tokens)
  {
    hide Excess;
    ExcessOfOne(maxRps, calls, 0);
  }

  /**
   A call waits if and only if it and some calls before it cost more than a full bucket and what it is refilled
   with between them, and then as long as it takes to refill the greatest such excess.
   */
  lemma WaitIsLeast(maxRps: real, created: real, calls: seq<Call>, j: nat)
    requires maxRps > 0.0 && j < |calls| && created <= calls[0].first
    ensures var wait := WaitFor(Run(Bucket(maxRps, created), maxRps, calls[..j + 1]).tokens, maxRps);
      && LeastWait(maxRps, calls, j, wait)
      && (wait > 0.0 <==> Overdrawn(maxRps, calls, j))
  {
    hide Run, Excess;
    BalanceOwes(maxRps, created, calls, j);
    var tokens := Run(Bucket(maxRps, created), maxRps, calls[..j + 1]).tokens;
    var wait := WaitFor(tokens, maxRps);
    if tokens < 0.0 {
      assert -tokens / maxRps * maxRps == -tokens;
      PositiveFactor(wait, maxRps);
    } else {
      assert 0.0 * maxRps == 0.0;
    }
  }

  lemma PositiveFactor(w: real, r: real)
    requires r > 0.0 && w * r > 0.0
    ensures w > 0.0
  {
    if w < 0.0 {
      NegativeProduct(r, w);
    }
  }

  lemma RunAppended(b: Bucket, maxRps: real, calls: seq<Call>, c: Call)
    requires maxRps > 0.0
    ensures Run(b, maxRps, calls + [c]) == After(Run(b, maxRps, calls), maxRps, c)
    ensures StartOf(b, maxRps, calls + [c], |calls|) == c.second + WaitFor(Run(b, maxRps, calls + [c]).tokens, maxRps)
  {
    hide After, WaitFor;
    assert (calls + [c])[..|calls|] == calls && (calls + [c])[..|calls| + 1] == calls + [c];
  }

  lemma AfterIs(b: Bucket, maxRps: real, c: Call)
    ensures After(b, maxRps, c) ==
            Bucket(Min(maxRps, b.tokens + (c.first - b.lastRefill) * maxRps) - c.cost, c.second)
  {
  }

  lemma WaitIs(tokens: real, maxRps: real)
    requires maxRps > 0.0
    ensures WaitFor(tokens, maxRps) == if tokens >= 0.0 then 0.0 else -tokens / maxRps
  {
  }

  /** The in-memory limiter. */
  class InMemoryRateLimiter {
    const maxRps: real
    ghost const created: real
    var tokens: real
    var lastRefill: real
    ghost var calls: seq<Call>

    function State(): Bucket
      reads this
    {
      Bucket(tokens, lastRefill)
    }

    /** The bucket is what the calls so far made of a full one. */
    ghost predicate Valid()
      reads this
    {
      State() == Run(Bucket(maxRps, created), maxRps, calls)
    }

    constructor (maxRps: real, now: real)
      ensures this.maxRps == maxRps && created == now && calls == []
      ensures Valid() && State() == Bucket(maxRps, now)
    {
      this.maxRps := maxRps;
      tokens, lastRefill := maxRps, now;
      this.created, calls := now, [];
    }

    /** The two parameters are the clock at its first and second reading. */
    method Acquire(first: real, second: real, cost: real) returns (wait: real)
      requires maxRps > 0.0 && Valid()
      modifies this
      ensures Valid() && calls == old(calls) + [Call(first, second, cost)]
      ensures State() == After(old(State()), maxRps, Call(first, second, cost))
      ensures wait == WaitFor(tokens, maxRps)
      ensures second + wait == StartOf(Bucket(maxRps, created), maxRps, calls, |calls| - 1)
      ensures created <= calls[0].first ==>
        && LeastWait(maxRps, calls, |calls| - 1, wait)
        && (wait > 0.0 <==> Overdrawn(maxRps, calls, |calls| - 1))
    {
      hide Run, StartOf, After, WaitFor, LeastWait, Overdrawn;
      AfterIs(State(), maxRps, Call(first, second, cost));
      RunAppended(Bucket(maxRps, created), maxRps, calls, Call(first, second, cost));
      calls := calls + [Call(first, second, cost)];
      var elapsed := first - lastRefill;
      tokens := Min(maxRps, tokens + elapsed * maxRps);
      lastRefill := second;
      tokens := tokens - cost;
      WaitIs(tokens, maxRps);
      assert calls[..|calls|] == calls;
      if created <= calls[0].first {
        WaitIsLeast(maxRps, created, calls, |calls| - 1);
      }
      if tokens >= 0.0 {
        return 0.0;
      }
      wait := -tokens / maxRps;
    }
  }

  /** Whatever calls a limiter served, it kept its rate if and only if none of them cost more than a second's worth. */
  lemma LimiterKeepsRate(limiter: InMemoryRateLimiter)
    requires limiter.maxRps > 0.0 && limiter.Valid()
    requires Proper(Bucket(limiter.maxRps, limiter.created), limiter.calls)
    ensures RateKept(Bucket(limiter.maxRps, limiter.created), limiter.maxRps, limiter.calls) <==>
            forall i :: 0 <= i < |limiter.calls| ==> limiter.calls[i].cost <= limiter.maxRps
  {
    RateKeptIff(Bucket(limiter.maxRps, limiter.created), limiter.maxRps, limiter.calls);
  }
}
