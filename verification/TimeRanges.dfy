/** Remaining time ranges of a backfill, and their reconciliation when the requested window changes. */
module TimeRanges {
  import opened Options

  /** Half-open spans of instants; timestamps are compared only. */
  datatype Window = Window(gte: int, lt: int)

  datatype Range = Range(gte: int, lt: int, cursor: Option<string>)

  predicate InWindow(w: Window, t: int) {
    w.gte <= t < w.lt
  }

  predicate InRange(r: Range, t: int) {
    r.gte <= t < r.lt
  }

  ghost predicate Covers(ranges: seq<Range>, t: int) {
    exists i :: 0 <= i < |ranges| && InRange(ranges[i], t)
  }

  predicate Dropped(r: Range, incoming: Window) {
    r.lt <= incoming.gte || r.gte >= incoming.lt
  }

  /** The cursor is lost when the lower end is cut off. */
  function Trim(r: Range, incoming: Window): Range {
    Range(if r.gte < incoming.gte then incoming.gte else r.gte,
          if r.lt > incoming.lt then incoming.lt else r.lt,
          if r.gte < incoming.gte then None else r.cursor)
  }

  function Kept(remaining: seq<Range>, incoming: Window): seq<Range> {
    if remaining == [] then []
    else
      var rest, r := Kept(remaining[..|remaining| - 1], incoming), remaining[|remaining| - 1];
      if Dropped(r, incoming) then rest else rest + [Trim(r, incoming)]
  }

  function Added(accounted: Window, incoming: Window): seq<Range> {
    (if incoming.gte < accounted.gte then [Range(incoming.gte, accounted.gte, None)] else []) +
    (if incoming.lt > accounted.lt then [Range(accounted.lt, incoming.lt, None)] else [])
  }

  function Reconciled(remaining: seq<Range>, accounted: Window, incoming: Window): seq<Range> {
    Kept(remaining, incoming) + Added(accounted, incoming)
  }

  method ReconcileRanges(remaining: seq<Range>, accounted: Window, incoming: Window) returns (result: seq<Range>)
    ensures result == Reconciled(remaining, accounted, incoming)
  {
    result := [];
    for i := 0 to |remaining|
      invariant result == Kept(remaining[..i], incoming)
    {
      assert remaining[..i + 1][..i] == remaining[..i];
      var range := remaining[i];
      if range.lt <= incoming.gte || range.gte >= incoming.lt {
        continue;
      }
      result := result + [Trim(range, incoming)];
    }
    assert remaining[..|remaining|] == remaining;
    ghost var kept := result;
    if incoming.gte < accounted.gte {
      result := result + [Range(incoming.gte, accounted.gte, None)];
    }
    if incoming.lt > accounted.lt {
      result := result + [Range(accounted.lt, incoming.lt, None)];
    }
    assert result == kept + Added(accounted, incoming);
  }

  // ---- Coverage ----

  lemma CoversAppend(a: seq<Range>, b: seq<Range>, t: int)
    ensures Covers(a + b, t) <==> Covers(a, t) || Covers(b, t)
  {
    if i :| 0 <= i < |a| && InRange(a[i], t) {
      assert InRange((a + b)[i], t);
    }
    if i :| 0 <= i < |b| && InRange(b[i], t) {
      assert InRange((a + b)[|a| + i], t);
    }
    if i :| 0 <= i < |a + b| && InRange((a + b)[i], t) {
      assert if i < |a| then InRange(a[i], t) else InRange(b[i - |a|], t);
    }
  }

  lemma CoversOne(r: Range, t: int)
    ensures Covers([r], t) <==> InRange(r, t)
  {
    assert [r][0] == r;
  }

  lemma {:induction false} KeptCovers(remaining: seq<Range>, incoming: Window, t: int)
    ensures Covers(Kept(remaining, incoming), t) <==> Covers(remaining, t) && InWindow(incoming, t)
  {
    if remaining != [] {
      var front, r := remaining[..|remaining| - 1], remaining[|remaining| - 1];
      KeptCovers(front, incoming, t);
      assert remaining == front + [r];
      CoversAppend(front, [r], t);
      CoversOne(r, t);
      if !Dropped(r, incoming) {
        CoversAppend(Kept(front, incoming), [Trim(r, incoming)], t);
        CoversOne(Trim(r, incoming), t);
      }
    }
  }

  lemma AddedCovers(accounted: Window, incoming: Window, t: int)
    ensures Covers(Added(accounted, incoming), t) <==>
            incoming.gte <= t < accounted.gte || accounted.lt <= t < incoming.lt
  {
    var below := if incoming.gte < accounted.gte then [Range(incoming.gte, accounted.gte, None)] else [];
    var above := if incoming.lt > accounted.lt then [Range(accounted.lt, incoming.lt, None)] else [];
    CoversAppend(below, above, t);
    CoversOne(Range(incoming.gte, accounted.gte, None), t);
    CoversOne(Range(accounted.lt, incoming.lt, None), t);
  }

  /** What should remain: what remained inside the new window, and the part of it never accounted for. */
  ghost predicate ShouldRemain(remaining: seq<Range>, accounted: Window, incoming: Window, t: int) {
    InWindow(incoming, t) && (Covers(remaining, t) || !InWindow(accounted, t))
  }

  lemma ReconciledCovers(remaining: seq<Range>, accounted: Window, incoming: Window, t: int)
    ensures Covers(Reconciled(remaining, accounted, incoming), t) <==>
            || (Covers(remaining, t) && InWindow(incoming, t))
            || incoming.gte <= t < accounted.gte
            || accounted.lt <= t < incoming.lt
  {
    KeptCovers(remaining, incoming, t);
    AddedCovers(accounted, incoming, t);
    CoversAppend(Kept(remaining, incoming), Added(accounted, incoming), t);
  }

  /** Nothing that should remain is lost, however the window moves. */
  lemma NothingLost(remaining: seq<Range>, accounted: Window, incoming: Window, t: int)
    requires ShouldRemain(remaining, accounted, incoming, t)
    ensures Covers(Reconciled(remaining, accounted, incoming), t)
  {
    ReconciledCovers(remaining, accounted, incoming, t);
  }

  predicate Proper(w: Window) {
    w.gte < w.lt
  }

  predicate Touching(a: Window, b: Window) {
    a.gte <= b.lt && b.gte <= a.lt
  }

  ghost predicate Exact(remaining: seq<Range>, accounted: Window, incoming: Window) {
    forall t :: Covers(Reconciled(remaining, accounted, incoming), t) <==>
        ShouldRemain(remaining, accounted, incoming, t)
  }

  /** The result covers exactly what should remain if and only if the windows overlap or touch. */
  lemma ExactIffTouching(remaining: seq<Range>, accounted: Window, incoming: Window)
    requires Proper(accounted) && Proper(incoming)
    ensures Exact(remaining, accounted, incoming) <==> Touching(accounted, incoming)
  {
    if Touching(accounted, incoming) {
      forall t
        ensures Covers(Reconciled(remaining, accounted, incoming), t) <==>
            ShouldRemain(remaining, accounted, incoming, t)
      {
        ReconciledCovers(remaining, accounted, incoming, t);
      }
    } else {
      var t := if incoming.gte > accounted.lt then accounted.lt else incoming.lt;
      ReconciledCovers(remaining, accounted, incoming, t);
      assert Covers(Reconciled(remaining, accounted, incoming), t) && !ShouldRemain(remaining, accounted, incoming, t);
    }
  }

  // ---- Shape of the result ----

  predicate Apart(a: Range, b: Range) {
    a.lt <= b.gte || b.lt <= a.gte
  }

  predicate ApartFromAll(a: Range, ranges: seq<Range>) {
    forall i :: 0 <= i < |ranges| ==> Apart(a, ranges[i])
  }

  predicate Inside(r: Range, w: Window) {
    w.gte <= r.gte < r.lt <= w.lt
  }

  predicate AllInside(ranges: seq<Range>, w: Window) {
    forall i :: 0 <= i < |ranges| ==> Inside(ranges[i], w)
  }

  predicate Disjoint(ranges: seq<Range>) {
    forall i, j :: 0 <= i < j < |ranges| ==> Apart(ranges[i], ranges[j])
  }

  lemma DisjointSnoc(ranges: seq<Range>, r: Range)
    requires Disjoint(ranges) && ApartFromAll(r, ranges)
    ensures Disjoint(ranges + [r])
  {
  }

  lemma {:induction false} KeptApart(remaining: seq<Range>, incoming: Window, x: Range)
    requires ApartFromAll(x, remaining)
    ensures ApartFromAll(x, Kept(remaining, incoming))
  {
    if remaining != [] {
      KeptApart(remaining[..|remaining| - 1], incoming, x);
    }
  }

  lemma {:induction false} KeptShape(remaining: seq<Range>, accounted: Window, incoming: Window)
    requires AllInside(remaining, accounted) && Disjoint(remaining) && Proper(incoming)
    ensures AllInside(Kept(remaining, incoming), accounted) && AllInside(Kept(remaining, incoming), incoming)
    ensures Disjoint(Kept(remaining, incoming))
  {
    if remaining != [] {
      var front, r := remaining[..|remaining| - 1], remaining[|remaining| - 1];
      KeptShape(front, accounted, incoming);
      if !Dropped(r, incoming) {
        KeptApart(front, incoming, r);
        DisjointSnoc(Kept(front, incoming), Trim(r, incoming));
      }
    }
  }

  /** Non-empty disjoint ranges inside the old window become such ranges inside the new one. */
  lemma ReconciledShape(remaining: seq<Range>, accounted: Window, incoming: Window)
    requires Proper(accounted) && Proper(incoming) && Touching(accounted, incoming)
    requires AllInside(remaining, accounted) && Disjoint(remaining)
    ensures AllInside(Reconciled(remaining, accounted, incoming), incoming)
    ensures Disjoint(Reconciled(remaining, accounted, incoming))
  {
    var kept := Kept(remaining, incoming);
    KeptShape(remaining, accounted, incoming);
    var below := Range(incoming.gte, accounted.gte, None);
    var above := Range(accounted.lt, incoming.lt, None);
    var some := if incoming.gte < accounted.gte then kept + [below] else kept;
    if incoming.gte < accounted.gte {
      DisjointSnoc(kept, below);
    }
    if incoming.lt > accounted.lt {
      DisjointSnoc(some, above);
      assert Reconciled(remaining, accounted, incoming) == some + [above];
    } else {
      assert Reconciled(remaining, accounted, incoming) == some;
    }
  }

  /** A saved cursor survives only in a range whose lower end was not moved. */
  lemma {:induction false} CursorKeepsItsRange(remaining: seq<Range>, accounted: Window, incoming: Window, i: nat)
    returns (j: nat)
    requires i < |Reconciled(remaining, accounted, incoming)|
    requires Reconciled(remaining, accounted, incoming)[i].cursor.Some?
    ensures j < |remaining|
    ensures var r := Reconciled(remaining, accounted, incoming)[i];
            remaining[j].cursor == r.cursor && remaining[j].gte == r.gte && r.lt <= remaining[j].lt
    decreases |remaining|
  {
    var kept := Kept(remaining, incoming);
    assert remaining != [];
    var front, r := remaining[..|remaining| - 1], remaining[|remaining| - 1];
    if !Dropped(r, incoming) && i == |kept| - 1 {
      j := |remaining| - 1;
    } else {
      j := CursorKeepsItsRange(front, accounted, incoming,
                               if !Dropped(r, incoming) && i >= |kept| then i - 1 else i);
    }
  }

  /** What a range of the old window becomes: cut to the new one, with its cursor unless its start was cut off. */
  ghost predicate CutTo(r: Range, incoming: Window, cut: Range) {
    && (forall t :: InRange(cut, t) <==> InRange(r, t) && InWindow(incoming, t))
    && (incoming.gte <= r.gte ==> cut.gte == r.gte && cut.cursor == r.cursor)
    && (r.gte < incoming.gte ==> cut.gte == incoming.gte && cut.cursor == None)
    && (r.lt <= incoming.lt ==> cut.lt == r.lt)
  }

  predicate Meets(r: Range, incoming: Window) {
    r.gte < incoming.lt && incoming.gte < r.lt
  }

  /** Every range that meets the new window is in the result, cut to it; its cursor stays if its start does. */
  lemma {:induction false} RangeIsKept(remaining: seq<Range>, accounted: Window, incoming: Window, i: nat)
    returns (j: nat)
    requires i < |remaining| && Meets(remaining[i], incoming)
    ensures j < |Kept(remaining, incoming)| <= |Reconciled(remaining, accounted, incoming)|
    ensures CutTo(remaining[i], incoming, Reconciled(remaining, accounted, incoming)[j])
    decreases |remaining|
  {
    var front := remaining[..|remaining| - 1];
    if i < |front| {
      j := RangeIsKept(front, accounted, incoming, i);
    } else {
      j := |Kept(remaining, incoming)| - 1;
    }
  }

  /** And every range of the result is one of those, or new territory without a cursor. */
  lemma {:induction false} ResultComesFrom(remaining: seq<Range>, accounted: Window, incoming: Window, j: nat)
    requires j < |Reconciled(remaining, accounted, incoming)|
    ensures var r := Reconciled(remaining, accounted, incoming)[j];
      || (exists i :: 0 <= i < |remaining| && Meets(remaining[i], incoming) && CutTo(remaining[i], incoming, r))
      || r == Range(incoming.gte, accounted.gte, None)
      || r == Range(accounted.lt, incoming.lt, None)
    decreases |remaining|
  {
    if j < |Kept(remaining, incoming)| {
      var i := KeptComesFrom(remaining, incoming, j);
    }
  }

  lemma {:induction false} KeptComesFrom(remaining: seq<Range>, incoming: Window, j: nat) returns (i: nat)
    requires j < |Kept(remaining, incoming)|
    ensures i < |remaining| && Meets(remaining[i], incoming)
    ensures CutTo(remaining[i], incoming, Kept(remaining, incoming)[j])
    decreases |remaining|
  {
    var front, last := remaining[..|remaining| - 1], remaining[|remaining| - 1];
    if j < |Kept(front, incoming)| {
      i := KeptComesFrom(front, incoming, j);
    } else {
      i := |front|;
    }
  }

  // ---- Selecting what to read, over any chain of window changes ----

  datatype Saved = Nothing | Legacy | Progress(accounted: Window, remaining: seq<Range>)

  /** What a run starts from; a state of an older format is discarded. */
  function Select(saved: Saved, window: Window): seq<Range> {
    match saved
    case Nothing => [Range(window.gte, window.lt, None)]
    case Legacy => [Range(window.gte, window.lt, None)]
    case Progress(accounted, remaining) =>
      if accounted != window then Reconciled(remaining, accounted, window) else remaining
  }

  /**
   A run with a window ends, at any point, having saved a state for that window, or none at all; `read` holds
   the instants that have been read by then.
   */
  datatype RunResult = RunResult(window: Window, remaining: Option<seq<Range>>, read: iset<int>)

  function StateAfter(saved: Saved, run: RunResult): Saved {
    if run.remaining.None? then saved else Progress(run.window, run.remaining.value)
  }

  /** What the state no longer asks for has been read. */
  ghost predicate Honest(saved: Saved, before: iset<int>, run: RunResult) {
    && before <= run.read
    && forall t :: Covers(Select(saved, run.window), t) && !Covers(Select(StateAfter(saved, run), run.window), t) ==>
         t in run.read
  }

  ghost predicate HonestChain(saved: Saved, before: iset<int>, runs: seq<RunResult>)
    decreases |runs|
  {
    runs == [] ||
    (Honest(saved, before, runs[0]) && HonestChain(StateAfter(saved, runs[0]), runs[0].read, runs[1..]))
  }

  function ChainState(saved: Saved, runs: seq<RunResult>): Saved
    decreases |runs|
  {
    if runs == [] then saved else ChainState(StateAfter(saved, runs[0]), runs[1..])
  }

  ghost function ReadByChain(before: iset<int>, runs: seq<RunResult>): iset<int> {
    if runs == [] then before else runs[|runs| - 1].read
  }

  /** Every instant accounted for is read or remains. */
  ghost predicate Accounted(saved: Saved, read: iset<int>) {
    saved.Progress? ==> forall t :: InWindow(saved.accounted, t) ==> Covers(saved.remaining, t) || t in read
  }

  /** Then a run with any window asks for all its instants that have not been read. */
  lemma SelectsUnread(saved: Saved, read: iset<int>, window: Window, t: int)
    requires Accounted(saved, read) && InWindow(window, t)
    ensures Covers(Select(saved, window), t) || t in read
  {
    if saved.Progress? && saved.accounted != window {
      ReconciledCovers(saved.remaining, saved.accounted, window, t);
    } else if !saved.Progress? {
      CoversOne(Range(window.gte, window.lt, None), t);
    }
  }

  /** And for nothing else: a fresh start asks for its window, an unchanged window for what remains of it. */
  lemma SelectsExactly(saved: Saved, window: Window, t: int)
    ensures !saved.Progress? ==> (Covers(Select(saved, window), t) <==> InWindow(window, t))
    ensures saved.Progress? && saved.accounted == window ==>
      (Covers(Select(saved, window), t) <==> Covers(saved.remaining, t))
  {
    CoversOne(Range(window.gte, window.lt, None), t);
  }

  lemma RunKeepsAccounted(saved: Saved, before: iset<int>, run: RunResult)
    requires Accounted(saved, before) && Honest(saved, before, run)
    ensures Accounted(StateAfter(saved, run), run.read)
  {
    if run.remaining.Some? {
      forall t | InWindow(run.window, t) ensures Covers(run.remaining.value, t) || t in run.read {
        SelectsUnread(saved, before, run.window, t);
      }
    }
  }

  /**
   After any chain of honest runs and window changes, cut off anywhere, no instant of any window that comes
   next is forgotten: the next run asks for it, or it has been read.
   */
  lemma {:induction false} NoInstantForgotten(saved: Saved, before: iset<int>, runs: seq<RunResult>, next: Window)
    requires Accounted(saved, before) && HonestChain(saved, before, runs)
    ensures forall t :: InWindow(next, t) ==>
              Covers(Select(ChainState(saved, runs), next), t) || t in ReadByChain(before, runs)
    decreases |runs|
  {
    if runs == [] {
      forall t | InWindow(next, t) ensures Covers(Select(saved, next), t) || t in before {
        SelectsUnread(saved, before, next, t);
      }
    } else {
      RunKeepsAccounted(saved, before, runs[0]);
      NoInstantForgotten(StateAfter(saved, runs[0]), runs[0].read, runs[1..], next);
    }
  }
}
