/**
 The sequential backfill of a stream: it pages through the first remaining range only, and each checkpoint
 saves that range, or nothing, as what remains.  When is the saved state honest about what has been read?
 */
module SequentialRuns {
  import opened Options
  import opened Backfill
  import T = TimeRanges

  predicate HasUnread(listing: seq<Item>, created: Item -> int, p: nat, t: int) {
    exists i :: p <= i < |listing| && created(listing[i]) == t
  }

  /** The instants without an item in the unread rest of the listing. */
  ghost function ReadUpTo(listing: seq<Item>, created: Item -> int, p: nat): iset<int> {
    iset t | !HasUnread(listing, created, p, t)
  }

  lemma ReadGrows(listing: seq<Item>, created: Item -> int, p: nat, q: nat)
    requires p <= q
    ensures ReadUpTo(listing, created, p) <= ReadUpTo(listing, created, q)
  {
  }

  lemma AllRead(listing: seq<Item>, created: Item -> int, p: nat, t: int)
    requires p >= |listing|
    ensures t in ReadUpTo(listing, created, p)
  {
  }

  // ---- One run ----

  /** One run: how the endpoint is used, the window asked for, and after how many outputs it is cut off. */
  datatype Run = Run(mode: Mode, window: T.Window, cut: nat)

  /** A run with nothing remaining ends at once; otherwise it starts from the cursor of the first range. */
  predicate CanStart(state: T.Saved, run: Run) {
    var ranges := T.Select(state, run.window);
    ranges == [] || Startable(run.mode, ranges[0].cursor)
  }

  function StartOf(state: T.Saved, run: Run): Remaining {
    var ranges := T.Select(state, run.window);
    if ranges == [] then Done else From(ranges[0].cursor)
  }

  function OutputOf(s: Server, state: T.Saved, run: Run): seq<Output>
    requires Faithful(s) && CanStart(state, run)
  {
    RunOutput(s, run.mode, StartOf(state, run), run.cut)
  }

  /** What a checkpoint of a run over these ranges saves. */
  function SavedRanges(ranges: seq<T.Range>, remaining: Remaining): seq<T.Range>
    requires ranges != []
  {
    match remaining
    case Done => []
    case From(cursor) => [T.Range(ranges[0].gte, ranges[0].lt, cursor)]
  }

  /** The ranges saved last; none when the run did not come to a checkpoint. */
  function SavedOf(s: Server, state: T.Saved, run: Run): Option<seq<T.Range>>
    requires Faithful(s) && CanStart(state, run)
  {
    var ranges, start := T.Select(state, run.window), StartOf(state, run);
    if ranges != [] && HasCheckpoint(OutputOf(s, state, run))
    then Some(SavedRanges(ranges, SavedByRun(s, run.mode, start, run.cut)))
    else None
  }

  /** How much of the listing has been read after the run, if it was `pos` before. */
  function ReadBy(s: Server, state: T.Saved, run: Run, pos: nat): (after: nat)
    requires Faithful(s) && CanStart(state, run)
    ensures after >= pos
  {
    var after := if StartOf(state, run).Done? then pos
                 else DonePosition(s, StartOf(state, run)) + |ConfirmedBy(OutputOf(s, state, run))|;
    if after > pos then after else pos
  }

  ghost function ResultOf(s: Server, created: Item -> int, state: T.Saved, run: Run, pos: nat): T.RunResult
    requires Faithful(s) && CanStart(state, run)
  {
    T.RunResult(run.window, SavedOf(s, state, run), ReadUpTo(s.listing, created, ReadBy(s, state, run, pos)))
  }

  // ---- When it is honest ----

  /** Whatever the items' times, what the run drops has been read. */
  ghost predicate AlwaysHonest(s: Server, state: T.Saved, run: Run, pos: nat)
    requires Faithful(s) && CanStart(state, run)
  {
    forall created: Item -> int ::
      T.Honest(state, ReadUpTo(s.listing, created, pos), ResultOf(s, created, state, run, pos))
  }

  ghost predicate DropsNothing(s: Server, state: T.Saved, run: Run)
    requires Faithful(s) && CanStart(state, run)
  {
    SavedOf(s, state, run).Some? ==>
      forall t :: T.Covers(T.Select(state, run.window), t) ==> T.Covers(SavedOf(s, state, run).value, t)
  }

  /** That is so if and only if nothing is dropped, or the whole listing has been read. */
  lemma AlwaysHonestIff(s: Server, state: T.Saved, run: Run, pos: nat)
    requires Faithful(s) && CanStart(state, run)
    ensures AlwaysHonest(s, state, run, pos) <==>
            ReadBy(s, state, run, pos) >= |s.listing| || DropsNothing(s, state, run)
  {
    hide T.Select, T.Covers, SavedOf, ReadBy, CanStart, Faithful;
    var after := ReadBy(s, state, run, pos);
    SelectAfter(s, state, run, pos);
    if after >= |s.listing| || DropsNothing(s, state, run) {
      forall created: Item -> int
        ensures T.Honest(state, ReadUpTo(s.listing, created, pos), ResultOf(s, created, state, run, pos))
      {
        ReadGrows(s.listing, created, pos, after);
        if after >= |s.listing| {
          forall t ensures t in ReadUpTo(s.listing, created, after) {
            AllRead(s.listing, created, after, t);
          }
        }
      }
    } else {
      var t :| T.Covers(T.Select(state, run.window), t) && !T.Covers(SavedOf(s, state, run).value, t);
      var created := (item: Item) => t;
      assert t !in ReadUpTo(s.listing, created, after) by {
        assert created(s.listing[after]) == t;
      }
      assert !T.Honest(state, ReadUpTo(s.listing, created, pos), ResultOf(s, created, state, run, pos));
    }
  }

  lemma SelectAfter(s: Server, state: T.Saved, run: Run, pos: nat)
    requires Faithful(s) && CanStart(state, run)
    ensures forall created {:trigger ResultOf(s, created, state, run, pos)} ::
              T.Select(T.StateAfter(state, ResultOf(s, created, state, run, pos)), run.window) ==
              if SavedOf(s, state, run).Some? then SavedOf(s, state, run).value else T.Select(state, run.window)
  {
  }

  /** All instants of the ranges are in the first one. */
  ghost predicate OnlyFirst(ranges: seq<T.Range>)
    requires ranges != []
  {
    forall t :: T.Covers(ranges, t) ==> T.InRange(ranges[0], t)
  }

  /**
   Nothing remained, or everything was read before; the run saves nothing; or what it saves remains, and was
   all there was to read; or it saves that nothing remains, and got to the last page.
   */
  ghost predicate HonestGuard(s: Server, state: T.Saved, run: Run, pos: nat)
    requires Faithful(s) && CanStart(state, run)
  {
    var ranges, start := T.Select(state, run.window), StartOf(state, run);
    || ranges == [] || pos >= |s.listing| || !HasCheckpoint(OutputOf(s, state, run))
    || if SavedByRun(s, run.mode, start, run.cut).From? then OnlyFirst(ranges)
       else InListing(s, start.cursor); ReachesLastPage(s, run.mode, DonePosition(s, start), 0)
  }

  /**
   A run in any mode, cut off anywhere, leaves an honest state if the guard holds, and only then, unless the
   first range is empty.
   */
  lemma SequentialHonestIff(s: Server, state: T.Saved, run: Run, pos: nat)
    requires Faithful(s) && CanStart(state, run)
    ensures HonestGuard(s, state, run, pos) ==> AlwaysHonest(s, state, run, pos)
    ensures StartsNonEmpty(T.Select(state, run.window)) ==>
              (AlwaysHonest(s, state, run, pos) <==> HonestGuard(s, state, run, pos))
  {
    hide *;
    AlwaysHonestIff(s, state, run, pos);
    StartIsGood(s, state, run);
    if T.Select(state, run.window) == [] {
      NothingToRead(s, state, run, pos);
    } else if !HasCheckpoint(OutputOf(s, state, run)) {
      NothingSaved(s, state, run, pos);
    } else if SavedByRun(s, run.mode, StartOf(state, run), run.cut).From? {
      SavedFirst(s, state, run, pos);
    } else {
      SavedNothingLeft(s, state, run, pos);
    }
  }

  predicate StartsNonEmpty(ranges: seq<T.Range>) {
    ranges == [] || ranges[0].gte < ranges[0].lt
  }

  lemma StartIsGood(s: Server, state: T.Saved, run: Run)
    requires CanStart(state, run)
    ensures GoodRemaining(run.mode, StartOf(state, run))
  {
  }

  lemma NothingToRead(s: Server, state: T.Saved, run: Run, pos: nat)
    requires Faithful(s) && CanStart(state, run) && T.Select(state, run.window) == []
    ensures DropsNothing(s, state, run) && HonestGuard(s, state, run, pos)
  {
  }

  lemma NothingSaved(s: Server, state: T.Saved, run: Run, pos: nat)
    requires Faithful(s) && CanStart(state, run) && !HasCheckpoint(OutputOf(s, state, run))
    ensures DropsNothing(s, state, run) && HonestGuard(s, state, run, pos)
  {
    hide T.Select, T.Covers;
  }

  /** The ranges of a run that starts, and what it saves. */
  lemma RunSaves(s: Server, state: T.Saved, run: Run, pos: nat)
    requires Faithful(s) && CanStart(state, run) && T.Select(state, run.window) != []
    requires HasCheckpoint(OutputOf(s, state, run))
    ensures var ranges, start := T.Select(state, run.window), StartOf(state, run);
            var saved := SavedByRun(s, run.mode, start, run.cut);
      && start == From(ranges[0].cursor) && GoodRemaining(run.mode, start)
      && SavedOf(s, state, run) == Some(SavedRanges(ranges, saved))
      && (saved.From? ==> DonePosition(s, start) + |ConfirmedBy(OutputOf(s, state, run))| < |s.listing|)
      && (saved.Done? ==> (DonePosition(s, start) + |ConfirmedBy(OutputOf(s, state, run))| >= |s.listing| <==>
            (InListing(s, start.cursor); ReachesLastPage(s, run.mode, DonePosition(s, start), 0))))
  {
    hide T.Select, RunOutput, SavedBy, Faithful, ReachesLastPage, ConfirmedBy, PositionOf;
    var start := StartOf(state, run);
    RunIsGood(s, run.mode, start, run.cut);
    InListing(s, start.cursor);
    var confirmed := ConfirmedBy(OutputOf(s, state, run));
    WholeIfLong(confirmed, s.listing, DonePosition(s, start));
  }

  lemma WholeIfLong(items: seq<Item>, listing: seq<Item>, p: nat)
    requires p <= |listing| && items <= listing[p..]
    ensures items == listing[p..|listing|] <==> p + |items| >= |listing|
  {
    assert listing[p..][..|listing| - p] == listing[p..];
  }

  lemma SavedFirst(s: Server, state: T.Saved, run: Run, pos: nat)
    requires Faithful(s) && CanStart(state, run) && T.Select(state, run.window) != []
    requires HasCheckpoint(OutputOf(s, state, run))
    requires SavedByRun(s, run.mode, StartOf(state, run), run.cut).From?
    ensures ReadBy(s, state, run, pos) >= |s.listing| <==> pos >= |s.listing|
    ensures DropsNothing(s, state, run) <==> OnlyFirst(T.Select(state, run.window))
    ensures HonestGuard(s, state, run, pos) <==> pos >= |s.listing| || OnlyFirst(T.Select(state, run.window))
  {
    hide T.Select, T.Covers, RunOutput, SavedByRun, Faithful, ReachesLastPage, ConfirmedBy, PositionOf, OutputOf;
    RunSaves(s, state, run, pos);
    var saved := SavedOf(s, state, run).value;
    forall t ensures T.Covers(saved, t) <==> T.InRange(T.Select(state, run.window)[0], t) {
      T.CoversOne(saved[0], t);
    }
  }

  lemma SavedNothingLeft(s: Server, state: T.Saved, run: Run, pos: nat)
    requires Faithful(s) && CanStart(state, run) && T.Select(state, run.window) != []
    requires HasCheckpoint(OutputOf(s, state, run))
    requires SavedByRun(s, run.mode, StartOf(state, run), run.cut).Done?
    ensures StartsNonEmpty(T.Select(state, run.window)) ==> !DropsNothing(s, state, run)
    ensures ReadBy(s, state, run, pos) >= |s.listing| <==> HonestGuard(s, state, run, pos)
  {
    hide T.Select, T.Covers, RunOutput, SavedByRun, Faithful, ReachesLastPage, ConfirmedBy, PositionOf, OutputOf;
    RunSaves(s, state, run, pos);
    if StartsNonEmpty(T.Select(state, run.window)) {
      FirstIsCovered(T.Select(state, run.window));
    }
  }

  lemma FirstIsCovered(ranges: seq<T.Range>)
    requires ranges != [] && ranges[0].gte < ranges[0].lt
    ensures T.Covers(ranges, ranges[0].gte) && !T.Covers([], ranges[0].gte)
  {
    assert T.InRange(ranges[0], ranges[0].gte);
  }

  /** A run that is not cut off saves that nothing remains: honest if and only if it got to the last page. */
  lemma FinishedHonestIff(s: Server, state: T.Saved, run: Run, pos: nat)
    requires Faithful(s) && CanStart(state, run) && T.Select(state, run.window) != []
    requires var ranges := T.Select(state, run.window);
      && StartsNonEmpty(ranges) && pos < |s.listing|
      && run.cut >= |Outputs(s, run.mode, ranges[0].cursor, 0)|
    ensures SavedOf(s, state, run) == Some([])
    ensures AlwaysHonest(s, state, run, pos) <==>
            ReachesLastPage(s, run.mode, PositionOf(s, T.Select(state, run.window)[0].cursor), 0)
  {
    hide T.Select, RunOutput, SavedByRun, Faithful, ReachesLastPage, PositionOf, Outputs, AlwaysHonest, HasCheckpoint;
    UncutIsDone(s, run.mode, StartOf(state, run), run.cut);
    SequentialHonestIff(s, state, run, pos);
  }

  // ---- Chains of runs ----

  /** The cursors of the state come from checkpoints up to position `pos`. */
  ghost predicate CursorsKnown(s: Server, forward: bool, state: T.Saved, pos: nat) {
    state.Progress? ==> KnownIn(s, forward, state.remaining, pos)
  }

  ghost predicate KnownIn(s: Server, forward: bool, ranges: seq<T.Range>, pos: nat) {
    forall i :: 0 <= i < |ranges| ==> CursorKnown(s, forward, ranges[i].cursor, pos)
  }

  predicate CursorKnown(s: Server, forward: bool, cursor: Option<Cursor>, pos: nat) {
    cursor == None || (forward && cursor != Some("") && PositionOf(s, cursor) <= pos)
  }

  lemma {:induction false} KeptKnown(
    s: Server, forward: bool, ranges: seq<T.Range>, incoming: T.Window, pos: nat)
    requires KnownIn(s, forward, ranges, pos)
    ensures KnownIn(s, forward, T.Kept(ranges, incoming), pos)
  {
    if ranges != [] {
      KeptKnown(s, forward, ranges[..|ranges| - 1], incoming, pos);
    }
  }

  lemma SelectedKnown(s: Server, state: T.Saved, run: Run, pos: nat)
    requires CursorsKnown(s, run.mode.forward, state, pos)
    ensures KnownIn(s, run.mode.forward, T.Select(state, run.window), pos) && CanStart(state, run)
  {
    hide T.Kept;
    if state.Progress? {
      KeptKnown(s, run.mode.forward, state.remaining, run.window, pos);
    }
  }

  function NextState(s: Server, state: T.Saved, run: Run): T.Saved
    requires Faithful(s) && CanStart(state, run)
  {
    var saved := SavedOf(s, state, run);
    if saved.None? then state else T.Progress(run.window, saved.value)
  }

  /** After a run the cursors are still known. */
  lemma RunKeepsKnown(s: Server, state: T.Saved, run: Run, pos: nat)
    requires Faithful(s) && CursorsKnown(s, run.mode.forward, state, pos) && CanStart(state, run)
    ensures CursorsKnown(s, run.mode.forward, NextState(s, state, run), ReadBy(s, state, run, pos))
  {
    hide T.Select, RunOutput, SavedBy, Faithful, ConfirmedBy, PositionOf, ReachesLastPage, HasCheckpoint;
    StartIsGood(s, state, run);
    if SavedOf(s, state, run).Some? {
      var start := StartOf(state, run);
      SelectedKnown(s, state, run, pos);
      RunIsGood(s, run.mode, start, run.cut);
      var saved := SavedByRun(s, run.mode, start, run.cut);
      if saved.From? {
        assert StopsWell(s, run.mode, start, run.cut);
      }
    }
  }

  /** Runs with the same kind of cursors; limits and windows may differ. */
  predicate SameKind(forward: bool, runs: seq<Run>) {
    forall i :: 0 <= i < |runs| ==> runs[i].mode.forward == forward
  }

  /** The guard holds of every run. */
  ghost predicate AllGuarded(s: Server, forward: bool, state: T.Saved, pos: nat, runs: seq<Run>)
    requires Faithful(s) && CursorsKnown(s, forward, state, pos) && SameKind(forward, runs)
    decreases |runs|
  {
    runs == [] ||
    (SelectedKnown(s, state, runs[0], pos);
     RunKeepsKnown(s, state, runs[0], pos);
     && HonestGuard(s, state, runs[0], pos)
     && AllGuarded(s, forward, NextState(s, state, runs[0]), ReadBy(s, state, runs[0], pos), runs[1..]))
  }

  datatype End = End(state: T.Saved, pos: nat)

  /** The state after a chain of runs, and how much of the listing has been read. */
  ghost function AfterAll(s: Server, forward: bool, state: T.Saved, pos: nat, runs: seq<Run>): End
    requires Faithful(s) && CursorsKnown(s, forward, state, pos) && SameKind(forward, runs)
    decreases |runs|
  {
    if runs == [] then End(state, pos)
    else
      SelectedKnown(s, state, runs[0], pos);
      RunKeepsKnown(s, state, runs[0], pos);
      AfterAll(s, forward, NextState(s, state, runs[0]), ReadBy(s, state, runs[0], pos), runs[1..])
  }

  lemma GuardedStep(s: Server, state: T.Saved, run: Run, pos: nat, created: Item -> int)
    requires Faithful(s) && CanStart(state, run) && HonestGuard(s, state, run, pos)
    requires T.Accounted(state, ReadUpTo(s.listing, created, pos))
    ensures T.Accounted(NextState(s, state, run), ReadUpTo(s.listing, created, ReadBy(s, state, run, pos)))
  {
    hide HonestGuard, T.Accounted, T.Honest, SavedOf, ReadBy, CanStart, Faithful;
    SequentialHonestIff(s, state, run, pos);
    assert T.Honest(state, ReadUpTo(s.listing, created, pos), ResultOf(s, created, state, run, pos));
    T.RunKeepsAccounted(state, ReadUpTo(s.listing, created, pos), ResultOf(s, created, state, run, pos));
  }

  /**
   If the guard holds of every run, then after any chain of sequential runs with changing windows and limits,
   cut off anywhere, the next run asks for every instant of its window that has not been read.
   */
  lemma {:induction false} GuardedChainForgetsNothing(
    s: Server, forward: bool, state: T.Saved, pos: nat, runs: seq<Run>, created: Item -> int, next: T.Window)
    requires Faithful(s) && CursorsKnown(s, forward, state, pos) && SameKind(forward, runs)
    requires T.Accounted(state, ReadUpTo(s.listing, created, pos)) && AllGuarded(s, forward, state, pos, runs)
    ensures var end := AfterAll(s, forward, state, pos, runs);
            forall t :: T.InWindow(next, t) ==>
              T.Covers(T.Select(end.state, next), t) || t in ReadUpTo(s.listing, created, end.pos)
    decreases |runs|
  {
    hide HonestGuard, T.Accounted, T.Covers, T.Select, ReadUpTo, CursorsKnown, NextState, ReadBy, Faithful;
    if runs == [] {
      forall t | T.InWindow(next, t)
        ensures T.Covers(T.Select(state, next), t) || t in ReadUpTo(s.listing, created, pos)
      {
        T.SelectsUnread(state, ReadUpTo(s.listing, created, pos), next, t);
      }
    } else {
      var run := runs[0];
      SelectedKnown(s, state, run, pos);
      RunKeepsKnown(s, state, run, pos);
      GuardedStep(s, state, run, pos, created);
      GuardedChainForgetsNothing(
        s, forward, NextState(s, state, run), ReadBy(s, state, run, pos), runs[1..], created, next);
    }
  }

  // ---- How instants get lost ----

  /**
   A window that grew leaves two ranges.  The first checkpoint saves only the older one, and when the
   window then moves on past it, nothing is left to read: the instants added before are never asked for.
   */
  lemma SecondRangeIsForgotten(c: Cursor, d: Cursor)
    ensures var ranges := T.Select(T.Progress(T.Window(0, 10), [T.Range(0, 10, Some(c))]), T.Window(0, 20));
      && ranges == [T.Range(0, 10, Some(c)), T.Range(10, 20, None)]
      && T.Select(T.Progress(T.Window(0, 20), SavedRanges(ranges, From(Some(d)))), T.Window(10, 20)) == []
  {
    var first := T.Range(0, 10, Some(c));
    KeptOne(first, T.Window(0, 20));
    KeptOne(T.Range(0, 10, Some(d)), T.Window(10, 20));
  }

  lemma KeptOne(r: T.Range, incoming: T.Window)
    ensures T.Kept([r], incoming) == if T.Dropped(r, incoming) then [] else [T.Trim(r, incoming)]
  {
    assert [r][..0] == [];
  }
}
