/** Which records of a stream go into which batch: cut at the stream's states and at the batch size. */
module PostgresCuts {
  import opened Sequences
  import opened PostgresUpsert
  import opened PostgresRun

  /** The batches that were sent to the database, in order, whether or not they were written. */
  function Attempts(log: seq<Event>, s: string): seq<seq<Entry>> {
    if log == [] then []
    else
      var rest, e := Attempts(log[..|log| - 1], s), log[|log| - 1];
      if (e.Flushed? || e.FlushFailed?) && e.stream == s then rest + [e.batch] else rest
  }

  /** Closed batches, and the records that are still held back. */
  datatype Cut = Cut(batches: seq<seq<Entry>>, held: seq<Entry>)

  function Close(c: Cut): Cut {
    if c.held == [] then c else Cut(c.batches + [c.held], [])
  }

  function CutNext(c: Cut, m: Message, batchSize: nat, s: string): Cut {
    if m.Record? && m.stream == s then
      var more := Cut(c.batches, c.held + [m.entry]);
      if |more.held| >= batchSize then Close(more) else more
    else if m == StreamState(s) then Close(c)
    else c
  }

  /** A stream's records, cut after every `batchSize` of them and at its states. */
  function CutOf(msgs: seq<Message>, batchSize: nat, s: string): Cut {
    if msgs == [] then Cut([], [])
    else CutNext(CutOf(msgs[..|msgs| - 1], batchSize, s), msgs[|msgs| - 1], batchSize, s)
  }

  function AllBatches(msgs: seq<Message>, batchSize: nat, s: string): seq<seq<Entry>> {
    Close(CutOf(msgs, batchSize, s)).batches
  }

  // ---- What the cuts are ----

  /** The batch that ends with the records of the first `j` messages may end there. */
  predicate EndsAt(msgs: seq<Message>, batchSize: nat, s: string, batch: seq<Entry>, j: nat) {
    && j <= |msgs|
    && batch != []
    && (|batch| == batchSize || (batchSize == 0 && |batch| == 1) ||
        (|batch| < batchSize && (j == |msgs| || msgs[j] == StreamState(s))))
  }

  lemma {:induction false} CutKeepsRecords(msgs: seq<Message>, batchSize: nat, s: string)
    ensures var c := CutOf(msgs, batchSize, s);
      && Concat(c.batches) + c.held == RecordsOf(msgs, s)
      && (|c.held| < batchSize || c.held == [])
  {
    if msgs != [] {
      var front, m := msgs[..|msgs| - 1], msgs[|msgs| - 1];
      CutKeepsRecords(front, batchSize, s);
      FrontLast(msgs);
      hide RecordsOf, CutNext, Concat;
      NextKeepsRecords(CutOf(front, batchSize, s), m, batchSize, s, front);
    }
  }

  lemma NextKeepsRecords(c: Cut, m: Message, batchSize: nat, s: string, front: seq<Message>)
    requires Concat(c.batches) + c.held == RecordsOf(front, s) && (|c.held| < batchSize || c.held == [])
    ensures var next := CutNext(c, m, batchSize, s);
      && Concat(next.batches) + next.held == RecordsOf(front + [m], s)
      && (|next.held| < batchSize || next.held == [])
  {
    hide RecordsOf, Concat;
    RecordsSnoc(front, m, s);
    var held := if m.Record? then c.held + [m.entry] else c.held;
    ConcatSnoc(c.batches, held);
    assert Concat(c.batches + [held]) + [] == Concat(c.batches) + held;
    if m.Record? {
      Associative(Concat(c.batches), c.held, [m.entry]);
    }
  }

  /** Later messages only add batches. */
  lemma {:induction false} CutsGrow(msgs: seq<Message>, batchSize: nat, s: string, j: nat)
    requires j <= |msgs|
    ensures CutOf(msgs[..j], batchSize, s).batches <= CutOf(msgs, batchSize, s).batches
    decreases |msgs|
  {
    if j == |msgs| {
      assert msgs[..j] == msgs;
    } else {
      CutsGrow(msgs[..|msgs| - 1], batchSize, s, j);
      assert msgs[..|msgs| - 1][..j] == msgs[..j];
    }
  }

  /** Each batch is full, or ends at a state of the stream or at the end of the input. */
  lemma {:induction false} BatchEnds(msgs: seq<Message>, batchSize: nat, s: string, i: nat) returns (j: nat)
    requires i < |AllBatches(msgs, batchSize, s)|
    ensures j <= |msgs| && Concat(AllBatches(msgs, batchSize, s)[..i + 1]) == RecordsOf(msgs[..j], s)
    ensures EndsAt(msgs, batchSize, s, AllBatches(msgs, batchSize, s)[i], j)
  {
    var c, all := CutOf(msgs, batchSize, s), AllBatches(msgs, batchSize, s);
    CutKeepsRecords(msgs, batchSize, s);
    if i < |c.batches| {
      j := ClosedEnds(msgs, batchSize, s, i);
      assert all[..i + 1] == c.batches[..i + 1];
    } else {
      j := |msgs|;
      assert msgs[..j] == msgs && all[..i + 1] == all;
      ConcatSnoc(c.batches, c.held);
    }
  }

  lemma {:induction false} ClosedEnds(msgs: seq<Message>, batchSize: nat, s: string, i: nat) returns (j: nat)
    requires i < |CutOf(msgs, batchSize, s).batches|
    ensures j <= |msgs| && Concat(CutOf(msgs, batchSize, s).batches[..i + 1]) == RecordsOf(msgs[..j], s)
    ensures EndsAt(msgs, batchSize, s, CutOf(msgs, batchSize, s).batches[i], j)
    ensures j == |msgs| ==> |CutOf(msgs, batchSize, s).batches[i]| >= batchSize
  {
    var front := msgs[..|msgs| - 1];
    var c, now := CutOf(front, batchSize, s), CutOf(msgs, batchSize, s);
    hide CutOf, RecordsOf, EndsAt;
    if i < |c.batches| {
      j := ClosedEnds(front, batchSize, s, i);
      ClosedBefore(msgs, batchSize, s, i, j);
    } else {
      j := LastClosed(msgs, batchSize, s, i);
    }
  }

  lemma ClosedBefore(msgs: seq<Message>, batchSize: nat, s: string, i: nat, j: nat)
    requires msgs != [] && i < |CutOf(msgs[..|msgs| - 1], batchSize, s).batches| && j < |msgs|
    requires var front := msgs[..|msgs| - 1]; var batches := CutOf(front, batchSize, s).batches;
      && EndsAt(front, batchSize, s, batches[i], j) && (j == |front| ==> |batches[i]| >= batchSize)
      && Concat(batches[..i + 1]) == RecordsOf(front[..j], s)
    ensures var batches := CutOf(msgs, batchSize, s).batches;
      && i < |batches| && Concat(batches[..i + 1]) == RecordsOf(msgs[..j], s)
      && EndsAt(msgs, batchSize, s, batches[i], j)
  {
    var front := msgs[..|msgs| - 1];
    hide CutOf, RecordsOf, Concat;
    CutsGrow(msgs, batchSize, s, |front|);
    assert CutOf(msgs, batchSize, s).batches[..i + 1] == CutOf(front, batchSize, s).batches[..i + 1];
    assert front[..j] == msgs[..j];
  }

  lemma LastClosed(msgs: seq<Message>, batchSize: nat, s: string, i: nat) returns (j: nat)
    requires msgs != [] && |CutOf(msgs[..|msgs| - 1], batchSize, s).batches| <= i
    requires i < |CutOf(msgs, batchSize, s).batches|
    ensures j <= |msgs| && Concat(CutOf(msgs, batchSize, s).batches[..i + 1]) == RecordsOf(msgs[..j], s)
    ensures EndsAt(msgs, batchSize, s, CutOf(msgs, batchSize, s).batches[i], j)
    ensures j == |msgs| ==> |CutOf(msgs, batchSize, s).batches[i]| >= batchSize
  {
    var front, m := msgs[..|msgs| - 1], msgs[|msgs| - 1];
    FrontLast(msgs);
    assert msgs[..|msgs|] == msgs;
    var c := CutOf(front, batchSize, s);
    CutKeepsRecords(front, batchSize, s);
    CutKeepsRecords(msgs, batchSize, s);
    hide RecordsOf, Concat, CutOf;
    CutOneMore(msgs, batchSize, s);
    ClosedByLast(c, m, batchSize, s);
    j := if m.Record? then |msgs| else |front|;
    var next := CutOf(msgs, batchSize, s);
    WholePrefix(next.batches);
    assert Concat(next.batches) + [] == Concat(next.batches);
    RecordsSnoc(front, m, s);
  }

  lemma CutOneMore(msgs: seq<Message>, batchSize: nat, s: string)
    requires msgs != []
    ensures CutOf(msgs, batchSize, s) ==
            CutNext(CutOf(msgs[..|msgs| - 1], batchSize, s), msgs[|msgs| - 1], batchSize, s)
  {
  }

  /** A batch that one more message closes. */
  lemma ClosedByLast(c: Cut, m: Message, batchSize: nat, s: string)
    requires |c.held| < batchSize || c.held == []
    ensures var next := CutNext(c, m, batchSize, s);
      |next.batches| > |c.batches| ==>
        && |next.batches| == |c.batches| + 1 && next.held == [] && next.batches[|c.batches|] != []
        && (if m.Record? then
              |next.batches[|c.batches|]| == batchSize || (batchSize == 0 && |next.batches[|c.batches|]| == 1)
            else m == StreamState(s) && |next.batches[|c.batches|]| < batchSize)
  {
  }

  lemma WholePrefix(batches: seq<seq<Entry>>)
    ensures batches[..|batches|] == batches
  {
  }

  // ---- The run makes these cuts ----

  lemma AttemptsSnoc(log: seq<Event>, e: Event, s: string)
    ensures Attempts(log + [e], s) ==
            if (e.Flushed? || e.FlushFailed?) && e.stream == s then Attempts(log, s) + [e.batch] else Attempts(log, s)
  {
    assert (log + [e])[..|log|] == log;
  }

  /** The attempts of a running stream are its closed batches, and its buffer is what is held back. */
  ghost predicate Follows(st: State, s: string, c: Cut) {
    && (s !in st.failed ==> Attempts(st.log, s) == c.batches && BufferOf(st, s) == c.held)
    && (s in st.failed ==> Attempts(st.log, s) <= c.batches)
  }

  /** A flush closes the batch of its stream, if it holds anything. */
  lemma FlushCloses(st: State, x: string, s: string, c: Cut, faults: nat -> Fault)
    requires Follows(st, s, c) && (BufferOf(st, x) != [] ==> x in st.buffers)
    ensures Follows(FlushAndReport(st, x, faults), s, if x == s then Close(c) else c)
    ensures st.failed <= FlushAndReport(st, x, faults).failed
  {
    hide WriteMany, Attempts;
    if x !in st.failed && BufferOf(st, x) != [] {
      var batch, next := st.buffers[x], Flush(st, x, faults);
      AttemptsSnoc(st.log, Flushed(x, batch), s);
      AttemptsSnoc(st.log, FlushFailed(x, batch), s);
      AttemptsSnoc(next.log, StreamError(x), s);
    }
  }

  lemma PassFollows(st: State, s: string, c: Cut, index: nat)
    requires Follows(st, s, c)
    ensures Follows(Emit(st, Passed(index)), s, c)
  {
    AttemptsSnoc(st.log, Passed(index), s);
  }

  lemma StepFollows(st: State, m: Message, index: nat, batchSize: nat, s: string, c: Cut, faults: nat -> Fault)
    requires Follows(st, s, c)
    ensures Follows(Step(st, m, index, batchSize, faults), s,
      CutNext(c, m, batchSize, s))
  {
    hide FlushAndReport, Attempts;
    match m {
      case Record(x, e) =>
        if x !in st.failed {
          var pushed := Push(st, x, e);
          var more := if x == s then Cut(c.batches, c.held + [e]) else c;
          assert Follows(pushed, s, more);
          FlushCloses(pushed, x, s, more, faults);
          var flushed := if |BufferOf(pushed, x)| >= batchSize then FlushAndReport(pushed, x, faults) else pushed;
          PassFollows(flushed, s, if |BufferOf(pushed, x)| >= batchSize && x == s then Close(more) else more, index);
        }
      case StreamState(x) =>
        FlushCloses(st, x, s, c, faults);
        PassFollows(FlushAndReport(st, x, faults), s, if x == s then Close(c) else c, index);
      case _ => PassFollows(st, s, c, index);
    }
  }

  lemma {:induction false} RunFollows(
    msgs: seq<Message>, batchSize: nat, tables: map<string, Table>, faults: nat -> Fault, s: string)
    ensures Follows(Run(Start(tables), msgs, batchSize, faults), s, CutOf(msgs, batchSize, s))
  {
    if msgs != [] {
      var front, m := msgs[..|msgs| - 1], msgs[|msgs| - 1];
      RunFollows(front, batchSize, tables, faults, s);
      hide Step, Follows;
      StepFollows(Run(Start(tables), front, batchSize, faults), m, |front|, batchSize, s,
                  CutOf(front, batchSize, s), faults);
    }
  }

  lemma {:induction false} FinishFollows(st: State, names: seq<string>, s: string, c: Cut, faults: nat -> Fault)
    requires Follows(st, s, c)
    ensures var next := FlushNames(st, names, faults);
      Follows(next, s, if s in names then Close(c) else c) && st.failed <= next.failed
  {
    if names != [] {
      var front, x := names[..|names| - 1], names[|names| - 1];
      FinishFollows(st, front, s, c, faults);
      hide FlushAndReport, Follows;
      FlushCloses(FlushNames(st, front, faults), x, s, if s in front then Close(c) else c, faults);
      assert names == front + [x];
    }
  }

  /**
   The batches sent for a stream are its records, cut after every `batchSize` of them, at its states and at the
   end: all of these cuts if the stream never fails, and otherwise those up to the one that failed.
   */
  lemma BatchesAreCuts(
    msgs: seq<Message>, batchSize: nat, tables: map<string, Table>, faults: nat -> Fault, s: string)
    ensures var end := WholeRun(msgs, batchSize, tables, faults);
      && Attempts(end.log, s) <= AllBatches(msgs, batchSize, s)
      && (!HasFailed(end.log, s) ==> Batches(end.log, s) == AllBatches(msgs, batchSize, s))
  {
    hide FlushNames, Run, CutOf, Attempts;
    var st, end := Run(Start(tables), msgs, batchSize, faults), WholeRun(msgs, batchSize, tables, faults);
    RunFollows(msgs, batchSize, tables, faults, s);
    RunKeepsInv(msgs, batchSize, tables, faults);
    BufferIsNamed(st, s, msgs, tables);
    FinishFollows(st, st.names, s, CutOf(msgs, batchSize, s), faults);
    FailedMatchesLog(msgs, batchSize, tables, faults, s);
    if !HasFailed(end.log, s) {
      AttemptsWritten(end.log, s);
    }
  }

  lemma BufferIsNamed(st: State, s: string, msgs: seq<Message>, tables: map<string, Table>)
    requires Core(st, msgs, tables)
    ensures BufferOf(st, s) != [] ==> s in st.names
  {
    assert StreamInv(st, s, msgs, tables);
  }

  lemma {:induction false} AttemptsWritten(log: seq<Event>, s: string)
    requires !HasFailed(log, s)
    ensures Attempts(log, s) == Batches(log, s)
  {
    if log != [] {
      FailedSnoc(log[..|log| - 1], log[|log| - 1], s);
      assert log[..|log| - 1] + [log[|log| - 1]] == log;
      AttemptsWritten(log[..|log| - 1], s);
    }
  }

  /** So a batch below the batch size is sent only at a state of its stream, or at the end of the input. */
  lemma ShortBatchAtState(
    msgs: seq<Message>, batchSize: nat, tables: map<string, Table>, faults: nat -> Fault, s: string, i: nat)
    returns (j: nat)
    requires i < |Attempts(WholeRun(msgs, batchSize, tables, faults).log, s)|
    ensures var sent := Attempts(WholeRun(msgs, batchSize, tables, faults).log, s);
      && j <= |msgs| && Concat(sent[..i + 1]) == RecordsOf(msgs[..j], s)
      && EndsAt(msgs, batchSize, s, sent[i], j)
  {
    hide WholeRun, AllBatches, Attempts, RecordsOf, EndsAt;
    BatchesAreCuts(msgs, batchSize, tables, faults, s);
    var sent, all := Attempts(WholeRun(msgs, batchSize, tables, faults).log, s), AllBatches(msgs, batchSize, s);
    j := BatchEnds(msgs, batchSize, s, i);
    assert sent[..i + 1] == all[..i + 1];
  }
}
