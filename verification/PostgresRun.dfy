/** A write run of the Postgres destination as a state machine, and what its event log guarantees. */
module PostgresRun {
  import opened Sequences
  import opened PostgresUpsert

  /** Messages of the source; only stream-level states wait for a flush. */
  datatype Message =
    | Record(stream: string, entry: Entry)
    | StreamState(stream: string)
    | GlobalState
    | Other

  /**
   What happens, in order: flushes with their batch, messages passed on (by position in the
   input), and error statuses.
   */
  datatype Event =
    | Flushed(stream: string, batch: seq<Entry>)
    | FlushFailed(stream: string, batch: seq<Entry>)
    | Passed(index: nat)
    | StreamError(stream: string)

  /** `names` lists the buffers in the order in which they were created. */
  datatype State = State(
    buffers: map<string, seq<Entry>>,
    names: seq<string>,
    failed: set<string>,
    tables: map<string, Table>,
    flushes: nat,
    log: seq<Event>)

  function Start(tables: map<string, Table>): State {
    State(map[], [], {}, tables, 0, [])
  }

  function BufferOf(st: State, s: string): seq<Entry> {
    if s in st.buffers then st.buffers[s] else []
  }

  function TableOf(st: State, s: string): Table {
    if s in st.tables then st.tables[s] else map[]
  }

  function Emit(st: State, e: Event): State {
    st.(log := st.log + [e])
  }

  /** Whether the database fails, and where, is chosen per flush by `faults`. */
  function Flush(st: State, s: string, faults: nat -> Fault): State {
    if s in st.failed || BufferOf(st, s) == [] then st
    else
      var batch := st.buffers[s];
      var w := WriteMany(TableOf(st, s), batch, faults(st.flushes));
      State(st.buffers[s := []], st.names, if w.ok then st.failed else st.failed + {s}, st.tables[s := w.table],
            st.flushes + 1, st.log + [if w.ok then Flushed(s, batch) else FlushFailed(s, batch)])
  }

  /** A flush that fails now is reported at once. */
  function FlushAndReport(st: State, s: string, faults: nat -> Fault): State {
    var next := Flush(st, s, faults);
    if s in next.failed && s !in st.failed then Emit(next, StreamError(s)) else next
  }

  function Push(st: State, s: string, e: Entry): State {
    if s in st.buffers then st.(buffers := st.buffers[s := st.buffers[s] + [e]])
    else st.(buffers := st.buffers[s := [e]], names := st.names + [s])
  }

  function PassUnlessFailed(st: State, s: string, index: nat): State {
    if s in st.failed then st else Emit(st, Passed(index))
  }

  function Step(st: State, m: Message, index: nat, batchSize: nat, faults: nat -> Fault): State {
    match m
    case Record(s, e) =>
      if s in st.failed then st
      else
        var pushed := Push(st, s, e);
        var flushed := if |BufferOf(pushed, s)| >= batchSize then FlushAndReport(pushed, s, faults) else pushed;
        PassUnlessFailed(flushed, s, index)
    case StreamState(s) =>
      if s in st.failed then st
      else PassUnlessFailed(FlushAndReport(st, s, faults), s, index)
    case GlobalState => Emit(st, Passed(index))
    case Other => Emit(st, Passed(index))
  }

  function Run(st: State, msgs: seq<Message>, batchSize: nat, faults: nat -> Fault): State {
    if msgs == [] then st
    else Step(Run(st, msgs[..|msgs| - 1], batchSize, faults), msgs[|msgs| - 1], |msgs| - 1, batchSize, faults)
  }

  function FlushNames(st: State, names: seq<string>, faults: nat -> Fault): State {
    if names == [] then st
    else FlushAndReport(FlushNames(st, names[..|names| - 1], faults), names[|names| - 1], faults)
  }

  /** The final flush of all remaining buffers. */
  function Finish(st: State, faults: nat -> Fault): State {
    FlushNames(st, st.names, faults)
  }

  // ---- Reading the log ----

  /** The batches of `s` that were written, in order. */
  function Batches(log: seq<Event>, s: string): seq<seq<Entry>> {
    if log == [] then []
    else
      var rest, e := Batches(log[..|log| - 1], s), log[|log| - 1];
      if e.Flushed? && e.stream == s then rest + [e.batch] else rest
  }

  function WrittenRecords(log: seq<Event>, s: string): seq<Entry> {
    Concat(Batches(log, s))
  }

  predicate HasFailed(log: seq<Event>, s: string) {
    exists i :: 0 <= i < |log| && log[i].FlushFailed? && log[i].stream == s
  }

  function RecordsOf(msgs: seq<Message>, s: string): seq<Entry> {
    if msgs == [] then []
    else
      var rest, m := RecordsOf(msgs[..|msgs| - 1], s), msgs[|msgs| - 1];
      if m.Record? && m.stream == s then rest + [m.entry] else rest
  }

  /** The records of a stream are taken in the order of the messages. */
  lemma {:induction false} RecordsAppend(a: seq<Message>, b: seq<Message>, s: string)
    ensures RecordsOf(a + b, s) == RecordsOf(a, s) + RecordsOf(b, s)
    ensures forall e :: RecordsOf([Record(s, e)], s) == [e]
    decreases |b|
  {
    forall e ensures RecordsOf([Record(s, e)], s) == [e] {
      assert [Record(s, e)][..0] == [];
    }
    if b == [] {
      assert a + b == a;
    } else {
      FrontOfAppend(a, b);
      RecordsAppend(a, b[..|b| - 1], s);
    }
  }

  predicate Concerns(m: Message, s: string) {
    (m.Record? || m.StreamState?) && m.stream == s
  }

  /**
   When event `e` may follow the events `before`:
   - messages pass in input order, each at most once, and none of a stream that failed;
   - a stream state passes only when all earlier records of its stream were written;
   - a stream is flushed, or fails, only while it has not failed;
   - a failure is followed at once by its one error status, which comes at no other time.
   */
  ghost predicate EventAllowed(before: seq<Event>, e: Event, msgs: seq<Message>) {
    && (before != [] && before[|before| - 1].FlushFailed? ==> e == StreamError(before[|before| - 1].stream))
    && match e
       case Passed(j) =>
         && j < |msgs|
         && (forall i :: 0 <= i < |before| && before[i].Passed? ==> before[i].index < j)
         && (forall s :: Concerns(msgs[j], s) ==> !HasFailed(before, s))
         && (msgs[j].StreamState? ==> WrittenRecords(before, msgs[j].stream) == RecordsOf(msgs[..j], msgs[j].stream))
       case Flushed(s, batch) => !HasFailed(before, s) && batch != []
       case FlushFailed(s, batch) => !HasFailed(before, s) && batch != []
       case StreamError(s) => before != [] && before[|before| - 1].FlushFailed? && before[|before| - 1].stream == s
  }

  ghost predicate LogAllowed(log: seq<Event>, msgs: seq<Message>) {
    log == [] || (LogAllowed(log[..|log| - 1], msgs) && EventAllowed(log[..|log| - 1], log[|log| - 1], msgs))
  }

  /** Every event of an allowed log was allowed when it happened. */
  lemma {:induction false} AllowedAt(log: seq<Event>, msgs: seq<Message>, i: nat)
    requires LogAllowed(log, msgs) && i < |log|
    ensures EventAllowed(log[..i], log[i], msgs)
  {
    if i < |log| - 1 {
      AllowedAt(log[..|log| - 1], msgs, i);
      assert log[..|log| - 1][..i] == log[..i];
    }
  }

  // ---- The invariant ----

  function Reaches(t: Table, batches: seq<seq<Entry>>): Table {
    if batches == [] then t else WriteMany(Reaches(t, batches[..|batches| - 1]), batches[|batches| - 1], NoFault).table
  }

  /** Each batch in turn is one that the database takes. */
  ghost predicate AllTaken(t: Table, batches: seq<seq<Entry>>) {
    batches == [] ||
    (AllTaken(t, batches[..|batches| - 1]) &&
     WriteMany(Reaches(t, batches[..|batches| - 1]), batches[|batches| - 1], NoFault).ok)
  }

  /** The table of a stream before the run. */
  function Initial(tables: map<string, Table>, s: string): Table {
    if s in tables then tables[s] else map[]
  }

  /**
   The table is what the batches leave, followed by one more batch that a fault may have broken off: before
   its upsert, or between upsert and delete.
   */
  ghost predicate BrokenOff(initial: Table, batches: seq<seq<Entry>>, table: Table, records: seq<Entry>) {
    && AllTaken(initial, batches)
    && exists batch, fault ::
         && Concat(batches) + batch <= records
         && table == WriteMany(Reaches(initial, batches), batch, fault).table
  }

  lemma BrokenOffGrows(
    initial: Table, batches: seq<seq<Entry>>, table: Table, records: seq<Entry>, more: seq<Entry>)
    requires BrokenOff(initial, batches, table, records) && records <= more
    ensures BrokenOff(initial, batches, table, more)
  {
    hide WriteMany;
    var batch, fault :| Concat(batches) + batch <= records &&
                        table == WriteMany(Reaches(initial, batches), batch, fault).table;
    assert Concat(batches) + batch <= more;
  }

  lemma BreaksOff(initial: Table, batches: seq<seq<Entry>>, batch: seq<Entry>, fault: Fault, records: seq<Entry>)
    requires AllTaken(initial, batches) && Concat(batches) + batch <= records
    ensures BrokenOff(initial, batches, WriteMany(Reaches(initial, batches), batch, fault).table, records)
  {
  }

  /** One stream: written batches and buffer together are its accepted records, until it fails. */
  ghost predicate StreamInv(st: State, s: string, msgs: seq<Message>, tables: map<string, Table>) {
    && (s in st.failed <==> HasFailed(st.log, s))
    && (s in st.buffers <==> s in st.names)
    && (s in st.failed ==> BufferOf(st, s) == [])
    && (s in st.failed ==> BrokenOff(Initial(tables, s), Batches(st.log, s), TableOf(st, s), RecordsOf(msgs, s)))
    && (s !in st.failed ==>
          && WrittenRecords(st.log, s) + BufferOf(st, s) == RecordsOf(msgs, s)
          && AllTaken(Initial(tables, s), Batches(st.log, s))
          && TableOf(st, s) == Reaches(Initial(tables, s), Batches(st.log, s)))
  }

  ghost predicate Settled(log: seq<Event>) {
    log == [] || !log[|log| - 1].FlushFailed?
  }

  ghost predicate Core(st: State, msgs: seq<Message>, tables: map<string, Table>) {
    && LogAllowed(st.log, msgs)
    && Settled(st.log)
    && forall s :: StreamInv(st, s, msgs, tables)
  }

  predicate Bounded(st: State, batchSize: nat) {
    forall s :: s in st.buffers ==> st.buffers[s] == [] || |st.buffers[s]| < batchSize
  }

  ghost predicate PassedBelow(log: seq<Event>, n: nat) {
    forall i :: 0 <= i < |log| && log[i].Passed? ==> log[i].index < n
  }

  /** A message that concerns no failed stream has passed. */
  ghost predicate AllPassed(st: State, msgs: seq<Message>) {
    forall j: nat :: j < |msgs| && (forall s :: Concerns(msgs[j], s) ==> s !in st.failed) ==> Passed(j) in st.log
  }

  ghost predicate Inv(st: State, msgs: seq<Message>, batchSize: nat, tables: map<string, Table>) {
    && Core(st, msgs, tables)
    && Bounded(st, batchSize)
    && PassedBelow(st.log, |msgs|)
    && AllPassed(st, msgs)
  }

  // ---- Adding one event ----

  lemma LogSnoc(log: seq<Event>, e: Event, s: string)
    ensures Batches(log + [e], s) ==
            if e.Flushed? && e.stream == s then Batches(log, s) + [e.batch] else Batches(log, s)
    ensures WrittenRecords(log + [e], s) ==
            if e.Flushed? && e.stream == s then WrittenRecords(log, s) + e.batch else WrittenRecords(log, s)
    ensures HasFailed(log + [e], s) <==> HasFailed(log, s) || (e.FlushFailed? && e.stream == s)
  {
    hide HasFailed;
    FailedSnoc(log, e, s);
    var more := log + [e];
    assert more[..|log|] == log;
    var batches := Batches(log, s);
    if e.Flushed? && e.stream == s {
      assert (batches + [e.batch])[..|batches|] == batches;
    }
  }

  lemma FailedSnoc(log: seq<Event>, e: Event, s: string)
    ensures HasFailed(log + [e], s) <==> HasFailed(log, s) || (e.FlushFailed? && e.stream == s)
  {
    var more := log + [e];
    if HasFailed(log, s) {
      var i :| 0 <= i < |log| && log[i].FlushFailed? && log[i].stream == s;
      assert more[i] == log[i];
    }
    if e.FlushFailed? && e.stream == s {
      assert more[|log|] == e;
    }
  }

  lemma AllowedSnoc(log: seq<Event>, e: Event, msgs: seq<Message>)
    requires LogAllowed(log, msgs) && EventAllowed(log, e, msgs)
    ensures LogAllowed(log + [e], msgs)
  {
    assert (log + [e])[..|log|] == log;
  }

  lemma {:induction false} AllowedWithMore(log: seq<Event>, msgs: seq<Message>, m: Message)
    requires LogAllowed(log, msgs)
    ensures LogAllowed(log, msgs + [m])
  {
    if log != [] {
      var front, e := log[..|log| - 1], log[|log| - 1];
      AllowedWithMore(front, msgs, m);
      if e.Passed? {
        assert (msgs + [m])[..e.index] == msgs[..e.index];
      }
    }
  }

  lemma RecordsSnoc(msgs: seq<Message>, m: Message, s: string)
    ensures RecordsOf(msgs + [m], s) ==
            if m.Record? && m.stream == s then RecordsOf(msgs, s) + [m.entry] else RecordsOf(msgs, s)
  {
    assert (msgs + [m])[..|msgs|] == msgs;
  }

  // ---- Flushing ----

  lemma WrittenAsWithoutFault(t: Table, batch: seq<Entry>, fault: Fault)
    requires WriteMany(t, batch, fault).ok
    ensures WriteMany(t, batch, fault) == WriteMany(t, batch, NoFault)
  {
  }

  lemma ReachesSnoc(t: Table, batches: seq<seq<Entry>>, batch: seq<Entry>)
    ensures Reaches(t, batches + [batch]) == WriteMany(Reaches(t, batches), batch, NoFault).table
    ensures AllTaken(t, batches + [batch]) <==>
        AllTaken(t, batches) && WriteMany(Reaches(t, batches), batch, NoFault).ok
  {
    assert (batches + [batch])[..|batches|] == batches;
  }

  /** What a flush of `s` leaves alone. */
  ghost predicate OnlyFlushed(st: State, next: State, s: string) {
    && BufferOf(next, s) == []
    && next.names == st.names && next.buffers.Keys == st.buffers.Keys
    && (forall x :: x in st.buffers && x != s ==> next.buffers[x] == st.buffers[x])
    && st.failed <= next.failed <= st.failed + {s}
    && st.log <= next.log
    && (forall i :: |st.log| <= i < |next.log| ==> !next.log[i].Passed?)
  }

  lemma FlushFrame(st: State, s: string, msgs: seq<Message>, tables: map<string, Table>, faults: nat -> Fault)
    requires Core(st, msgs, tables)
    ensures OnlyFlushed(st, FlushAndReport(st, s, faults), s)
  {
    assert StreamInv(st, s, msgs, tables);
  }

  lemma FlushWrites(
    st: State, s: string, x: string, msgs: seq<Message>, tables: map<string, Table>, faults: nat -> Fault)
    requires Core(st, msgs, tables) && s !in st.failed && s in st.buffers && BufferOf(st, s) != []
    requires WriteMany(TableOf(st, s), st.buffers[s], faults(st.flushes)).ok
    ensures StreamInv(Flush(st, s, faults), x, msgs, tables)
  {
    hide *;
    CoreHolds(st, s, msgs, tables);
    CoreHolds(st, x, msgs, tables);
    if x == s {
      FlushWritesOwn(st, s, msgs, tables, faults);
    } else {
      FlushWritesOther(st, s, x, msgs, tables, faults);
    }
  }

  lemma FlushWritesOther(
    st: State, s: string, x: string, msgs: seq<Message>, tables: map<string, Table>, faults: nat -> Fault)
    requires StreamInv(st, x, msgs, tables) && x != s && s !in st.failed && s in st.buffers && BufferOf(st, s) != []
    requires WriteMany(TableOf(st, s), st.buffers[s], faults(st.flushes)).ok
    ensures StreamInv(Flush(st, s, faults), x, msgs, tables)
  {
    hide WriteMany, Reaches, AllTaken, Batches, WrittenRecords, RecordsOf, HasFailed, BrokenOff;
    LogSnoc(st.log, Flushed(s, st.buffers[s]), x);
  }

  lemma CoreHolds(st: State, s: string, msgs: seq<Message>, tables: map<string, Table>)
    requires Core(st, msgs, tables)
    ensures StreamInv(st, s, msgs, tables)
  {
  }

  lemma FlushWritesOwn(st: State, s: string, msgs: seq<Message>, tables: map<string, Table>, faults: nat -> Fault)
    requires StreamInv(st, s, msgs, tables) && s !in st.failed && s in st.buffers && BufferOf(st, s) != []
    requires WriteMany(TableOf(st, s), st.buffers[s], faults(st.flushes)).ok
    ensures StreamInv(Flush(st, s, faults), s, msgs, tables)
  {
    hide WriteMany, Reaches, AllTaken, Batches, WrittenRecords, RecordsOf, HasFailed, Initial, BrokenOff;
    var batch, next := st.buffers[s], Flush(st, s, faults);
    LogSnoc(st.log, Flushed(s, batch), s);
    WrittenAsWithoutFault(TableOf(st, s), batch, faults(st.flushes));
    ReachesSnoc(Initial(tables, s), Batches(st.log, s), batch);
    assert WrittenRecords(next.log, s) + [] == WrittenRecords(next.log, s);
  }

  lemma FlushFails(
    st: State, s: string, x: string, msgs: seq<Message>, tables: map<string, Table>, faults: nat -> Fault)
    requires Core(st, msgs, tables) && s !in st.failed && BufferOf(st, s) != []
    requires !WriteMany(TableOf(st, s), st.buffers[s], faults(st.flushes)).ok
    ensures StreamInv(FlushAndReport(st, s, faults), x, msgs, tables)
  {
    hide Core, Reaches, AllTaken, Batches, RecordsOf, HasFailed, BrokenOff, WriteMany, Concat, Initial;
    var batch, next := st.buffers[s], Flush(st, s, faults);
    CoreHolds(st, s, msgs, tables);
    CoreHolds(st, x, msgs, tables);
    LogSnoc(st.log, FlushFailed(s, batch), x);
    LogSnoc(next.log, StreamError(s), x);
    if x == s {
      BreaksOff(Initial(tables, s), Batches(st.log, s), batch, faults(st.flushes), RecordsOf(msgs, s));
    }
  }

  lemma FlushLog(st: State, s: string, msgs: seq<Message>, tables: map<string, Table>, faults: nat -> Fault)
    requires Core(st, msgs, tables) && s !in st.failed && BufferOf(st, s) != []
    ensures LogAllowed(FlushAndReport(st, s, faults).log, msgs) && Settled(FlushAndReport(st, s, faults).log)
  {
    var batch, next := st.buffers[s], Flush(st, s, faults);
    assert StreamInv(st, s, msgs, tables);
    if WriteMany(TableOf(st, s), batch, faults(st.flushes)).ok {
      AllowedSnoc(st.log, Flushed(s, batch), msgs);
    } else {
      AllowedSnoc(st.log, FlushFailed(s, batch), msgs);
      AllowedSnoc(next.log, StreamError(s), msgs);
    }
  }

  lemma FlushKeepsCore(st: State, s: string, msgs: seq<Message>, tables: map<string, Table>, faults: nat -> Fault)
    requires Core(st, msgs, tables)
    ensures Core(FlushAndReport(st, s, faults), msgs, tables)
  {
    hide StreamInv, LogAllowed, WriteMany, TableOf, Settled;
    if s !in st.failed && BufferOf(st, s) != [] {
      FlushLog(st, s, msgs, tables, faults);
      forall x ensures StreamInv(FlushAndReport(st, s, faults), x, msgs, tables) {
        if WriteMany(TableOf(st, s), st.buffers[s], faults(st.flushes)).ok {
          FlushWrites(st, s, x, msgs, tables, faults);
        } else {
          FlushFails(st, s, x, msgs, tables, faults);
        }
      }
    }
  }

  // ---- Accepting and passing messages ----

  /** A message adds nothing to the records of running streams: a state, or a record of a failed stream. */
  lemma SkipKeepsCore(st: State, m: Message, msgs: seq<Message>, tables: map<string, Table>)
    requires Core(st, msgs, tables) && (m.Record? ==> m.stream in st.failed)
    ensures Core(st, msgs + [m], tables)
  {
    AllowedWithMore(st.log, msgs, m);
    hide LogAllowed, BrokenOff, AllTaken, Reaches, HasFailed, RecordsOf;
    forall x ensures StreamInv(st, x, msgs + [m], tables) {
      assert StreamInv(st, x, msgs, tables);
      RecordsSnoc(msgs, m, x);
      if x in st.failed {
        BrokenOffGrows(Initial(tables, x), Batches(st.log, x), TableOf(st, x), RecordsOf(msgs, x),
                       RecordsOf(msgs + [m], x));
      }
    }
  }

  lemma PushStream(st: State, s: string, e: Entry, x: string, msgs: seq<Message>, tables: map<string, Table>)
    requires StreamInv(st, x, msgs, tables) && s !in st.failed
    ensures StreamInv(Push(st, s, e), x, msgs + [Record(s, e)], tables)
  {
    RecordsSnoc(msgs, Record(s, e), x);
    hide WriteMany, Reaches, AllTaken, Batches, WrittenRecords, RecordsOf, HasFailed, BrokenOff;
    if x in st.failed {
      BrokenOffGrows(Initial(tables, x), Batches(st.log, x), TableOf(st, x), RecordsOf(msgs, x),
                     RecordsOf(msgs + [Record(s, e)], x));
    }
    var w, b := WrittenRecords(st.log, x), BufferOf(st, x);
    if x == s && x !in st.failed {
      assert BufferOf(Push(st, s, e), x) == b + [e];
      assert w + (b + [e]) == (w + b) + [e];
    }
  }

  lemma PushKeepsCore(st: State, s: string, e: Entry, msgs: seq<Message>, tables: map<string, Table>)
    requires Core(st, msgs, tables) && s !in st.failed
    ensures Core(Push(st, s, e), msgs + [Record(s, e)], tables)
  {
    hide StreamInv, LogAllowed;
    AllowedWithMore(st.log, msgs, Record(s, e));
    forall x ensures StreamInv(Push(st, s, e), x, msgs + [Record(s, e)], tables) {
      PushStream(st, s, e, x, msgs, tables);
    }
  }

  /** Message `index` may pass now. */
  ghost predicate MayPass(st: State, index: nat, msgs: seq<Message>, tables: map<string, Table>) {
    && Core(st, msgs, tables)
    && index < |msgs|
    && PassedBelow(st.log, index)
    && (forall s :: Concerns(msgs[index], s) ==> s !in st.failed)
    && (msgs[index].StreamState? ==>
          BufferOf(st, msgs[index].stream) == [] &&
          RecordsOf(msgs, msgs[index].stream) == RecordsOf(msgs[..index], msgs[index].stream))
  }

  lemma PassStream(st: State, index: nat, x: string, msgs: seq<Message>, tables: map<string, Table>)
    requires StreamInv(st, x, msgs, tables)
    ensures StreamInv(Emit(st, Passed(index)), x, msgs, tables)
  {
    LogSnoc(st.log, Passed(index), x);
  }

  lemma PassAllowed(st: State, index: nat, msgs: seq<Message>, tables: map<string, Table>)
    requires MayPass(st, index, msgs, tables)
    ensures EventAllowed(st.log, Passed(index), msgs)
  {
    forall s | Concerns(msgs[index], s) ensures !HasFailed(st.log, s) {
      assert StreamInv(st, s, msgs, tables);
    }
    if msgs[index].StreamState? {
      var s := msgs[index].stream;
      assert Concerns(msgs[index], s);
      assert StreamInv(st, s, msgs, tables);
      assert WrittenRecords(st.log, s) + [] == WrittenRecords(st.log, s);
    }
  }

  lemma PassKeepsCore(st: State, index: nat, msgs: seq<Message>, tables: map<string, Table>)
    requires MayPass(st, index, msgs, tables)
    ensures Core(Emit(st, Passed(index)), msgs, tables)
  {
    PassAllowed(st, index, msgs, tables);
    hide StreamInv, LogAllowed, EventAllowed;
    AllowedSnoc(st.log, Passed(index), msgs);
    forall x ensures StreamInv(Emit(st, Passed(index)), x, msgs, tables) {
      PassStream(st, index, x, msgs, tables);
    }
  }

  // ---- One step ----

  /** Messages already passed stay passed; failures only remove obligations. */
  lemma AllPassedLater(st: State, next: State, m: Message, msgs: seq<Message>)
    requires AllPassed(st, msgs) && st.log <= next.log && st.failed <= next.failed
    requires (forall s :: Concerns(m, s) ==> s !in next.failed) ==> Passed(|msgs|) in next.log
    ensures AllPassed(next, msgs + [m])
  {
    forall j: nat | j < |msgs + [m]| && (forall s :: Concerns((msgs + [m])[j], s) ==> s !in next.failed)
      ensures Passed(j) in next.log
    {
      if j < |msgs| {
        assert (msgs + [m])[j] == msgs[j];
        assert Passed(j) in st.log;
      } else {
        assert (msgs + [m])[j] == m;
      }
    }
  }

  /** The invariant once message `m`, the next one, has been accepted and its stream flushed if due. */
  ghost predicate Accepted(
    st: State, next: State, m: Message, msgs: seq<Message>, batchSize: nat, tables: map<string, Table>) {
    && Core(next, msgs + [m], tables)
    && Bounded(next, batchSize)
    && PassedBelow(next.log, |msgs|)
    && st.log <= next.log && st.failed <= next.failed
  }

  lemma PassingStep(st: State, next: State, m: Message, msgs: seq<Message>, batchSize: nat, tables: map<string, Table>)
    requires AllPassed(st, msgs) && Accepted(st, next, m, msgs, batchSize, tables)
    requires forall s :: Concerns(m, s) ==> s !in next.failed
    requires m.StreamState? ==> BufferOf(next, m.stream) == []
    ensures Inv(Emit(next, Passed(|msgs|)), msgs + [m], batchSize, tables)
  {
    hide StreamInv, LogAllowed;
    var after := Emit(next, Passed(|msgs|));
    assert (msgs + [m])[|msgs|] == m && (msgs + [m])[..|msgs|] == msgs;
    if m.StreamState? {
      RecordsSnoc(msgs, m, m.stream);
    }
    assert MayPass(next, |msgs|, msgs + [m], tables);
    PassKeepsCore(next, |msgs|, msgs + [m], tables);
    assert after.log[|next.log|] == Passed(|msgs|);
    AllPassedLater(st, after, m, msgs);
  }

  lemma StoppedStep(
    st: State, next: State, m: Message, s: string, msgs: seq<Message>, batchSize: nat, tables: map<string, Table>)
    requires AllPassed(st, msgs) && Accepted(st, next, m, msgs, batchSize, tables)
    requires Concerns(m, s) && s in next.failed
    ensures Inv(next, msgs + [m], batchSize, tables)
  {
    hide StreamInv, LogAllowed;
    AllPassedLater(st, next, m, msgs);
  }

  lemma FlushBounded(st: State, next: State, s: string, batchSize: nat)
    requires OnlyFlushed(st, next, s)
    requires forall x :: x in st.buffers && x != s ==> st.buffers[x] == [] || |st.buffers[x]| < batchSize
    ensures Bounded(next, batchSize)
  {
  }

  lemma FlushPassed(st: State, next: State, s: string, n: nat)
    requires OnlyFlushed(st, next, s) && PassedBelow(st.log, n)
    ensures PassedBelow(next.log, n)
  {
    forall i | 0 <= i < |next.log| && next.log[i].Passed? ensures next.log[i].index < n {
      assert i < |st.log| ==> next.log[i] == st.log[i];
    }
  }

  lemma RecordStep(
    st: State, s: string, e: Entry, msgs: seq<Message>, batchSize: nat, tables: map<string, Table>,
    faults: nat -> Fault)
    requires Inv(st, msgs, batchSize, tables)
    ensures Inv(Step(st, Record(s, e), |msgs|, batchSize, faults), msgs + [Record(s, e)], batchSize, tables)
  {
    hide StreamInv, LogAllowed, Core, AllPassed, PassedBelow;
    hide FlushAndReport;
    var m := Record(s, e);
    if s in st.failed {
      FromInv(st, msgs, batchSize, tables);
      SkipKeepsCore(st, m, msgs, tables);
      assert Concerns(m, s);
      StoppedStep(st, st, m, s, msgs, batchSize, tables);
    } else {
      FromInv(st, msgs, batchSize, tables);
      var pushed := Push(st, s, e);
      PushKeepsCore(st, s, e, msgs, tables);
      var flushed := if |BufferOf(pushed, s)| >= batchSize then FlushAndReport(pushed, s, faults) else pushed;
      if |BufferOf(pushed, s)| >= batchSize {
        FlushKeepsCore(pushed, s, msgs + [m], tables, faults);
        FlushFrame(pushed, s, msgs + [m], tables, faults);
        FlushBounded(pushed, flushed, s, batchSize);
        FlushPassed(pushed, flushed, s, |msgs|);
      }
      assert Accepted(st, flushed, m, msgs, batchSize, tables);
      if s in flushed.failed {
        assert Concerns(m, s);
        StoppedStep(st, flushed, m, s, msgs, batchSize, tables);
      } else {
        PassingStep(st, flushed, m, msgs, batchSize, tables);
      }
    }
  }

  lemma FromInv(st: State, msgs: seq<Message>, batchSize: nat, tables: map<string, Table>)
    requires Inv(st, msgs, batchSize, tables)
    ensures Core(st, msgs, tables) && Bounded(st, batchSize) && PassedBelow(st.log, |msgs|) && AllPassed(st, msgs)
  {
  }

  lemma StateStep(
    st: State, s: string, msgs: seq<Message>, batchSize: nat, tables: map<string, Table>, faults: nat -> Fault)
    requires Inv(st, msgs, batchSize, tables)
    ensures Inv(Step(st, StreamState(s), |msgs|, batchSize, faults), msgs + [StreamState(s)], batchSize, tables)
  {
    hide StreamInv, LogAllowed, Core, AllPassed, PassedBelow, FlushAndReport;
    var m := StreamState(s);
    FromInv(st, msgs, batchSize, tables);
    if s in st.failed {
      SkipKeepsCore(st, m, msgs, tables);
      assert Concerns(m, s);
      StoppedStep(st, st, m, s, msgs, batchSize, tables);
    } else {
      var flushed := FlushAndReport(st, s, faults);
      FlushKeepsCore(st, s, msgs, tables, faults);
      FlushFrame(st, s, msgs, tables, faults);
      FlushBounded(st, flushed, s, batchSize);
      FlushPassed(st, flushed, s, |msgs|);
      SkipKeepsCore(flushed, m, msgs, tables);
      assert Accepted(st, flushed, m, msgs, batchSize, tables);
      if s in flushed.failed {
        assert Concerns(m, s);
        StoppedStep(st, flushed, m, s, msgs, batchSize, tables);
      } else {
        PassingStep(st, flushed, m, msgs, batchSize, tables);
      }
    }
  }

  /** Every step keeps the invariant. */
  lemma StepKeepsInv(
    st: State, m: Message, msgs: seq<Message>, batchSize: nat, tables: map<string, Table>, faults: nat -> Fault)
    requires Inv(st, msgs, batchSize, tables)
    ensures Inv(Step(st, m, |msgs|, batchSize, faults), msgs + [m], batchSize, tables)
  {
    hide StreamInv, LogAllowed, Core, AllPassed, PassedBelow, FlushAndReport;
    match m {
      case Record(s, e) => RecordStep(st, s, e, msgs, batchSize, tables, faults);
      case StreamState(s) => StateStep(st, s, msgs, batchSize, tables, faults);
      case _ =>
        FromInv(st, msgs, batchSize, tables);
        SkipKeepsCore(st, m, msgs, tables);
        PassingStep(st, st, m, msgs, batchSize, tables);
    }
  }

  lemma StartInv(batchSize: nat, tables: map<string, Table>)
    ensures Inv(Start(tables), [], batchSize, tables)
  {
    forall s ensures StreamInv(Start(tables), s, [], tables) {
    }
  }

  /** Whatever the messages and wherever the database fails, the invariant holds. */
  lemma {:induction false} RunKeepsInv(
    msgs: seq<Message>, batchSize: nat, tables: map<string, Table>, faults: nat -> Fault)
    ensures Inv(Run(Start(tables), msgs, batchSize, faults), msgs, batchSize, tables)
  {
    if msgs == [] {
      StartInv(batchSize, tables);
    } else {
      var front, m := msgs[..|msgs| - 1], msgs[|msgs| - 1];
      RunKeepsInv(front, batchSize, tables, faults);
      hide Inv, Step, Start;
      StepKeepsInv(Run(Start(tables), front, batchSize, faults), m, front, batchSize, tables, faults);
      assert front + [m] == msgs;
    }
  }

  // ---- The final flush ----

  ghost predicate Finishing(st: State, names: seq<string>, msgs: seq<Message>, tables: map<string, Table>) {
    && Core(st, msgs, tables)
    && AllPassed(st, msgs)
    && forall i :: 0 <= i < |names| ==> BufferOf(st, names[i]) == []
  }

  lemma AllPassedAfterFlush(st: State, next: State, s: string, msgs: seq<Message>)
    requires AllPassed(st, msgs) && OnlyFlushed(st, next, s)
    ensures AllPassed(next, msgs)
  {
    forall j: nat | j < |msgs| && (forall x :: Concerns(msgs[j], x) ==> x !in next.failed)
      ensures Passed(j) in next.log
    {
      assert Passed(j) in st.log;
    }
  }

  lemma EmptyStaysEmpty(st: State, next: State, s: string, x: string)
    requires OnlyFlushed(st, next, s) && BufferOf(st, x) == []
    ensures BufferOf(next, x) == []
  {
  }

  lemma {:induction false} FlushNamesFinishes(
    st: State, names: seq<string>, msgs: seq<Message>, tables: map<string, Table>, faults: nat -> Fault)
    requires Core(st, msgs, tables) && AllPassed(st, msgs)
    ensures Finishing(FlushNames(st, names, faults), names, msgs, tables)
    ensures FlushNames(st, names, faults).buffers.Keys == st.buffers.Keys
  {
    hide StreamInv, LogAllowed, Core, AllPassed, FlushAndReport, OnlyFlushed, BufferOf;
    if names != [] {
      var front, s := names[..|names| - 1], names[|names| - 1];
      var before := FlushNames(st, front, faults);
      FlushNamesFinishes(st, front, msgs, tables, faults);
      FlushKeepsCore(before, s, msgs, tables, faults);
      FlushFrame(before, s, msgs, tables, faults);
      var next := FlushAndReport(before, s, faults);
      AllPassedAfterFlush(before, next, s, msgs);
      FlushedKeys(before, next, s);
      forall i | 0 <= i < |names| ensures BufferOf(next, names[i]) == [] {
        if i < |front| {
          assert names[i] == front[i];
          EmptyStaysEmpty(before, next, s, names[i]);
        }
      }
    }
  }

  lemma FlushedKeys(st: State, next: State, s: string)
    requires OnlyFlushed(st, next, s)
    ensures next.buffers.Keys == st.buffers.Keys && BufferOf(next, s) == []
  {
  }

  // ---- What a whole run guarantees ----

  /**
   Checkpoint safety: when a stream-level state passes, all earlier records of its stream were
   written, in order and exactly once, and no flush of the stream had failed.
   */
  lemma StatePassesAfterItsRecords(log: seq<Event>, msgs: seq<Message>, i: nat)
    requires LogAllowed(log, msgs) && i < |log| && log[i].Passed?
    requires log[i].index < |msgs| && msgs[log[i].index].StreamState?
    ensures var s := msgs[log[i].index].stream;
            WrittenRecords(log[..i], s) == RecordsOf(msgs[..log[i].index], s) && !HasFailed(log[..i], s)
  {
    AllowedAt(log, msgs, i);
    assert Concerns(msgs[log[i].index], msgs[log[i].index].stream);
  }

  lemma FailureRemembered(log: seq<Event>, i: nat, k: nat, s: string)
    requires i < k <= |log| && log[i].FlushFailed? && log[i].stream == s
    ensures HasFailed(log[..k], s)
  {
    assert log[..k][i] == log[i];
  }

  /**
   A failing stream fails once; its single error status follows at once, and afterwards nothing
   of the stream is written or passed on.
   */
  lemma FailureEndsStream(log: seq<Event>, msgs: seq<Message>, i: nat, s: string)
    requires LogAllowed(log, msgs) && Settled(log)
    requires i < |log| && log[i].FlushFailed? && log[i].stream == s
    ensures i + 1 < |log| && log[i + 1] == StreamError(s)
    ensures forall k :: 0 <= k < |log| && log[k] == StreamError(s) ==> k == i + 1
    ensures forall k :: i < k < |log| ==> !((log[k].Flushed? || log[k].FlushFailed?) && log[k].stream == s)
    ensures forall k :: i < k < |log| && log[k].Passed? ==> log[k].index < |msgs| && !Concerns(msgs[log[k].index], s)
  {
    AllowedAt(log, msgs, i + 1);
    assert log[..i + 1][i] == log[i];
    forall k | i < k < |log|
      ensures !((log[k].Flushed? || log[k].FlushFailed?) && log[k].stream == s)
      ensures log[k].Passed? ==> log[k].index < |msgs| && !Concerns(msgs[log[k].index], s)
    {
      AllowedAt(log, msgs, k);
      FailureRemembered(log, i, k, s);
    }
    forall k | 0 <= k < |log| && log[k] == StreamError(s) ensures k == i + 1 {
      AllowedAt(log, msgs, k);
      assert log[..k][k - 1] == log[k - 1];
      if k - 1 < i {
        AllowedAt(log, msgs, i);
        FailureRemembered(log, k - 1, i, s);
      }
    }
  }

  /** Messages pass in input order, each at most once. */
  lemma PassedInOrder(log: seq<Event>, msgs: seq<Message>, i: nat, k: nat)
    requires LogAllowed(log, msgs) && i < k < |log| && log[i].Passed? && log[k].Passed?
    ensures log[i].index < log[k].index
  {
    AllowedAt(log, msgs, k);
    assert log[..k][i] == log[i];
  }

  function WholeRun(msgs: seq<Message>, batchSize: nat, tables: map<string, Table>, faults: nat -> Fault): State {
    Finish(Run(Start(tables), msgs, batchSize, faults), faults)
  }

  /** The log of every completed run is allowed throughout. */
  lemma WholeRunAllowed(msgs: seq<Message>, batchSize: nat, tables: map<string, Table>, faults: nat -> Fault)
    ensures var end := WholeRun(msgs, batchSize, tables, faults);
            LogAllowed(end.log, msgs) && Settled(end.log)
  {
    hide StreamInv, LogAllowed, AllPassed;
    var st := Run(Start(tables), msgs, batchSize, faults);
    RunKeepsInv(msgs, batchSize, tables, faults);
    FlushNamesFinishes(st, st.names, msgs, tables, faults);
  }

  /**
   A stream without a failed flush: every record was written exactly once and in order, its
   table is what the written batches make of it, and every message of it passed.
   */
  lemma RunningStreamComplete(
    msgs: seq<Message>, batchSize: nat, tables: map<string, Table>, faults: nat -> Fault, s: string)
    ensures var end := WholeRun(msgs, batchSize, tables, faults);
            !HasFailed(end.log, s) ==>
              && WrittenRecords(end.log, s) == RecordsOf(msgs, s)
              && AllTaken(Initial(tables, s), Batches(end.log, s))
              && TableOf(end, s) == Reaches(Initial(tables, s), Batches(end.log, s))
              && forall j: nat :: j < |msgs| && Concerns(msgs[j], s) ==> Passed(j) in end.log
  {
    var st, end := Run(Start(tables), msgs, batchSize, faults), WholeRun(msgs, batchSize, tables, faults);
    RunKeepsInv(msgs, batchSize, tables, faults);
    assert StreamInv(st, s, msgs, tables);
    FlushNamesFinishes(st, st.names, msgs, tables, faults);
    assert StreamInv(end, s, msgs, tables);
    if !HasFailed(end.log, s) {
      EmptyAtEnd(st, end, s);
      assert WrittenRecords(end.log, s) + [] == WrittenRecords(end.log, s);
      forall j: nat | j < |msgs| && Concerns(msgs[j], s) ensures Passed(j) in end.log {
        assert forall x :: Concerns(msgs[j], x) ==> x == s;
      }
    }
  }

  lemma EmptyAtEnd(st: State, end: State, s: string)
    requires end.buffers.Keys == st.buffers.Keys && (s in st.buffers <==> s in st.names)
    requires forall i :: 0 <= i < |st.names| ==> BufferOf(end, st.names[i]) == []
    ensures BufferOf(end, s) == []
  {
    if s in st.names {
      var i :| 0 <= i < |st.names| && st.names[i] == s;
    }
  }

  lemma FailedMatchesLog(
    msgs: seq<Message>, batchSize: nat, tables: map<string, Table>, faults: nat -> Fault, s: string)
    ensures var end := WholeRun(msgs, batchSize, tables, faults); s in end.failed <==> HasFailed(end.log, s)
  {
    var st := Run(Start(tables), msgs, batchSize, faults);
    RunKeepsInv(msgs, batchSize, tables, faults);
    FlushNamesFinishes(st, st.names, msgs, tables, faults);
    assert StreamInv(WholeRun(msgs, batchSize, tables, faults), s, msgs, tables);
  }
}
