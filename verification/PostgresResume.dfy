/**
 Resuming a stream from a checkpoint.  When a run fails or is interrupted, the records after the last state
 that passed are sent again; some of them were written already, and one batch may be written in part.
 */
module PostgresResume {
  import opened Sequences
  import opened PostgresUpsert
  import opened PostgresRun
  import opened PostgresTables

  /** Once a key has been deleted, what it was before no longer matters. */
  lemma {:induction false} DeleteForgets(a: Table, b: Table, entries: seq<Entry>, k: Key)
    requires Stamped(entries) && k in Tombstones(entries)
    ensures Agree(OneByOne(a, entries), OneByOne(b, entries), k)
  {
    var front, e := entries[..|entries| - 1], entries[|entries| - 1];
    if k in Tombstones(front) {
      DeleteForgets(a, b, front, k);
    }
  }

  /** Records written again change nothing about a key that they do not delete. */
  lemma ReplayAt(t: Table, x: Table, extra: seq<Entry>, k: Key)
    requires Stamped(extra) && k !in Tombstones(extra) && Agree(x, OneByOne(t, extra), k)
    ensures Agree(OneByOne(x, extra), OneByOne(t, extra), k)
  {
    hide OneByOne, Tombstones;
    var y := ApplyAll(t, Lives(extra));
    KeyWithoutTombstone(t, extra, k);
    OneByOneAgrees(x, y, extra, k);
    KeyWithoutTombstone(y, extra, k);
    ReplayAll(t, Lives(extra));
  }

  lemma ReplayAll(t: Table, recs: seq<Live>)
    ensures ApplyAll(ApplyAll(t, recs), recs) == ApplyAll(t, recs)
  {
    ReplayChangesNothing(t, recs, recs);
  }

  /** `x` is what the records leave of `t`, but for keys that they delete. */
  ghost predicate LeftBy(t: Table, extra: seq<Entry>, x: Table) {
    Stamped(extra) && forall k :: k !in Tombstones(extra) ==> Agree(x, OneByOne(t, extra), k)
  }

  /** Sending the records again, and whatever comes after them, makes up for the difference. */
  lemma ReplayReaches(t: Table, x: Table, extra: seq<Entry>, rest: seq<Entry>)
    requires LeftBy(t, extra, x) && Stamped(rest)
    ensures Stamped(extra + rest) && OneByOne(x, extra + rest) == OneByOne(t, extra + rest)
  {
    hide OneByOne, Tombstones, Agree;
    OneByOneAppend(x, extra, rest);
    OneByOneAppend(t, extra, rest);
    forall k ensures Agree(OneByOne(x, extra + rest), OneByOne(t, extra + rest), k) {
      if k in Tombstones(extra) {
        DeleteForgets(x, t, extra, k);
      } else {
        ReplayAt(t, x, extra, k);
      }
      OneByOneAgrees(OneByOne(x, extra), OneByOne(t, extra), rest, k);
    }
    SameTable(OneByOne(x, extra + rest), OneByOne(t, extra + rest));
  }

  // ---- What batches leave, the last one perhaps broken off ----

  lemma BatchesLeave(t: Table, batches: seq<seq<Entry>>)
    requires AllTaken(t, batches)
    ensures LeftBy(t, Concat(batches), Reaches(t, batches))
  {
    hide OneByOne, Tombstones, Agree, Reaches, AllTaken, Stamped;
    TakenAreStamped(t, batches);
    forall k | k !in Tombstones(Concat(batches)) ensures Agree(Reaches(t, batches), OneByOne(t, Concat(batches)), k) {
      BatchesAgree(t, batches, k);
    }
  }

  /** A batch whose upsert was carried out, whether or not the delete was. */
  lemma UpsertedBatchLeaves(t: Table, batches: seq<seq<Entry>>, batch: seq<Entry>, fault: Fault)
    requires AllTaken(t, batches) && Stamped(batch) && !fault.BeforeUpsert?
    requires ExecUpsert(Reaches(t, batches), Lives(batch)).Some?
    ensures LeftBy(t, Concat(batches) + batch, WriteMany(Reaches(t, batches), batch, fault).table)
  {
    var x, before := WriteMany(Reaches(t, batches), batch, fault).table, Reaches(t, batches);
    TakenAreStamped(t, batches);
    UpsertIsApplyAll(before, Lives(batch));
    hide OneByOne, Tombstones, Reaches, AllTaken, Stamped, ExecUpsert;
    StampedAppend(Concat(batches), batch);
    TombstonesAppend(Concat(batches), batch);
    OneByOneAppend(t, Concat(batches), batch);
    forall k | k !in Tombstones(Concat(batches) + batch) ensures Agree(x, OneByOne(t, Concat(batches) + batch), k) {
      BatchesAgree(t, batches, k);
      KeyWithoutTombstone(before, batch, k);
      OneByOneAgrees(before, OneByOne(t, Concat(batches)), batch, k);
    }
  }

  /** However the last batch ended, the table is left by some of the records sent. */
  lemma BrokenOffLeaves(t: Table, batches: seq<seq<Entry>>, batch: seq<Entry>, fault: Fault) returns (extra: seq<Entry>)
    requires AllTaken(t, batches)
    ensures extra <= Concat(batches) + batch
    ensures LeftBy(t, extra, WriteMany(Reaches(t, batches), batch, fault).table)
  {
    hide LeftBy, AllTaken, Reaches, Stamped;
    if Stamped(batch) && !fault.BeforeUpsert? && ExecUpsert(Reaches(t, batches), Lives(batch)).Some? {
      UpsertedBatchLeaves(t, batches, batch, fault);
      extra := Concat(batches) + batch;
    } else {
      BatchesLeave(t, batches);
      extra := Concat(batches);
    }
  }

  lemma {:induction false} ReachesAppend(t: Table, a: seq<seq<Entry>>, b: seq<seq<Entry>>)
    ensures Reaches(t, a + b) == Reaches(Reaches(t, a), b)
    ensures AllTaken(t, a + b) <==> AllTaken(t, a) && AllTaken(Reaches(t, a), b)
    decreases |b|
  {
    if b == [] {
      assert a + b == a;
    } else {
      FrontOfAppend(a, b);
      hide WriteMany;
      ReachesAppend(t, a, b[..|b| - 1]);
    }
  }

  lemma {:induction false} BatchesGrow(log: seq<Event>, i: nat, s: string)
    requires i <= |log|
    ensures Batches(log[..i], s) <= Batches(log, s)
    decreases |log|
  {
    if i == |log| {
      assert log[..i] == log;
    } else {
      BatchesGrow(log[..|log| - 1], i, s);
      assert log[..|log| - 1][..i] == log[..i];
    }
  }

  /** Every stream's table, failed or not, is what its batches leave, the last one perhaps broken off. */
  lemma TableIsBrokenOff(st: State, s: string, msgs: seq<Message>, tables: map<string, Table>)
    requires Core(st, msgs, tables)
    ensures BrokenOff(Initial(tables, s), Batches(st.log, s), TableOf(st, s), RecordsOf(msgs, s))
  {
    hide LogAllowed, AllTaken, Reaches, HasFailed, RecordsOf, Concat, Batches, BrokenOff;
    assert StreamInv(st, s, msgs, tables);
    if s !in st.failed {
      NothingWritten(TableOf(st, s));
      assert Concat(Batches(st.log, s)) + [] <= RecordsOf(msgs, s);
      BreaksOff(Initial(tables, s), Batches(st.log, s), [], NoFault, RecordsOf(msgs, s));
    }
  }

  lemma NothingWritten(t: Table)
    ensures WriteMany(t, [], NoFault).table == t
  {
  }

  /** The table of stream `s` when event `i` of the log happened. */
  function TableAt(log: seq<Event>, i: nat, tables: map<string, Table>, s: string): Table
    requires i <= |log|
  {
    Reaches(Initial(tables, s), Batches(log[..i], s))
  }

  /** The state passed at event `i` is a checkpoint of stream `s`. */
  predicate IsCheckpoint(log: seq<Event>, i: nat, msgs: seq<Message>, s: string) {
    i < |log| && log[i].Passed? && log[i].index < |msgs| && msgs[log[i].index] == StreamState(s)
  }

  /** What the source sends again after the checkpoint. */
  ghost predicate SentSince(msgs: seq<Message>, j: nat, s: string, records: seq<Entry>) {
    && j <= |msgs| && RecordsOf(msgs[..j], s) <= RecordsOf(msgs, s)
    && RecordsOf(msgs, s)[|RecordsOf(msgs[..j], s)|..] <= records
  }

  lemma {:induction false} RecordsGrow(msgs: seq<Message>, j: nat, s: string)
    requires j <= |msgs|
    ensures RecordsOf(msgs[..j], s) <= RecordsOf(msgs, s)
    decreases |msgs|
  {
    if j == |msgs| {
      assert msgs[..j] == msgs;
    } else {
      RecordsGrow(msgs[..|msgs| - 1], j, s);
      assert msgs[..|msgs| - 1][..j] == msgs[..j];
    }
  }

  /**
   Resuming from a checkpoint: at any later point of the run, and wherever the database failed, the table
   with the records since then sent again is the checkpoint's table with those records.
   */
  lemma ResumeFromCheckpoint(
    st: State, msgs: seq<Message>, tables: map<string, Table>, s: string, i: nat, records: seq<Entry>)
    requires Core(st, msgs, tables) && IsCheckpoint(st.log, i, msgs, s)
    requires Stamped(records) && SentSince(msgs, st.log[i].index, s, records)
    ensures OneByOne(TableOf(st, s), records) == OneByOne(TableAt(st.log, i, tables, s), records)
  {
    hide LogAllowed, AllTaken, Reaches, RecordsOf, Concat, Batches, WriteMany, LeftBy, OneByOne, Stamped, StreamInv;
    var t0, acked := Initial(tables, s), RecordsOf(msgs[..st.log[i].index], s);
    var first, all := Batches(st.log[..i], s), Batches(st.log, s);
    TableIsBrokenOff(st, s, msgs, tables);
    var batch, fault :| Concat(all) + batch <= RecordsOf(msgs, s) &&
                        TableOf(st, s) == WriteMany(Reaches(t0, all), batch, fault).table;
    BatchesGrow(st.log, i, s);
    var more := all[|first|..];
    assert all == first + more;
    ReachesAppend(t0, first, more);
    ConcatAppend(first, more);
    StatePassesAfterItsRecords(st.log, msgs, i);
    var t := TableAt(st.log, i, tables, s);
    var extra := BrokenOffLeaves(t, more, batch, fault);
    SentAgain(acked, Concat(more) + batch, RecordsOf(msgs, s), records, extra);
    var rest := records[|extra|..];
    assert records == extra + rest;
    PartIsStamped(extra, rest);
    ReplayReaches(t, TableOf(st, s), extra, rest);
  }

  lemma PartIsStamped(a: seq<Entry>, b: seq<Entry>)
    requires Stamped(a + b)
    ensures Stamped(a) && Stamped(b)
  {
    StampedAppend(a, b);
  }

  lemma SentAgain(acked: seq<Entry>, written: seq<Entry>, all: seq<Entry>, records: seq<Entry>, extra: seq<Entry>)
    requires acked + written <= all && all[|acked|..] <= records && extra <= written
    ensures extra <= records
  {
    assert written <= all[|acked|..] by {
      assert (acked + written)[|acked|..] == written;
      assert all[..|acked + written|][|acked|..] == all[|acked|..][..|written|];
    }
  }

  // ---- Two runs ----

  /** A run that ended, or one that was interrupted after its last message. */
  function FirstRun(msgs: seq<Message>, batchSize: nat, tables: map<string, Table>, faults: nat -> Fault,
                    ended: bool): State
  {
    if ended then WholeRun(msgs, batchSize, tables, faults) else Run(Start(tables), msgs, batchSize, faults)
  }

  lemma FirstRunCore(
    msgs: seq<Message>, batchSize: nat, tables: map<string, Table>, faults: nat -> Fault, ended: bool)
    ensures Core(FirstRun(msgs, batchSize, tables, faults, ended), msgs, tables)
  {
    hide StreamInv, LogAllowed, AllPassed, FlushNames, Run;
    var st := Run(Start(tables), msgs, batchSize, faults);
    RunKeepsInv(msgs, batchSize, tables, faults);
    FlushNamesFinishes(st, st.names, msgs, tables, faults);
  }

  /**
   A run that fails or is interrupted, and a second one with everything since a checkpoint that passed, leave
   the table that the second one alone would leave of the checkpoint's table, whatever the batch sizes.
   */
  lemma ResumedRunCompletes(
    msgs: seq<Message>, batchSize: nat, tables: map<string, Table>, faults: nat -> Fault, ended: bool,
    s: string, i: nat, again: seq<Message>, batchSize': nat, faults': nat -> Fault)
    requires var st := FirstRun(msgs, batchSize, tables, faults, ended);
      IsCheckpoint(st.log, i, msgs, s) && SentSince(msgs, st.log[i].index, s, RecordsOf(again, s))
    requires DeletesAreFinal(RecordsOf(again, s))
    ensures var st := FirstRun(msgs, batchSize, tables, faults, ended);
            var end := WholeRun(again, batchSize', st.tables, faults');
            !HasFailed(end.log, s) ==>
              && Stamped(RecordsOf(again, s))
              && TableOf(end, s) == OneByOne(TableAt(st.log, i, tables, s), RecordsOf(again, s))
  {
    hide *;
    var st := FirstRun(msgs, batchSize, tables, faults, ended);
    FirstRunCore(msgs, batchSize, tables, faults, ended);
    BatchSizeIrrelevant(again, batchSize', st.tables, faults', s);
    TableIsInitial(st, s);
    if !HasFailed(WholeRun(again, batchSize', st.tables, faults').log, s) {
      ResumeFromCheckpoint(st, msgs, tables, s, i, RecordsOf(again, s));
    }
  }

  lemma TableIsInitial(st: State, s: string)
    ensures Initial(st.tables, s) == TableOf(st, s)
  {
  }
}
