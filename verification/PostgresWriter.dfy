/** The Postgres destination's write loop, step for step the state machine of PostgresRun. */
module PostgresWriter {
  import opened PostgresUpsert
  import opened PostgresCuts
  import opened PostgresRun

  class Writer {
    const batchSize: nat
    const faults: nat -> Fault
    var streamBuffers: map<string, seq<Entry>>
    var bufferNames: seq<string>
    var failedStreams: set<string>
    var tables: map<string, Table>
    var flushes: nat
    var log: seq<Event>

    function State(): PostgresRun.State
      reads this
    {
      PostgresRun.State(streamBuffers, bufferNames, failedStreams, tables, flushes, log)
    }

    constructor (batchSize: nat, tables: map<string, Table>, faults: nat -> Fault)
      ensures this.batchSize == batchSize && this.faults == faults
      ensures State() == Start(tables)
    {
      this.batchSize, this.faults, this.tables := batchSize, faults, tables;
      streamBuffers, bufferNames, failedStreams, flushes, log := map[], [], {}, 0, [];
    }

    /** True when the flush fails now; a failed or empty stream is not flushed. */
    method FlushStream(name: string) returns (error: bool)
      modifies this
      ensures State() == Flush(old(State()), name, faults)
      ensures error <==> name in failedStreams && name !in old(failedStreams)
    {
      if name in failedStreams {
        return false;
      }
      if name !in streamBuffers || streamBuffers[name] == [] {
        return false;
      }
      var buffer := streamBuffers[name];
      var written := WriteMany(if name in tables then tables[name] else map[], buffer, faults(flushes));
      tables := tables[name := written.table];
      flushes := flushes + 1;
      error := !written.ok;
      if error {
        failedStreams := failedStreams + {name};
        log := log + [FlushFailed(name, buffer)];
      } else {
        log := log + [Flushed(name, buffer)];
      }
      streamBuffers := streamBuffers[name := []];
    }

    method OnRecord(name: string, entry: Entry, index: nat)
      modifies this
      ensures State() == Step(old(State()), Record(name, entry), index, batchSize, faults)
    {
      if name in failedStreams {
        return;
      }
      if name !in streamBuffers {
        streamBuffers := streamBuffers[name := []];
        bufferNames := bufferNames + [name];
      }
      streamBuffers := streamBuffers[name := streamBuffers[name] + [entry]];
      assert [] + [entry] == [entry];
      assert streamBuffers == Push(old(State()), name, entry).buffers;
      assert State() == Push(old(State()), name, entry);
      if |streamBuffers[name]| >= batchSize {
        var error := FlushStream(name);
        if error {
          log := log + [StreamError(name)];
          return;
        }
      }
      log := log + [Passed(index)];
    }

    method OnStreamState(name: string, index: nat)
      modifies this
      ensures State() == Step(old(State()), StreamState(name), index, batchSize, faults)
    {
      if name in failedStreams {
        return;
      }
      var error := FlushStream(name);
      if error {
        log := log + [StreamError(name)];
        return;
      }
      log := log + [Passed(index)];
    }

    method FlushRemaining()
      modifies this
      ensures State() == Finish(old(State()), faults)
    {
      ghost var st := State();
      var names := bufferNames;
      for i := 0 to |names|
        invariant State() == FlushNames(st, names[..i], faults)
      {
        assert names[..i + 1][..i] == names[..i];
        var error := FlushStream(names[i]);
        if error {
          log := log + [StreamError(names[i])];
        }
      }
      assert names[..|names|] == names;
    }
  }

  /**
   A whole run.  Its log is allowed throughout: checkpoints pass only after their records are
   written, and a failing stream ends with one error status.
   */
  method Write(msgs: seq<Message>, batchSize: nat, tables: map<string, Table>, faults: nat -> Fault)
    returns (writer: Writer)
    ensures writer.State() == WholeRun(msgs, batchSize, tables, faults)
    ensures LogAllowed(writer.log, msgs) && Settled(writer.log)
    ensures forall s :: s !in writer.failedStreams ==> WrittenRecords(writer.log, s) == RecordsOf(msgs, s)
    ensures forall s :: Attempts(writer.log, s) <= AllBatches(msgs, batchSize, s)
    ensures forall s :: s !in writer.failedStreams ==> Batches(writer.log, s) == AllBatches(msgs, batchSize, s)
  {
    writer := new Writer(batchSize, tables, faults);
    for index := 0 to |msgs|
      invariant fresh(writer) && writer.batchSize == batchSize && writer.faults == faults
      invariant writer.State() == Run(Start(tables), msgs[..index], batchSize, faults)
    {
      assert msgs[..index + 1][..index] == msgs[..index];
      match msgs[index] {
        case Record(name, entry) => writer.OnRecord(name, entry, index);
        case StreamState(name) => writer.OnStreamState(name, index);
        case GlobalState => writer.log := writer.log + [Passed(index)];
        case Other => writer.log := writer.log + [Passed(index)];
      }
    }
    assert msgs[..|msgs|] == msgs;
    writer.FlushRemaining();
    WholeRunAllowed(msgs, batchSize, tables, faults);
    forall s
      ensures Attempts(writer.log, s) <= AllBatches(msgs, batchSize, s)
      ensures s !in writer.failedStreams ==>
        && WrittenRecords(writer.log, s) == RecordsOf(msgs, s)
        && Batches(writer.log, s) == AllBatches(msgs, batchSize, s)
    {
      hide *;
      RunningStreamComplete(msgs, batchSize, tables, faults, s);
      FailedMatchesLog(msgs, batchSize, tables, faults, s);
      BatchesAreCuts(msgs, batchSize, tables, faults, s);
    }
  }
}
