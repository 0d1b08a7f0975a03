/** What the table of a stream holds at the end of a run, whatever the batch size. */
module PostgresTables {
  import opened Sequences
  import opened PostgresUpsert
  import opened PostgresRun

  lemma StampedAppend(a: seq<Entry>, b: seq<Entry>)
    ensures Stamped(a + b) <==> Stamped(a) && Stamped(b)
  {
    if Stamped(a + b) {
      forall i | 0 <= i < |a| && a[i].LiveEntry? ensures a[i].stamp.Some? {
        assert (a + b)[i] == a[i];
      }
      forall i | 0 <= i < |b| && b[i].LiveEntry? ensures b[i].stamp.Some? {
        assert (a + b)[|a| + i] == b[i];
      }
    }
  }

  lemma {:induction false} OneByOneAppend(t: Table, a: seq<Entry>, b: seq<Entry>)
    requires Stamped(a) && Stamped(b)
    ensures Stamped(a + b) && OneByOne(t, a + b) == OneByOne(OneByOne(t, a), b)
    decreases |b|
  {
    StampedAppend(a, b);
    if b == [] {
      assert a + b == a;
    } else {
      FrontOfAppend(a, b);
      OneByOneAppend(t, a, b[..|b| - 1]);
    }
  }

  /** After each batch the table is that of the records so far, one by one. */
  ghost predicate OneByOneThroughout(t: Table, batches: seq<seq<Entry>>)
    requires Stamped(Concat(batches))
  {
    batches == [] ||
    (var front, last := batches[..|batches| - 1], batches[|batches| - 1];
     StampedAppend(Concat(front), last);
     OneByOneThroughout(t, front) && Reaches(t, batches) == OneByOne(t, Concat(batches)))
  }

  ghost predicate AllDeletesFinal(batches: seq<seq<Entry>>) {
    forall i :: 0 <= i < |batches| ==> DeletesAreFinal(batches[i])
  }

  lemma {:induction false} TakenAreStamped(t: Table, batches: seq<seq<Entry>>)
    requires AllTaken(t, batches)
    ensures Stamped(Concat(batches))
  {
    if batches != [] {
      TakenAreStamped(t, batches[..|batches| - 1]);
      StampedAppend(Concat(batches[..|batches| - 1]), batches[|batches| - 1]);
    }
  }

  /** Batches leave the table of their records one by one, at every step, if and only if deletes are final in each. */
  lemma {:induction false} BatchesOneByOne(t: Table, batches: seq<seq<Entry>>)
    requires AllTaken(t, batches)
    ensures Stamped(Concat(batches))
    ensures OneByOneThroughout(t, batches) <==> AllDeletesFinal(batches)
    ensures AllDeletesFinal(batches) ==> Reaches(t, batches) == OneByOne(t, Concat(batches))
  {
    TakenAreStamped(t, batches);
    if batches != [] {
      var front, last := batches[..|batches| - 1], batches[|batches| - 1];
      BatchesOneByOne(t, front);
      StampedAppend(Concat(front), last);
      hide WriteMany, OneByOne, DeletesAreFinal, Stamped;
      OneByOneAppend(t, Concat(front), last);
      TombstoneBatches(Reaches(t, front), last);
      assert AllDeletesFinal(batches) <==> AllDeletesFinal(front) && DeletesAreFinal(last);
    }
  }

  /** No live record follows a tombstone of its key. */
  ghost predicate NoRevival(entries: seq<Entry>) {
    forall i, j :: 0 <= i < j < |entries| && entries[i].Tombstone? && entries[i].key == entries[j].key ==>
      entries[j].Tombstone?
  }

  lemma NoRevivalInParts(a: seq<Entry>, b: seq<Entry>)
    requires NoRevival(a + b)
    ensures NoRevival(a) && NoRevival(b)
  {
    forall i, j | 0 <= i < j < |a| && a[i].Tombstone? && a[i].key == a[j].key ensures a[j].Tombstone? {
      assert (a + b)[i] == a[i] && (a + b)[j] == a[j];
    }
    forall i, j | 0 <= i < j < |b| && b[i].Tombstone? && b[i].key == b[j].key ensures b[j].Tombstone? {
      assert (a + b)[|a| + i] == b[i] && (a + b)[|a| + j] == b[j];
    }
  }

  lemma {:induction false} TombstoneIsThere(entries: seq<Entry>, k: Key) returns (i: nat)
    requires k in Tombstones(entries)
    ensures i < |entries| && entries[i] == Tombstone(k)
  {
    i := |entries| - 1;
    if entries[i] != Tombstone(k) {
      i := TombstoneIsThere(entries[..i], k);
    }
  }

  lemma {:induction false} EndsDeletedAfter(entries: seq<Entry>, k: Key, i: nat)
    requires NoRevival(entries) && i < |entries| && entries[i] == Tombstone(k)
    ensures EndsDeleted(entries, k)
  {
    var last := |entries| - 1;
    if entries[last].key != k {
      NoRevivalInParts(entries[..last], entries[last..]);
      assert entries[..last] + entries[last..] == entries;
      EndsDeletedAfter(entries[..last], k, i);
    }
  }

  lemma NoRevivalIsFinal(entries: seq<Entry>)
    requires NoRevival(entries)
    ensures DeletesAreFinal(entries)
  {
    forall k | k in Tombstones(entries) ensures EndsDeleted(entries, k) {
      var i := TombstoneIsThere(entries, k);
      EndsDeletedAfter(entries, k, i);
    }
  }

  // ---- Key by key ----

  /** Two tables agree about a key. */
  predicate Agree(a: Table, b: Table, k: Key) {
    (k in a <==> k in b) && (k in a ==> a[k] == b[k])
  }

  lemma {:induction false} OneByOneAgrees(a: Table, b: Table, entries: seq<Entry>, k: Key)
    requires Stamped(entries) && Agree(a, b, k)
    ensures Agree(OneByOne(a, entries), OneByOne(b, entries), k)
  {
    if entries != [] {
      OneByOneAgrees(a, b, entries[..|entries| - 1], k);
    }
  }

  /** A batch that the database takes deletes the keys with a tombstone, and treats the others one by one. */
  lemma TakenAt(t: Table, batch: seq<Entry>, k: Key)
    requires WriteMany(t, batch, NoFault).ok
    ensures k in Tombstones(batch) ==> k !in WriteMany(t, batch, NoFault).table
    ensures k !in Tombstones(batch) ==> Agree(WriteMany(t, batch, NoFault).table, OneByOne(t, batch), k)
  {
    UpsertIsApplyAll(t, Lives(batch));
    if k !in Tombstones(batch) {
      KeyWithoutTombstone(t, batch, k);
    }
  }

  lemma {:induction false} TombstonesAppend(a: seq<Entry>, b: seq<Entry>)
    ensures Tombstones(a + b) == Tombstones(a) + Tombstones(b)
    decreases |b|
  {
    if b == [] {
      assert a + b == a;
    } else {
      FrontOfAppend(a, b);
      TombstonesAppend(a, b[..|b| - 1]);
    }
  }

  /** A key that ends deleted, but not in the last part, ended deleted before, and is not in the last part. */
  lemma {:induction false} EndsDeletedBefore(a: seq<Entry>, b: seq<Entry>, k: Key)
    requires k !in Tombstones(b) && EndsDeleted(a + b, k)
    ensures EndsDeleted(a, k)
    decreases |b|
  {
    if b == [] {
      assert a + b == a;
    } else {
      FrontOfAppend(a, b);
      EndsDeletedBefore(a, b[..|b| - 1], k);
    }
  }

  ghost predicate EndsDeletedIfEver(entries: seq<Entry>, k: Key) {
    k in Tombstones(entries) ==> EndsDeleted(entries, k)
  }

  /** A key that ends deleted if it is ever deleted comes out the same, however the records are batched. */
  lemma {:induction false} BatchesAgree(t: Table, batches: seq<seq<Entry>>, k: Key)
    requires AllTaken(t, batches) && EndsDeletedIfEver(Concat(batches), k)
    ensures Stamped(Concat(batches)) && Agree(Reaches(t, batches), OneByOne(t, Concat(batches)), k)
  {
    TakenAreStamped(t, batches);
    if batches != [] {
      var front, last := batches[..|batches| - 1], batches[|batches| - 1];
      hide WriteMany, OneByOne, EndsDeleted, Tombstones, Stamped;
      StampedAppend(Concat(front), last);
      OneByOneAppend(t, Concat(front), last);
      TombstonesAppend(Concat(front), last);
      TakenAt(Reaches(t, front), last, k);
      if k in Tombstones(last) {
        KeyWithTombstone(t, Concat(batches), k);
      } else {
        if k in Tombstones(Concat(front)) {
          EndsDeletedBefore(Concat(front), last, k);
        }
        BatchesAgree(t, front, k);
        OneByOneAgrees(Reaches(t, front), OneByOne(t, Concat(front)), last, k);
      }
    }
  }

  lemma SameTable(a: Table, b: Table)
    requires forall k :: Agree(a, b, k)
    ensures a == b
  {
    forall k ensures k in a <==> k in b {
      assert Agree(a, b, k);
    }
    forall k | k in a ensures a[k] == b[k] {
      assert Agree(a, b, k);
    }
  }

  lemma FinalDeletesAgree(t: Table, batches: seq<seq<Entry>>)
    requires AllTaken(t, batches) && DeletesAreFinal(Concat(batches))
    ensures Stamped(Concat(batches)) && Reaches(t, batches) == OneByOne(t, Concat(batches))
  {
    hide OneByOne, Reaches, AllTaken, EndsDeleted, Tombstones, Stamped, Agree;
    TakenAreStamped(t, batches);
    forall k ensures Agree(Reaches(t, batches), OneByOne(t, Concat(batches)), k) {
      BatchesAgree(t, batches, k);
    }
    SameTable(Reaches(t, batches), OneByOne(t, Concat(batches)));
  }

  /** Every way to split the records into batches that the database takes leaves the table of the records one by one. */
  ghost predicate BatchingNeverMatters(t: Table, entries: seq<Entry>)
    requires Stamped(entries)
  {
    forall batches :: Concat(batches) == entries && AllTaken(t, batches) ==> Reaches(t, batches) == OneByOne(t, entries)
  }

  /** For records that also pass as one batch, that is so if and only if their deletes are final. */
  lemma BatchingNeverMattersIff(t: Table, entries: seq<Entry>)
    requires WriteMany(t, entries, NoFault).ok
    ensures Stamped(entries) && (BatchingNeverMatters(t, entries) <==> DeletesAreFinal(entries))
  {
    OneBatch(t, entries);
    hide OneByOne, Reaches, AllTaken, WriteMany, DeletesAreFinal, Stamped;
    TombstoneBatches(t, entries);
    if DeletesAreFinal(entries) {
      forall batches | Concat(batches) == entries && AllTaken(t, batches)
        ensures Reaches(t, batches) == OneByOne(t, entries)
      {
        FinalDeletesAgree(t, batches);
      }
    }
  }

  lemma OneBatch(t: Table, entries: seq<Entry>)
    requires WriteMany(t, entries, NoFault).ok
    ensures Stamped(entries) && Concat([entries]) == entries && AllTaken(t, [entries])
    ensures Reaches(t, [entries]) == WriteMany(t, entries, NoFault).table
  {
    assert [entries][..0] == [];
  }

  /** A stream without a failed flush ends with its records one by one, if deletes are final in each written batch. */
  lemma StreamIsOneByOne(
    msgs: seq<Message>, batchSize: nat, tables: map<string, Table>, faults: nat -> Fault, s: string)
    ensures var end := WholeRun(msgs, batchSize, tables, faults);
            !HasFailed(end.log, s) ==>
              && Stamped(RecordsOf(msgs, s)) && Stamped(Concat(Batches(end.log, s)))
              && (OneByOneThroughout(Initial(tables, s), Batches(end.log, s)) <==> AllDeletesFinal(Batches(end.log, s)))
              && (AllDeletesFinal(Batches(end.log, s)) ==>
                   TableOf(end, s) == OneByOne(Initial(tables, s), RecordsOf(msgs, s)))
  {
    hide WholeRun, RecordsOf, Batches, AllTaken, Initial, TableOf, HasFailed, Stamped, OneByOne;
    var end := WholeRun(msgs, batchSize, tables, faults);
    RunningStreamComplete(msgs, batchSize, tables, faults, s);
    if !HasFailed(end.log, s) {
      BatchesOneByOne(Initial(tables, s), Batches(end.log, s));
    }
  }

  /** When the deletes of the stream are final, its table does not depend on the batch size. */
  lemma BatchSizeIrrelevant(
    msgs: seq<Message>, batchSize: nat, tables: map<string, Table>, faults: nat -> Fault, s: string)
    requires DeletesAreFinal(RecordsOf(msgs, s))
    ensures var end := WholeRun(msgs, batchSize, tables, faults);
            !HasFailed(end.log, s) ==>
              Stamped(RecordsOf(msgs, s)) && TableOf(end, s) == OneByOne(Initial(tables, s), RecordsOf(msgs, s))
  {
    hide WholeRun, RecordsOf, Batches, AllTaken, Initial, TableOf, HasFailed, Stamped, OneByOne, DeletesAreFinal;
    var end := WholeRun(msgs, batchSize, tables, faults);
    RunningStreamComplete(msgs, batchSize, tables, faults, s);
    if !HasFailed(end.log, s) {
      FinalDeletesAgree(Initial(tables, s), Batches(end.log, s));
    }
  }

  /** In particular when no record of the stream revives a deleted key. */
  lemma NoRevivalBatchSizeIrrelevant(
    msgs: seq<Message>, batchSize: nat, tables: map<string, Table>, faults: nat -> Fault, s: string)
    requires NoRevival(RecordsOf(msgs, s))
    ensures var end := WholeRun(msgs, batchSize, tables, faults);
            !HasFailed(end.log, s) ==>
              Stamped(RecordsOf(msgs, s)) && TableOf(end, s) == OneByOne(Initial(tables, s), RecordsOf(msgs, s))
  {
    hide *;
    NoRevivalIsFinal(RecordsOf(msgs, s));
    BatchSizeIrrelevant(msgs, batchSize, tables, faults, s);
  }
}
