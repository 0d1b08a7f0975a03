/** The upsert and delete statements of a flush, and why the newest record of every key stays. */
module PostgresUpsert {
  import opened Options
  import opened Sequences

  type Key = string

  datatype StoredRow = StoredRow(stamp: int, data: string)

  type Table = map<Key, StoredRow>

  /** A live record that carries its staleness stamp. */
  datatype Live = Live(key: Key, row: StoredRow)

  // ---- One statement ----

  /** The WHERE of the conflict action: something differs, and the incoming row is newer. */
  predicate MayUpdate(existing: StoredRow, excluded: StoredRow) {
    && (existing.data != excluded.data || existing.stamp != excluded.stamp)
    && excluded.stamp > existing.stamp
  }

  /** The no-op check never decides: a newer row differs in its stamp. */
  lemma NoopCheckIsImplied(existing: StoredRow, excluded: StoredRow)
    ensures MayUpdate(existing, excluded) <==> excluded.stamp > existing.stamp
  {
  }

  /** A statement in progress: it must not affect the same row twice. */
  datatype Running = Running(table: Table, affected: set<Key>, created: nat, updated: nat)

  function ExecRow(run: Running, rec: Live): Option<Running> {
    if rec.key in run.affected then None
    else if rec.key !in run.table then
      Some(Running(run.table[rec.key := rec.row], run.affected + {rec.key}, run.created + 1, run.updated))
    else if MayUpdate(run.table[rec.key], rec.row) then
      Some(Running(run.table[rec.key := rec.row], run.affected + {rec.key}, run.created, run.updated + 1))
    else Some(run)
  }

  /** INSERT … ON CONFLICT DO UPDATE of all rows in one statement; none when the statement fails. */
  function ExecUpsert(t: Table, recs: seq<Live>): Option<Running> {
    if recs == [] then Some(Running(t, {}, 0, 0))
    else
      match ExecUpsert(t, recs[..|recs| - 1])
      case None => None
      case Some(run) => ExecRow(run, recs[|recs| - 1])
  }

  /** The record would be written to the table as it stands. */
  predicate Effective(t: Table, rec: Live) {
    rec.key !in t || rec.row.stamp > t[rec.key].stamp
  }

  /** Some record is written and then repeated. */
  ghost predicate AffectsTwice(t: Table, recs: seq<Live>) {
    exists i, j :: 0 <= i < j < |recs| && recs[i].key == recs[j].key && Effective(t, recs[i])
  }

  /** What a statement has affected so far, and that other rows are untouched. */
  ghost predicate Progress(t: Table, recs: seq<Live>, run: Running) {
    && (forall k :: k in run.affected <==> exists i :: 0 <= i < |recs| && recs[i].key == k && Effective(t, recs[i]))
    && (forall k :: k !in run.affected ==> (k in run.table <==> k in t) && (k in t ==> run.table[k] == t[k]))
  }

  lemma ProgressSnoc(t: Table, front: seq<Live>, last: Live, run: Running)
    requires Progress(t, front, run) && ExecRow(run, last).Some?
    ensures Progress(t, front + [last], ExecRow(run, last).value)
  {
    var recs, next := front + [last], ExecRow(run, last).value;
    assert forall i :: 0 <= i < |front| ==> recs[i] == front[i];
    assert recs[|front|] == last;
    forall k
      ensures k in next.affected <==> exists i :: 0 <= i < |recs| && recs[i].key == k && Effective(t, recs[i])
    {
      if i :| 0 <= i < |front| && front[i].key == k && Effective(t, front[i]) {
        assert recs[i].key == k;
      }
    }
  }

  lemma AffectsTwiceSnoc(t: Table, front: seq<Live>, last: Live)
    ensures AffectsTwice(t, front + [last]) <==>
            AffectsTwice(t, front) ||
            exists i :: 0 <= i < |front| && front[i].key == last.key && Effective(t, front[i])
  {
    var recs := front + [last];
    assert forall i :: 0 <= i < |front| ==> recs[i] == front[i];
    if AffectsTwice(t, front) {
      var i, j :| 0 <= i < j < |front| && front[i].key == front[j].key && Effective(t, front[i]);
      assert recs[i].key == recs[j].key;
    }
    if i :| 0 <= i < |front| && front[i].key == last.key && Effective(t, front[i]) {
      assert recs[i].key == recs[|front|].key;
    }
  }

  /** The statement fails exactly when some record is written and then repeated. */
  lemma {:induction false} UpsertFailsIff(t: Table, recs: seq<Live>)
    ensures ExecUpsert(t, recs).None? <==> AffectsTwice(t, recs)
    ensures ExecUpsert(t, recs).Some? ==> Progress(t, recs, ExecUpsert(t, recs).value)
  {
    if recs != [] {
      var front, last := recs[..|recs| - 1], recs[|recs| - 1];
      assert recs == front + [last];
      UpsertFailsIff(t, front);
      AffectsTwiceSnoc(t, front, last);
      if ExecUpsert(t, front).Some? && ExecUpsert(t, recs).Some? {
        ProgressSnoc(t, front, last, ExecUpsert(t, front).value);
      }
    }
  }

  predicate DistinctKeys(recs: seq<Live>) {
    forall i, j :: 0 <= i < j < |recs| ==> recs[i].key != recs[j].key
  }

  lemma DistinctKeysSucceed(t: Table, recs: seq<Live>)
    requires DistinctKeys(recs)
    ensures ExecUpsert(t, recs).Some?
  {
    UpsertFailsIff(t, recs);
  }

  /** Created rows are the growth of the table; every record is created, updated or skipped. */
  lemma {:induction false} UpsertStats(t: Table, recs: seq<Live>)
    requires ExecUpsert(t, recs).Some?
    ensures var run := ExecUpsert(t, recs).value;
            && run.created == |run.table| - |t|
            && run.created + run.updated == |run.affected| <= |recs|
  {
    if recs != [] {
      UpsertStats(t, recs[..|recs| - 1]);
    }
  }

  // ---- Record by record ----

  function Apply(t: Table, rec: Live): Table {
    if Effective(t, rec) then t[rec.key := rec.row] else t
  }

  function ApplyAll(t: Table, recs: seq<Live>): Table {
    if recs == [] then t else Apply(ApplyAll(t, recs[..|recs| - 1]), recs[|recs| - 1])
  }

  /** A statement that succeeds has the effect of its records one by one. */
  lemma {:induction false} UpsertIsApplyAll(t: Table, recs: seq<Live>)
    requires ExecUpsert(t, recs).Some?
    ensures ExecUpsert(t, recs).value.table == ApplyAll(t, recs)
  {
    if recs != [] {
      UpsertIsApplyAll(t, recs[..|recs| - 1]);
    }
  }

  lemma {:induction false} ApplyAllAppend(t: Table, a: seq<Live>, b: seq<Live>)
    ensures ApplyAll(t, a + b) == ApplyAll(ApplyAll(t, a), b)
    decreases |b|
  {
    if b == [] {
      assert a + b == a;
    } else {
      var front := b[..|b| - 1];
      ApplyAllAppend(t, a, front);
      assert (a + b)[..|a + b| - 1] == a + front;
    }
  }

  /** One statement per batch; none when some statement fails. */
  function ExecBatches(t: Table, batches: seq<seq<Live>>): Option<Table> {
    if batches == [] then Some(t)
    else
      match ExecBatches(t, batches[..|batches| - 1])
      case None => None
      case Some(before) =>
        match ExecUpsert(before, batches[|batches| - 1])
        case None => None
        case Some(run) => Some(run.table)
  }

  /** The batching does not matter: any split whose statements succeed gives the same table. */
  lemma {:induction false} BatchingIrrelevant(t: Table, batches: seq<seq<Live>>)
    requires ExecBatches(t, batches).Some?
    ensures ExecBatches(t, batches).value == ApplyAll(t, Concat(batches))
  {
    if batches != [] {
      var front, last := batches[..|batches| - 1], batches[|batches| - 1];
      BatchingIrrelevant(t, front);
      UpsertIsApplyAll(ExecBatches(t, front).value, last);
      ApplyAllAppend(t, Concat(front), last);
    }
  }

  // ---- Last writer wins ----

  /** The row of `k` comes from the table or a record, and none is newer. */
  ghost predicate NewestOf(t: Table, recs: seq<Live>, k: Key, row: StoredRow) {
    && ((k in t && t[k] == row) || Live(k, row) in recs)
    && (k in t ==> t[k].stamp <= row.stamp)
    && (forall rec :: rec in recs && rec.key == k ==> rec.row.stamp <= row.stamp)
  }

  lemma {:induction false} NewestStays(t: Table, recs: seq<Live>, k: Key)
    ensures k in ApplyAll(t, recs) <==> k in t || exists rec :: rec in recs && rec.key == k
    ensures k in ApplyAll(t, recs) ==> NewestOf(t, recs, k, ApplyAll(t, recs)[k])
  {
    if recs != [] {
      var front, last := recs[..|recs| - 1], recs[|recs| - 1];
      NewestStays(t, front, k);
      assert recs == front + [last];
      assert last in recs;
      assert forall rec :: rec in recs <==> rec in front || rec == last;
    }
  }

  /** A record that would be written, and that no record of its key beats. */
  ghost predicate Top(t: Table, recs: seq<Live>, x: Live) {
    x in recs && Effective(t, x) && forall rec :: rec in recs && rec.key == x.key ==> rec.row.stamp <= x.row.stamp
  }

  /** Each key that is written has one greatest record. */
  ghost predicate OneTopPerKey(t: Table, recs: seq<Live>) {
    forall x, y :: Top(t, recs, x) && Top(t, recs, y) && x.key == y.key ==> x == y
  }

  ghost predicate SameRecords(a: seq<Live>, b: seq<Live>) {
    forall rec :: rec in a <==> rec in b
  }

  /** A row stays while nothing newer arrives for its key. */
  lemma {:induction false} UnbeatenStays(t: Table, recs: seq<Live>, k: Key)
    requires k in t && forall rec :: rec in recs && rec.key == k ==> rec.row.stamp <= t[k].stamp
    ensures k in ApplyAll(t, recs) && ApplyAll(t, recs)[k] == t[k]
  {
    if recs != [] {
      var front, last := recs[..|recs| - 1], recs[|recs| - 1];
      assert last in recs && forall rec :: rec in front ==> rec in recs;
      UnbeatenStays(t, front, k);
    }
  }

  /** What becomes of a key: a top record's row if there is one, else the table's. */
  lemma TopIsWritten(t: Table, recs: seq<Live>, k: Key)
    ensures k in ApplyAll(t, recs) ==>
      || Top(t, recs, Live(k, ApplyAll(t, recs)[k]))
      || (k in t && ApplyAll(t, recs)[k] == t[k] && forall x :: Top(t, recs, x) ==> x.key != k)
    ensures k !in ApplyAll(t, recs) ==> k !in t && forall rec :: rec in recs ==> rec.key != k
  {
    NewestStays(t, recs, k);
    if k in t && forall rec :: rec in recs && rec.key == k ==> rec.row.stamp <= t[k].stamp {
      UnbeatenStays(t, recs, k);
    }
  }

  lemma SameTops(t: Table, a: seq<Live>, b: seq<Live>, x: Live)
    requires SameRecords(a, b)
    ensures Top(t, a, x) <==> Top(t, b, x)
  {
  }

  lemma SameRowAt(t: Table, a: seq<Live>, b: seq<Live>, k: Key)
    requires OneTopPerKey(t, a) && SameRecords(a, b)
    ensures k in ApplyAll(t, a) <==> k in ApplyAll(t, b)
    ensures k in ApplyAll(t, a) ==> ApplyAll(t, a)[k] == ApplyAll(t, b)[k]
  {
    hide Top, SameRecords, ApplyAll;
    TopIsWritten(t, a, k);
    TopIsWritten(t, b, k);
    NewestStays(t, a, k);
    NewestStays(t, b, k);
    InBoth(a, b);
    if k in ApplyAll(t, a) {
      SameTops(t, a, b, Live(k, ApplyAll(t, a)[k]));
    }
    if k in ApplyAll(t, b) {
      SameTops(t, a, b, Live(k, ApplyAll(t, b)[k]));
    }
  }

  lemma InBoth(a: seq<Live>, b: seq<Live>)
    requires SameRecords(a, b)
    ensures forall rec :: rec in a <==> rec in b
  {
  }

  /** Among records that tie for the top, the one that comes first is kept. */
  lemma FirstTopStays(t: Table, recs: seq<Live>, x: Live)
    requires Top(t, recs, x)
    ensures SameRecords(recs, [x] + recs)
    ensures x.key in ApplyAll(t, [x] + recs) && ApplyAll(t, [x] + recs)[x.key] == x.row
  {
    assert [x][..0] == [];
    assert ApplyAll(t, [x]) == t[x.key := x.row];
    ApplyAllAppend(t, [x], recs);
    UnbeatenStays(t[x.key := x.row], recs, x.key);
  }

  /** The order and repetition of records do not matter when each written key has one greatest record. */
  lemma OrderIrrelevant(t: Table, a: seq<Live>, b: seq<Live>)
    requires OneTopPerKey(t, a) && SameRecords(a, b)
    ensures ApplyAll(t, a) == ApplyAll(t, b)
  {
    hide OneTopPerKey, SameRecords;
    forall k
      ensures k in ApplyAll(t, a) <==> k in ApplyAll(t, b)
      ensures k in ApplyAll(t, a) ==> ApplyAll(t, a)[k] == ApplyAll(t, b)[k]
    {
      SameRowAt(t, a, b, k);
    }
  }

  ghost predicate OrderNeverMatters(t: Table, a: seq<Live>) {
    forall b :: SameRecords(a, b) ==> ApplyAll(t, a) == ApplyAll(t, b)
  }

  /**
   The table depends only on which records arrived if and only if no two records of one key tie for
   the greatest stamp, above the one in the table.
   */
  lemma OrderIrrelevantIff(t: Table, a: seq<Live>)
    ensures OrderNeverMatters(t, a) <==> OneTopPerKey(t, a)
  {
    hide Top, SameRecords, ApplyAll;
    if OneTopPerKey(t, a) {
      forall b | SameRecords(a, b) ensures ApplyAll(t, a) == ApplyAll(t, b) {
        OrderIrrelevant(t, a, b);
      }
    }
    if OrderNeverMatters(t, a) {
      forall x, y | Top(t, a, x) && Top(t, a, y) && x.key == y.key ensures x == y {
        FirstTopStays(t, a, x);
        FirstTopStays(t, a, y);
        assert ApplyAll(t, [x] + a) == ApplyAll(t, [y] + a);
      }
    }
  }

  /** Writing already written records again, in any order, changes nothing. */
  lemma {:induction false} ReplayChangesNothing(t: Table, recs: seq<Live>, again: seq<Live>)
    requires forall rec :: rec in again ==> rec in recs
    ensures ApplyAll(ApplyAll(t, recs), again) == ApplyAll(t, recs)
  {
    if again != [] {
      var last := again[|again| - 1];
      ReplayChangesNothing(t, recs, again[..|again| - 1]);
      assert last in again;
      NewestStays(t, recs, last.key);
    }
  }

  /** The smallest case where the order does matter: two records of equal stamp, of which the first one stays. */
  lemma EqualStampsKeepFirst()
    ensures var a, b := Live("k", StoredRow(1, "a")), Live("k", StoredRow(1, "b"));
            ApplyAll(map[], [a, b]) != ApplyAll(map[], [b, a])
  {
    var a, b := Live("k", StoredRow(1, "a")), Live("k", StoredRow(1, "b"));
    assert [a, b][..1] == [a] && [b, a][..1] == [b];
    assert [a][..0] == [] && [b][..0] == [];
    assert ApplyAll(map[], [a]) == map["k" := a.row] && ApplyAll(map[], [b]) == map["k" := b.row];
    assert ApplyAll(map[], [a, b]) == map["k" := a.row] && ApplyAll(map[], [b, a]) == map["k" := b.row];
    assert a.row.data[0] != b.row.data[0];
  }

  // ---- Batches with tombstones ----

  /** A buffered record; a live one may lack its stamp. */
  datatype Entry = LiveEntry(key: Key, stamp: Option<int>, data: string) | Tombstone(key: Key)

  predicate Stamped(entries: seq<Entry>) {
    forall i :: 0 <= i < |entries| && entries[i].LiveEntry? ==> entries[i].stamp.Some?
  }

  function Lives(entries: seq<Entry>): seq<Live>
    requires Stamped(entries)
  {
    if entries == [] then []
    else
      var rest, e := Lives(entries[..|entries| - 1]), entries[|entries| - 1];
      if e.LiveEntry? then rest + [Live(e.key, StoredRow(e.stamp.value, e.data))] else rest
  }

  function Tombstones(entries: seq<Entry>): set<Key> {
    if entries == [] then {}
    else
      var rest, e := Tombstones(entries[..|entries| - 1]), entries[|entries| - 1];
      if e.Tombstone? then rest + {e.key} else rest
  }

  /** Where a database error may strike. */
  datatype Fault = NoFault | BeforeUpsert | BeforeDelete

  datatype Written = Written(ok: bool, table: Table)

  /** Live records in one upsert statement, then tombstones in one delete statement. */
  function WriteMany(t: Table, entries: seq<Entry>, fault: Fault): Written {
    if !Stamped(entries) then Written(false, t)
    else if fault.BeforeUpsert? then Written(false, t)
    else
      match ExecUpsert(t, Lives(entries))
      case None => Written(false, t)
      case Some(run) =>
        if fault.BeforeDelete? then Written(false, run.table)
        else Written(true, run.table - Tombstones(entries))
  }

  /** A batch fails, without a fault, exactly when a live record lacks its stamp or a written row is hit again. */
  lemma WriteFailsIff(t: Table, entries: seq<Entry>)
    ensures WriteMany(t, entries, NoFault).ok <==> Stamped(entries) && !AffectsTwice(t, Lives(entries))
    ensures !WriteMany(t, entries, NoFault).ok ==> WriteMany(t, entries, NoFault).table == t
  {
    if Stamped(entries) {
      UpsertFailsIff(t, Lives(entries));
    }
  }

  /** The live records are those of the entries, in order. */
  lemma {:induction false} LivesAre(entries: seq<Entry>)
    requires Stamped(entries)
    ensures forall rec :: rec in Lives(entries) <==>
      LiveEntry(rec.key, Some(rec.row.stamp), rec.row.data) in entries
    ensures forall k :: k in Tombstones(entries) <==> Tombstone(k) in entries
  {
    if entries != [] {
      var front, last := entries[..|entries| - 1], entries[|entries| - 1];
      LivesAre(front);
      FrontLast(entries);
    }
  }

  /** Record by record: a tombstone deletes, a live record is upserted. */
  function OneByOne(t: Table, entries: seq<Entry>): Table
    requires Stamped(entries)
  {
    if entries == [] then t
    else
      var before, e := OneByOne(t, entries[..|entries| - 1]), entries[|entries| - 1];
      if e.Tombstone? then before - {e.key} else Apply(before, Live(e.key, StoredRow(e.stamp.value, e.data)))
  }

  /** The last entry of `k`, if any, is a tombstone. */
  predicate EndsDeleted(entries: seq<Entry>, k: Key) {
    if entries == [] then false
    else
      var e := entries[|entries| - 1];
      if e.key == k then e.Tombstone? else EndsDeleted(entries[..|entries| - 1], k)
  }

  /** No key deleted in the batch comes back later in it. */
  ghost predicate DeletesAreFinal(entries: seq<Entry>) {
    forall k :: k in Tombstones(entries) ==> EndsDeleted(entries, k)
  }

  lemma {:induction false} KeyWithoutTombstone(t: Table, entries: seq<Entry>, k: Key)
    requires Stamped(entries) && k !in Tombstones(entries)
    ensures k in OneByOne(t, entries) <==> k in ApplyAll(t, Lives(entries))
    ensures k in OneByOne(t, entries) ==> OneByOne(t, entries)[k] == ApplyAll(t, Lives(entries))[k]
  {
    if entries != [] {
      var front := entries[..|entries| - 1];
      KeyWithoutTombstone(t, front, k);
      var rest, e := Lives(front), entries[|entries| - 1];
      if e.LiveEntry? {
        assert (rest + [Live(e.key, StoredRow(e.stamp.value, e.data))])[..|rest|] == rest;
      }
    }
  }

  lemma {:induction false} KeyWithTombstone(t: Table, entries: seq<Entry>, k: Key)
    requires Stamped(entries) && k in Tombstones(entries)
    ensures k !in OneByOne(t, entries) <==> EndsDeleted(entries, k)
  {
    var front, e := entries[..|entries| - 1], entries[|entries| - 1];
    if k in Tombstones(front) {
      KeyWithTombstone(t, front, k);
    }
  }

  /**
   A flush equals processing its records one by one if and only if every key with a tombstone
   in the batch also ends with one.
   */
  lemma TombstoneBatches(t: Table, entries: seq<Entry>)
    requires WriteMany(t, entries, NoFault).ok
    ensures WriteMany(t, entries, NoFault).table == OneByOne(t, entries) <==> DeletesAreFinal(entries)
  {
    var upserted := ApplyAll(t, Lives(entries));
    UpsertIsApplyAll(t, Lives(entries));
    assert WriteMany(t, entries, NoFault).table == upserted - Tombstones(entries);
    forall k
      ensures k !in Tombstones(entries) ==>
                (k in OneByOne(t, entries) <==> k in upserted) &&
                (k in upserted ==> OneByOne(t, entries)[k] == upserted[k])
      ensures k in Tombstones(entries) ==> (k !in OneByOne(t, entries) <==> EndsDeleted(entries, k))
    {
      if k in Tombstones(entries) {
        KeyWithTombstone(t, entries, k);
      } else {
        KeyWithoutTombstone(t, entries, k);
      }
    }
    var together, apart := WriteMany(t, entries, NoFault).table, OneByOne(t, entries);
    if DeletesAreFinal(entries) {
      assert together.Keys == apart.Keys;
      assert together == apart;
    } else {
      var k :| k in Tombstones(entries) && !EndsDeleted(entries, k);
      assert k !in together.Keys && k in apart.Keys;
      assert together != apart;
    }
  }

  /** A live record after its key's tombstone is lost within a batch, but not across two. */
  lemma LiveAfterTombstoneIsLost(stamp: int, data: string)
    ensures var batch := [Tombstone("k"), LiveEntry("k", Some(stamp), data)];
            "k" !in WriteMany(map[], batch, NoFault).table
    ensures "k" in WriteMany(WriteMany(map[], [Tombstone("k")], NoFault).table,
                             [LiveEntry("k", Some(stamp), data)], NoFault).table
  {
    var dead, live := Tombstone("k"), LiveEntry("k", Some(stamp), data);
    assert [dead, live][..1] == [dead] && [dead][..0] == [] && [live][..0] == [];
    var rec := Live("k", StoredRow(stamp, data));
    assert [rec][..0] == [];
    assert Lives([dead]) == [];
    assert Lives([dead, live]) == [rec] && Lives([live]) == [rec];
    assert Tombstones([dead]) == {"k"} && Tombstones([dead, live]) == {"k"} && Tombstones([live]) == {};
  }
}
