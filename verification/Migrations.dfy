/**
 * The migration runner of the Postgres state store, as a crash-recovery protocol.
 *
 * Every statement that changes the database is one atomic step, and so is a migration with the row that
 * records it, because both are committed in one transaction. A run may stop before any of its steps.
 */
module Migrations {
  import opened Options
  import opened Sequences

  datatype Migration = Migration(id: int, name: string, sql: string, hash: string)

  /** A line of the `_migrations` table. */
  datatype Row = Row(id: int, name: string, hash: string)

  /**
   * The schema: the SQL texts run in it since it was created, its `_migrations` table, and the table an
   * old release called `migrations`.
   */
  datatype Schema =
    | Absent
    | Present(content: seq<string>, table: Option<seq<Row>>, legacy: Option<seq<Row>>)

  /** How a run ends: `Rejected` when a migration's row breaks a uniqueness constraint of the table. */
  datatype Outcome = Completed | HashMismatch | Rejected | Crashed

  const FRESH := Present([], None, None)

  // ----- The list of migrations -----

  predicate Ascending(ms: seq<Migration>) {
    forall i, j :: 0 <= i < j < |ms| ==> ms[i].id < ms[j].id
  }

  predicate DistinctIds(ms: seq<Migration>) {
    forall i, j :: 0 <= i < j < |ms| ==> ms[i].id != ms[j].id
  }

  predicate IsMarker(name: string) {
    "openapi:" <= name
  }

  /** File migrations leave the prefix of the marker rows alone. */
  predicate NoMarkers(ms: seq<Migration>) {
    forall i :: 0 <= i < |ms| ==> !IsMarker(ms[i].name)
  }

  predicate ListOk(ms: seq<Migration>) {
    Ascending(ms) && NoMarkers(ms)
  }

  function Insert(ms: seq<Migration>, m: Migration): seq<Migration> {
    if ms == [] || ms[|ms| - 1].id <= m.id then ms + [m] else Insert(ms[..|ms| - 1], m) + [ms[|ms| - 1]]
  }

  /** The order of `parseMigrations`: by id, equal ids as listed. */
  function SortById(ms: seq<Migration>): seq<Migration> {
    if ms == [] then [] else Insert(SortById(ms[..|ms| - 1]), ms[|ms| - 1])
  }

  lemma {:induction false} InsertKeeps(ms: seq<Migration>, m: Migration)
    ensures multiset(Insert(ms, m)) == multiset(ms) + multiset{m}
  {
    if ms != [] && ms[|ms| - 1].id > m.id {
      InsertKeeps(ms[..|ms| - 1], m);
      assert ms == ms[..|ms| - 1] + [ms[|ms| - 1]];
    }
  }

  /** Ids do not descend; equal ones are possible. */
  predicate NonDescending(ms: seq<Migration>) {
    forall i, j :: 0 <= i < j < |ms| ==> ms[i].id <= ms[j].id
  }

  /** The migrations with one id, as listed. */
  function OfId(ms: seq<Migration>, id: int): seq<Migration> {
    if ms == [] then []
    else OfId(ms[..|ms| - 1], id) + (if ms[|ms| - 1].id == id then [ms[|ms| - 1]] else [])
  }

  lemma OfIdSnoc(ms: seq<Migration>, m: Migration, id: int)
    ensures OfId(ms + [m], id) == OfId(ms, id) + (if m.id == id then [m] else [])
  {
    assert (ms + [m])[..|ms|] == ms;
  }

  lemma {:induction false} InsertIsStable(ms: seq<Migration>, m: Migration, id: int)
    ensures OfId(Insert(ms, m), id) == OfId(ms, id) + (if m.id == id then [m] else [])
  {
    if ms == [] || ms[|ms| - 1].id <= m.id {
      OfIdSnoc(ms, m, id);
    } else {
      var front, last := ms[..|ms| - 1], ms[|ms| - 1];
      InsertIsStable(front, m, id);
      OfIdSnoc(Insert(front, m), last, id);
    }
  }

  lemma {:induction false} InsertOrders(ms: seq<Migration>, m: Migration)
    requires NonDescending(ms)
    ensures NonDescending(Insert(ms, m))
  {
    if ms != [] && ms[|ms| - 1].id > m.id {
      var front := ms[..|ms| - 1];
      InsertOrders(front, m);
      InsertKeeps(front, m);
      forall i | 0 <= i < |Insert(front, m)| ensures Insert(front, m)[i].id <= ms[|ms| - 1].id {
        assert Insert(front, m)[i] in multiset(front) + multiset{m};
        InFront(front, m, Insert(front, m)[i]);
      }
    }
  }

  lemma InFront(front: seq<Migration>, m: Migration, x: Migration)
    requires x in multiset(front) + multiset{m}
    ensures x == m || exists i :: 0 <= i < |front| && front[i] == x
  {
    if x != m {
      assert x in front;
    }
  }

  /** Sorting keeps exactly the listed migrations, orders their ids, and leaves equal ids as listed. */
  lemma {:induction false} SortOrders(ms: seq<Migration>)
    ensures NonDescending(SortById(ms)) && multiset(SortById(ms)) == multiset(ms)
    ensures forall id :: OfId(SortById(ms), id) == OfId(ms, id)
  {
    if ms != [] {
      var front, m := ms[..|ms| - 1], ms[|ms| - 1];
      SortOrders(front);
      FrontLast(ms);
      hide NonDescending, Insert;
      InsertOrders(SortById(front), m);
      InsertKeeps(SortById(front), m);
      forall id ensures OfId(SortById(ms), id) == OfId(ms, id) {
        InsertIsStable(SortById(front), m, id);
      }
    }
  }

  lemma {:induction false} CountOfId(ms: seq<Migration>, i: nat, j: nat)
    requires i < j < |ms| && ms[i].id == ms[j].id
    ensures |OfId(ms, ms[i].id)| >= 2
  {
    var front := ms[..|ms| - 1];
    if j < |front| {
      CountOfId(front, i, j);
    } else {
      OneOfId(front, i);
    }
  }

  lemma {:induction false} OneOfId(ms: seq<Migration>, i: nat)
    requires i < |ms|
    ensures |OfId(ms, ms[i].id)| >= 1
  {
    if i < |ms| - 1 {
      OneOfId(ms[..|ms| - 1], i);
    }
  }

  lemma {:induction false} AtMostOneOfId(ms: seq<Migration>, id: int)
    requires DistinctIds(ms)
    ensures |OfId(ms, id)| <= 1
    ensures |OfId(ms, id)| == 1 ==> exists i :: 0 <= i < |ms| && ms[i].id == id
  {
    if ms != [] {
      AtMostOneOfId(ms[..|ms| - 1], id);
    }
  }

  /** Distinct ids come out in strictly ascending order. */
  lemma SortAscends(ms: seq<Migration>)
    requires DistinctIds(ms)
    ensures Ascending(SortById(ms))
  {
    hide SortById, OfId;
    var sorted := SortById(ms);
    SortOrders(ms);
    forall i, j | 0 <= i < j < |sorted| ensures sorted[i].id < sorted[j].id {
      if sorted[i].id == sorted[j].id {
        CountOfId(sorted, i, j);
        AtMostOneOfId(ms, sorted[i].id);
      }
    }
  }

  lemma SortedListOk(ms: seq<Migration>)
    requires DistinctIds(ms) && NoMarkers(ms)
    ensures ListOk(SortById(ms))
  {
    SortAscends(ms);
    SortOrders(ms);
    forall i | 0 <= i < |SortById(ms)| ensures !IsMarker(SortById(ms)[i].name) {
      assert SortById(ms)[i] in multiset(ms);
      assert SortById(ms)[i] in ms;
    }
  }

  function RowFor(m: Migration): Row {
    Row(m.id, m.name, m.hash)
  }

  function RowsFor(ms: seq<Migration>): seq<Row> {
    seq(|ms|, i requires 0 <= i < |ms| => RowFor(ms[i]))
  }

  function SqlsFor(ms: seq<Migration>): seq<string> {
    seq(|ms|, i requires 0 <= i < |ms| => ms[i].sql)
  }

  function MigrationOf(ms: seq<Migration>, id: int): Option<Migration> {
    if ms == [] then None else if ms[0].id == id then Some(ms[0]) else MigrationOf(ms[1..], id)
  }

  function RowOf(rows: seq<Row>, id: int): Option<Row> {
    if rows == [] then None else if rows[0].id == id then Some(rows[0]) else RowOf(rows[1..], id)
  }

  /** The recorded file migrations, without the marker rows. */
  function Files(rows: seq<Row>): seq<Row> {
    if rows == [] then []
    else (if IsMarker(rows[0].name) then [] else [rows[0]]) + Files(rows[1..])
  }

  predicate Records(rows: seq<Row>, id: int) {
    exists i :: 0 <= i < |rows| && rows[i].id == id
  }

  function Pending(rows: seq<Row>, ms: seq<Migration>): seq<Migration> {
    if ms == [] then []
    else (if Records(rows, ms[0].id) then [] else [ms[0]]) + Pending(rows, ms[1..])
  }

  // ----- The statements -----

  function CreatedIfMissing(s: Schema): Schema {
    if s.Absent? then FRESH else s
  }

  predicate NeedsRename(s: Schema) {
    s.Present? && s.legacy.Some? && s.table.None?
  }

  function Renamed(s: Schema): Schema
    requires NeedsRename(s)
  {
    Present(s.content, s.legacy, None)
  }

  predicate TableIsEmpty(s: Schema) {
    s.Present? && s.table == Some([])
  }

  function WithTable(s: Schema): Schema
    requires s.Present?
  {
    if s.table.Some? then s else s.(table := Some([]))
  }

  predicate HasTable(s: Schema) {
    s.Present? && s.table.Some?
  }

  function TableOf(s: Schema): seq<Row>
    requires HasTable(s)
  {
    s.table.value
  }

  predicate Clash(s: Schema, m: Migration)
    requires HasTable(s)
  {
    exists i :: 0 <= i < |TableOf(s)| && (TableOf(s)[i].id == m.id || TableOf(s)[i].name == m.name)
  }

  /** The migration and its row, committed together. */
  function Migrated(s: Schema, m: Migration): Schema
    requires HasTable(s)
  {
    s.(content := s.content + [m.sql], table := Some(TableOf(s) + [RowFor(m)]))
  }

  // ----- One run, as the states after each of its statements -----

  function AfterRename(s: Schema): Schema {
    var a := CreatedIfMissing(s);
    if NeedsRename(a) then Renamed(a) else a
  }

  /** The state in which the applied migrations are read. */
  function Prepared(s: Schema): (p: Schema)
    ensures HasTable(p)
  {
    var b := AfterRename(s);
    WithTable(if TableIsEmpty(b) then FRESH else b)
  }

  function Preparation(s: Schema): seq<Schema> {
    var a, b := CreatedIfMissing(s), AfterRename(s);
    [a] + (if NeedsRename(a) then [b] else []) + (if TableIsEmpty(b) then [Absent, FRESH] else []) + [Prepared(s)]
  }

  predicate InitialChanged(rows: seq<Row>, ms: seq<Migration>) {
    var applied, intended := RowOf(rows, 0), MigrationOf(ms, 0);
    applied.Some? && intended.Some? && applied.value.hash != intended.value.hash
  }

  predicate HashAgrees(row: Row, ms: seq<Migration>) {
    var intended := MigrationOf(ms, row.id);
    intended.Some? ==> intended.value.hash == row.hash
  }

  predicate HashesAgree(rows: seq<Row>, ms: seq<Migration>) {
    forall i :: 0 <= i < |rows| ==> HashAgrees(rows[i], ms)
  }

  function Reset(): seq<Schema> {
    [Absent, FRESH, WithTable(FRESH)]
  }

  /** The states of running `ms` one by one, up to the first one the table rejects. */
  function Upgrades(s: Schema, ms: seq<Migration>): seq<Schema>
    requires HasTable(s)
    decreases |ms|
  {
    if ms == [] || Clash(s, ms[0]) then []
    else [Migrated(s, ms[0])] + Upgrades(Migrated(s, ms[0]), ms[1..])
  }

  predicate AllAccepted(s: Schema, ms: seq<Migration>)
    requires HasTable(s)
    decreases |ms|
  {
    ms == [] || (!Clash(s, ms[0]) && AllAccepted(Migrated(s, ms[0]), ms[1..]))
  }

  /** What follows once the applied migrations are read in state `p`. */
  function Continuation(p: Schema, ms: seq<Migration>): seq<Schema>
    requires HasTable(p)
  {
    var rows := Files(TableOf(p));
    if InitialChanged(rows, ms) then Reset() + Upgrades(WithTable(FRESH), Pending([], ms))
    else if !HashesAgree(rows, ms) then []
    else Upgrades(p, Pending(rows, ms))
  }

  function ContinuationOutcome(p: Schema, ms: seq<Migration>): Outcome
    requires HasTable(p)
  {
    var rows := Files(TableOf(p));
    if InitialChanged(rows, ms) then (if AllAccepted(WithTable(FRESH), Pending([], ms)) then Completed else Rejected)
    else if !HashesAgree(rows, ms) then HashMismatch
    else if AllAccepted(p, Pending(rows, ms)) then Completed
    else Rejected
  }

  function Steps(s: Schema, ms: seq<Migration>): seq<Schema> {
    Preparation(s) + Continuation(Prepared(s), ms)
  }

  /** The state once `k` of the steps are done; more than there are is all of them. */
  function Play(s: Schema, steps: seq<Schema>, k: nat): Schema {
    if k == 0 || steps == [] then s else if k <= |steps| then steps[k - 1] else steps[|steps| - 1]
  }

  function After(s: Schema, ms: seq<Migration>, k: nat): Schema {
    Play(s, Steps(s, ms), k)
  }

  function OutcomeOf(s: Schema, ms: seq<Migration>, k: nat): Outcome {
    if k < |Steps(s, ms)| then Crashed else ContinuationOutcome(Prepared(s), ms)
  }

  // ----- What every step keeps -----

  function Done(ms: seq<Migration>): Schema {
    Present(SqlsFor(ms), Some(RowsFor(ms)), None)
  }

  function Recorded(s: Schema): seq<Row>
    requires s.Present?
  {
    if s.table.None? then [] else s.table.value
  }

  /** The first `n` migrations, and nothing else, were run and recorded. */
  predicate AtPrefix(s: Schema, ms: seq<Migration>, n: nat)
    requires n <= |ms|
  {
    && s.Present?
    && s.legacy.None?
    && s.content == SqlsFor(ms[..n])
    && Recorded(s) == RowsFor(ms[..n])
  }

  /** No schema, or one in which exactly a prefix of the list was run and recorded. */
  predicate Recoverable(s: Schema, ms: seq<Migration>) {
    s.Absent? || (|Recorded(s)| <= |ms| && AtPrefix(s, ms, |Recorded(s)|))
  }

  predicate AllRecoverable(states: seq<Schema>, ms: seq<Migration>) {
    forall i :: 0 <= i < |states| ==> Recoverable(states[i], ms)
  }

  lemma {:induction false} FilesKeepsAll(rows: seq<Row>)
    requires forall i :: 0 <= i < |rows| ==> !IsMarker(rows[i].name)
    ensures Files(rows) == rows
  {
    if rows != [] {
      FilesKeepsAll(rows[1..]);
    }
  }

  lemma {:induction false} FoundAt(ms: seq<Migration>, i: nat)
    requires Ascending(ms) && i < |ms|
    ensures MigrationOf(ms, ms[i].id) == Some(ms[i])
  {
    if i > 0 {
      FoundAt(ms[1..], i - 1);
    }
  }

  lemma {:induction false} RowFound(rows: seq<Row>, id: int)
    ensures RowOf(rows, id).Some? ==>
        exists i :: 0 <= i < |rows| && rows[i] == RowOf(rows, id).value && rows[i].id == id
  {
    if rows != [] && rows[0].id != id {
      RowFound(rows[1..], id);
    }
  }

  /** Rows recorded from the list itself never disagree with it. */
  lemma PrefixAgrees(ms: seq<Migration>, n: nat)
    requires Ascending(ms) && n <= |ms|
    ensures HashesAgree(RowsFor(ms[..n]), ms)
    ensures !InitialChanged(RowsFor(ms[..n]), ms)
  {
    var rows := RowsFor(ms[..n]);
    forall i | 0 <= i < |rows| ensures HashAgrees(rows[i], ms) {
      FoundAt(ms, i);
    }
    RowFound(rows, 0);
  }

  lemma PrefixRecords(ms: seq<Migration>, n: nat, i: nat)
    requires Ascending(ms) && n <= |ms| && i < |ms|
    ensures Records(RowsFor(ms[..n]), ms[i].id) <==> i < n
  {
    if i < n {
      assert RowsFor(ms[..n])[i].id == ms[i].id;
    } else {
      forall j | 0 <= j < n ensures RowsFor(ms[..n])[j].id != ms[i].id {
        assert ms[j].id < ms[i].id;
      }
    }
  }

  lemma {:induction false} PendingFrom(ms: seq<Migration>, n: nat, k: nat)
    requires Ascending(ms) && n <= |ms| && k <= |ms|
    ensures Pending(RowsFor(ms[..n]), ms[k..]) == ms[if k < n then n else k..]
    decreases |ms| - k
  {
    if k < |ms| {
      PendingFrom(ms, n, k + 1);
      PrefixRecords(ms, n, k);
      DropOneMore(ms, k);
      hide Ascending, RowsFor, Records;
      if n <= k {
        assert ms[k..] == [ms[k]] + ms[k + 1..];
      }
    }
  }

  /** After a recorded prefix, exactly the rest of the list is pending, in order. */
  lemma PendingIsRest(ms: seq<Migration>, n: nat)
    requires Ascending(ms) && n <= |ms|
    ensures Pending(RowsFor(ms[..n]), ms) == ms[n..]
  {
    PendingFrom(ms, n, 0);
    assert ms[0..] == ms;
  }

  lemma NextPrefix(s: Schema, ms: seq<Migration>, n: nat)
    requires n < |ms| && AtPrefix(s, ms, n) && HasTable(s)
    ensures AtPrefix(Migrated(s, ms[n]), ms, n + 1)
    ensures HasTable(Migrated(s, ms[n]))
    ensures Recoverable(Migrated(s, ms[n]), ms)
  {
    assert ms[..n + 1] == ms[..n] + [ms[n]];
    assert SqlsFor(ms[..n + 1]) == SqlsFor(ms[..n]) + [ms[n].sql];
    assert RowsFor(ms[..n + 1]) == RowsFor(ms[..n]) + [RowFor(ms[n])];
  }

  lemma {:induction false} UpgradesKeepPrefix(s: Schema, ms: seq<Migration>, n: nat)
    requires n <= |ms| && AtPrefix(s, ms, n) && HasTable(s)
    ensures AllRecoverable(Upgrades(s, ms[n..]), ms)
    ensures AllAccepted(s, ms[n..]) ==> Play(s, Upgrades(s, ms[n..]), |Upgrades(s, ms[n..])|) == Done(ms)
    decreases |ms| - n
  {
    if n == |ms| {
      assert ms[..n] == ms;
    } else if !Clash(s, ms[n]) {
      var t := Migrated(s, ms[n]);
      NextPrefix(s, ms, n);
      UpgradesKeepPrefix(t, ms, n + 1);
      assert ms[n..][0] == ms[n] && ms[n..][1..] == ms[n + 1..];
    }
  }

  lemma PreparedAtPrefix(s: Schema, ms: seq<Migration>)
    requires Recoverable(s, ms)
    ensures AllRecoverable(Preparation(s), ms)
    ensures Recoverable(Prepared(s), ms)
  {
    assert ms[..0] == [];
  }

  /** The prepared state of a recoverable schema holds a recorded prefix, and the rest is what is pending. */
  lemma PreparedContinues(s: Schema, ms: seq<Migration>)
    requires ListOk(ms) && Recoverable(s, ms)
    ensures var p := Prepared(s);
      && |TableOf(p)| <= |ms|
      && AtPrefix(p, ms, |TableOf(p)|)
      && Continuation(p, ms) == Upgrades(p, ms[|TableOf(p)|..])
      && (ContinuationOutcome(p, ms) == if AllAccepted(p, ms[|TableOf(p)|..]) then Completed else Rejected)
  {
    var p := Prepared(s);
    PreparedAtPrefix(s, ms);
    var n := |TableOf(p)|;
    FilesKeepsAll(RowsFor(ms[..n]));
    PrefixAgrees(ms, n);
    PendingIsRest(ms, n);
  }

  lemma AllRecoverableAppend(a: seq<Schema>, b: seq<Schema>, ms: seq<Migration>)
    requires AllRecoverable(a, ms) && AllRecoverable(b, ms)
    ensures AllRecoverable(a + b, ms)
  {
  }

  lemma StepsRecoverable(s: Schema, ms: seq<Migration>)
    requires ListOk(ms) && Recoverable(s, ms)
    ensures AllRecoverable(Steps(s, ms), ms)
  {
    PreparedAtPrefix(s, ms);
    PreparedContinues(s, ms);
    UpgradesKeepPrefix(Prepared(s), ms, |TableOf(Prepared(s))|);
    AllRecoverableAppend(Preparation(s), Continuation(Prepared(s), ms), ms);
  }

  // ----- Runs -----

  /** However far a run gets before it crashes, a prefix of the list was run and recorded, in id order. */
  lemma CrashIsRecoverable(s: Schema, ms: seq<Migration>, k: nat)
    requires ListOk(ms) && Recoverable(s, ms)
    ensures Recoverable(After(s, ms, k), ms)
  {
    StepsRecoverable(s, ms);
  }

  lemma PlayAppend(s: Schema, a: seq<Schema>, b: seq<Schema>, k: nat)
    ensures Play(s, a + b, k) == if k <= |a| then Play(s, a, k) else Play(Play(s, a, |a|), b, k - |a|)
  {
  }

  lemma PlayAll(s: Schema, a: seq<Schema>, k: nat)
    requires |a| <= k
    ensures Play(s, a, k) == Play(s, a, |a|)
  {
  }

  /** The last state of a run that is not cut short. */
  lemma WholeRun(s: Schema, ms: seq<Migration>, k: nat)
    requires |Steps(s, ms)| <= k
    ensures var c := Continuation(Prepared(s), ms); After(s, ms, k) == Play(Prepared(s), c, |c|)
  {
    var a, c := Preparation(s), Continuation(Prepared(s), ms);
    PlayAll(s, a + c, k);
    PlayAppend(s, a, c, |a| + |c|);
  }

  /** A completed run leaves the schema of running the whole list once, in id order. */
  lemma CompletedRunFinishes(s: Schema, ms: seq<Migration>, k: nat)
    requires ListOk(ms) && Recoverable(s, ms)
    requires OutcomeOf(s, ms, k) == Completed
    ensures After(s, ms, k) == Done(ms)
  {
    WholeRun(s, ms, k);
    PreparedContinues(s, ms);
    UpgradesKeepPrefix(Prepared(s), ms, |TableOf(Prepared(s))|);
  }

  /** Once everything is recorded, no statement of a later run changes anything. */
  lemma DoneIsStable(ms: seq<Migration>, k: nat)
    requires ListOk(ms) && ms != []
    ensures After(Done(ms), ms, k) == Done(ms)
    ensures k >= |Steps(Done(ms), ms)| ==> OutcomeOf(Done(ms), ms, k) == Completed
  {
    assert ms[..|ms|] == ms;
    PreparedContinues(Done(ms), ms);
  }

  lemma PreparationIdle(s: Schema)
    requires HasTable(s) && TableOf(s) != []
    ensures Prepared(s) == s && AllExtend(Preparation(s), s.content)
  {
  }

  lemma PlayExtends(s: Schema, steps: seq<Schema>, k: nat)
    requires s.Present? && AllExtend(steps, s.content)
    ensures Play(s, steps, k).Present? && s.content <= Play(s, steps, k).content
  {
  }

  /** From the first recorded migration on, no step of a run undoes or repeats one that was run before. */
  lemma NothingUndone(s: Schema, ms: seq<Migration>, k: nat)
    requires ListOk(ms) && Recoverable(s, ms) && s.Present? && Recorded(s) != []
    ensures After(s, ms, k).Present? && s.content <= After(s, ms, k).content
  {
    hide Preparation, Continuation, Upgrades, Prepared;
    PreparationIdle(s);
    PreparedContinues(s, ms);
    UpgradesExtend(s, ms[|TableOf(s)|..]);
    PlayExtends(s, Steps(s, ms), k);
  }

  predicate AllExtend(states: seq<Schema>, content: seq<string>) {
    forall i :: 0 <= i < |states| ==> states[i].Present? && content <= states[i].content
  }

  lemma {:induction false} UpgradesExtend(s: Schema, ms: seq<Migration>)
    requires HasTable(s)
    ensures AllExtend(Upgrades(s, ms), s.content)
    decreases |ms|
  {
    if ms != [] && !Clash(s, ms[0]) {
      UpgradesExtend(Migrated(s, ms[0]), ms[1..]);
    }
  }

  /** A release: the list it ships, and how many statements its run gets to execute. */
  datatype Deploy = Deploy(list: seq<Migration>, budget: nat)

  /** Each release ships the previous one's list, possibly with later migrations appended. */
  predicate AppendOnly(deploys: seq<Deploy>) {
    && (forall i :: 0 <= i < |deploys| ==> ListOk(deploys[i].list))
    && (forall i, j :: 0 <= i < j < |deploys| ==> deploys[i].list <= deploys[j].list)
  }

  function Deployed(deploys: seq<Deploy>): Schema {
    if deploys == [] then Absent
    else After(Deployed(deploys[..|deploys| - 1]), deploys[|deploys| - 1].list, deploys[|deploys| - 1].budget)
  }

  lemma RecoverableForLonger(s: Schema, a: seq<Migration>, b: seq<Migration>)
    requires Recoverable(s, a) && a <= b
    ensures Recoverable(s, b)
  {
    if s.Present? {
      assert b[..|Recorded(s)|] == a[..|Recorded(s)|];
    }
  }

  lemma {:induction false} DeploysKeepRecoverable(deploys: seq<Deploy>)
    requires AppendOnly(deploys) && deploys != []
    ensures Recoverable(Deployed(deploys), deploys[|deploys| - 1].list)
  {
    var front, last := deploys[..|deploys| - 1], deploys[|deploys| - 1];
    if front != [] {
      DeploysKeepRecoverable(front);
      RecoverableForLonger(Deployed(front), front[|front| - 1].list, last.list);
    }
    CrashIsRecoverable(Deployed(front), last.list, last.budget);
  }

  /**
   * From an absent schema, after any runs of append-only lists that crashed anywhere, one completed run
   * leaves exactly the schema of running its whole list once in id order.
   */
  lemma CrashRecovery(deploys: seq<Deploy>, ms: seq<Migration>, k: nat)
    requires AppendOnly(deploys) && ListOk(ms)
    requires forall i :: 0 <= i < |deploys| ==> deploys[i].list <= ms
    requires OutcomeOf(Deployed(deploys), ms, k) == Completed
    ensures After(Deployed(deploys), ms, k) == Done(ms)
  {
    if deploys != [] {
      DeploysKeepRecoverable(deploys);
      RecoverableForLonger(Deployed(deploys), deploys[|deploys| - 1].list, ms);
    }
    CompletedRunFinishes(Deployed(deploys), ms, k);
  }

  // ----- When a run completes -----

  /** No migration from `n` on shares its name with an earlier one. */
  predicate NamesFreeFrom(ms: seq<Migration>, n: nat) {
    forall i, j :: 0 <= i < j < |ms| && n <= j ==> ms[i].name != ms[j].name
  }

  lemma ClashIsSharedName(s: Schema, ms: seq<Migration>, n: nat)
    requires Ascending(ms) && n < |ms| && AtPrefix(s, ms, n) && HasTable(s)
    ensures Clash(s, ms[n]) <==> exists i :: 0 <= i < n && ms[i].name == ms[n].name
  {
    forall i | 0 <= i < n ensures TableOf(s)[i].id != ms[n].id && TableOf(s)[i].name == ms[i].name {
      assert ms[i].id < ms[n].id;
    }
  }

  lemma {:induction false} AcceptedIffNamesFree(s: Schema, ms: seq<Migration>, n: nat)
    requires Ascending(ms) && n <= |ms| && AtPrefix(s, ms, n) && HasTable(s)
    ensures AllAccepted(s, ms[n..]) <==> NamesFreeFrom(ms, n)
    decreases |ms| - n
  {
    if n < |ms| {
      ClashIsSharedName(s, ms, n);
      if !Clash(s, ms[n]) {
        NextPrefix(s, ms, n);
        AcceptedIffNamesFree(Migrated(s, ms[n]), ms, n + 1);
        assert ms[n..][0] == ms[n] && ms[n..][1..] == ms[n + 1..];
      }
    }
  }

  /**
   * A run completes if and only if it is not cut short and no migration still to run repeats a name: the
   * id is not part of the recorded name, so two files that differ in their number alone never both apply.
   */
  lemma CompletesIff(s: Schema, ms: seq<Migration>, k: nat)
    requires ListOk(ms) && Recoverable(s, ms)
    ensures OutcomeOf(s, ms, k) == Completed
       <==> k >= |Steps(s, ms)| && NamesFreeFrom(ms, |TableOf(Prepared(s))|)
  {
    PreparedContinues(s, ms);
    AcceptedIffNamesFree(Prepared(s), ms, |TableOf(Prepared(s))|);
  }

  // ----- Any starting schema -----

  lemma {:induction false} PendingOfNothing(ms: seq<Migration>)
    ensures Pending([], ms) == ms
  {
    if ms != [] {
      PendingOfNothing(ms[1..]);
    }
  }

  /** A changed first migration starts over: whatever was there, a completed run leaves the new list alone. */
  lemma ResetStartsOver(s: Schema, ms: seq<Migration>, k: nat)
    requires InitialChanged(Files(TableOf(Prepared(s))), ms)
    requires OutcomeOf(s, ms, k) == Completed
    ensures After(s, ms, k) == Done(ms)
  {
    WholeRun(s, ms, k);
    PendingOfNothing(ms);
    var t := WithTable(FRESH);
    assert ms[0..] == ms && ms[..0] == [];
    UpgradesKeepPrefix(t, ms, 0);
    PlayAppend(Prepared(s), Reset(), Upgrades(t, ms), 3 + |Upgrades(t, ms)|);
  }

  predicate Covers(s: Schema, m: Migration)
    requires HasTable(s)
  {
    exists i :: 0 <= i < |TableOf(s)| && TableOf(s)[i].id == m.id
  }

  lemma CoversStays(s: Schema, x: Migration, m: Migration)
    requires HasTable(s)
    ensures Covers(Migrated(s, m), m)
    ensures Covers(s, x) ==> Covers(Migrated(s, m), x)
  {
    assert TableOf(Migrated(s, m))[|TableOf(s)|].id == m.id;
    if Covers(s, x) {
      var i :| 0 <= i < |TableOf(s)| && TableOf(s)[i].id == x.id;
      assert TableOf(Migrated(s, m))[i].id == x.id;
    }
  }

  lemma {:induction false} UpgradesCover(s: Schema, ms: seq<Migration>, x: Migration)
    requires HasTable(s) && AllAccepted(s, ms)
    requires x in ms || Covers(s, x)
    ensures var t := Play(s, Upgrades(s, ms), |Upgrades(s, ms)|); HasTable(t) && Covers(t, x)
    decreases |ms|
  {
    if ms != [] {
      CoversStays(s, x, ms[0]);
      UpgradesCover(Migrated(s, ms[0]), ms[1..], x);
    }
  }

  lemma {:induction false} PendingOrRecorded(rows: seq<Row>, ms: seq<Migration>, m: Migration)
    requires m in ms
    ensures m in Pending(rows, ms) || Records(rows, m.id)
  {
    if m != ms[0] {
      PendingOrRecorded(rows, ms[1..], m);
    }
  }

  lemma {:induction false} FilesRecorded(rows: seq<Row>, id: int)
    requires Records(Files(rows), id)
    ensures Records(rows, id)
  {
    if rows != [] && rows[0].id != id {
      var f := Files(rows[1..]);
      var i :| 0 <= i < |Files(rows)| && Files(rows)[i].id == id;
      if IsMarker(rows[0].name) {
        assert f[i].id == id;
      } else {
        assert f[i - 1].id == id;
      }
      FilesRecorded(rows[1..], id);
      var j :| 0 <= j < |rows[1..]| && rows[1..][j].id == id;
      assert rows[j + 1].id == id;
    }
  }

  /** From any schema, with marker rows or a legacy table, a completed run has every listed id recorded. */
  lemma CompletedCoversList(s: Schema, ms: seq<Migration>, k: nat, m: Migration)
    requires OutcomeOf(s, ms, k) == Completed && m in ms
    ensures HasTable(After(s, ms, k)) && Covers(After(s, ms, k), m)
  {
    WholeRun(s, ms, k);
    var p := Prepared(s);
    var rows := Files(TableOf(p));
    if InitialChanged(rows, ms) {
      var t := WithTable(FRESH);
      PendingOfNothing(ms);
      UpgradesCover(t, ms, m);
      PlayAppend(p, Reset(), Upgrades(t, ms), 3 + |Upgrades(t, ms)|);
    } else {
      PendingOrRecorded(rows, ms, m);
      if Records(rows, m.id) {
        FilesRecorded(TableOf(p), m.id);
      }
      UpgradesCover(p, Pending(rows, ms), m);
    }
  }

  lemma {:induction false} UpgradesAppend(s: Schema, ms: seq<Migration>)
    requires HasTable(s) && AllAccepted(s, ms)
    ensures var t := Play(s, Upgrades(s, ms), |Upgrades(s, ms)|);
      t == s.(content := s.content + SqlsFor(ms), table := Some(TableOf(s) + RowsFor(ms)))
    decreases |ms|
  {
    if ms == [] {
      assert s.content + SqlsFor(ms) == s.content && TableOf(s) + RowsFor(ms) == TableOf(s);
    } else {
      var t := Migrated(s, ms[0]);
      UpgradesAppend(t, ms[1..]);
      assert t.content + SqlsFor(ms[1..]) == s.content + SqlsFor(ms);
      assert TableOf(t) + RowsFor(ms[1..]) == TableOf(s) + RowsFor(ms);
    }
  }

  /**
   * A completed run over any schema with recorded migrations adds exactly the unrecorded ones, after
   * everything run before: one with a low id that is added to the list late runs last.
   */
  lemma OnlyPendingRun(s: Schema, ms: seq<Migration>, k: nat)
    requires HasTable(s) && TableOf(s) != [] && !InitialChanged(Files(TableOf(s)), ms)
    requires OutcomeOf(s, ms, k) == Completed
    ensures var added := Pending(Files(TableOf(s)), ms);
      After(s, ms, k) == s.(content := s.content + SqlsFor(added), table := Some(TableOf(s) + RowsFor(added)))
  {
    WholeRun(s, ms, k);
    UpgradesAppend(s, Pending(Files(TableOf(s)), ms));
  }

  lemma SqlsAppend(a: seq<Migration>, b: seq<Migration>)
    ensures SqlsFor(a + b) == SqlsFor(a) + SqlsFor(b) && RowsFor(a + b) == RowsFor(a) + RowsFor(b)
  {
  }

  lemma DonePending(before: seq<Migration>, ms: seq<Migration>)
    requires ListOk(before) && ListOk(ms) && RowsFor(before) <= RowsFor(ms)
    ensures Pending(RowsFor(before), ms) == ms[|before|..]
  {
    var n := |before|;
    assert RowsFor(before) == RowsFor(ms[..n]) by {
      forall i | 0 <= i < n ensures RowsFor(before)[i] == RowsFor(ms[..n])[i] {
        assert RowsFor(ms)[i] == RowFor(ms[i]);
      }
    }
    PendingIsRest(ms, n);
  }

  /**
   * A completed run over the schema of an earlier list leaves the schema of its own list, in id order,
   * if and only if it starts with the earlier one: what is listed before a recorded migration runs last.
   */
  lemma LaterListIff(before: seq<Migration>, ms: seq<Migration>, k: nat)
    requires ListOk(before) && ListOk(ms) && before != [] && !InitialChanged(RowsFor(before), ms)
    requires OutcomeOf(Done(before), ms, k) == Completed
    ensures After(Done(before), ms, k) == Done(ms) <==>
            RowsFor(before) <= RowsFor(ms) && SqlsFor(before) <= SqlsFor(ms)
  {
    hide After, OutcomeOf, Pending, InitialChanged, SqlsFor, RowsFor, ListOk;
    var s, rows, n := Done(before), RowsFor(before), |before|;
    NoMarkerRows(before);
    FilesKeepsAll(rows);
    ForLengths(before);
    OnlyPendingRun(s, ms, k);
    var added := Pending(rows, ms);
    assert After(s, ms, k) == Present(SqlsFor(before) + SqlsFor(added), Some(rows + RowsFor(added)), None);
    assert SqlsFor(before) <= SqlsFor(before) + SqlsFor(added) && rows <= rows + RowsFor(added);
    if rows <= RowsFor(ms) && SqlsFor(before) <= SqlsFor(ms) {
      DonePending(before, ms);
      ForLengths(ms);
      TakeDrop(ms, n);
      SqlsAppend(ms[..n], ms[n..]);
      ForLengths(ms[..n]);
      assert SqlsFor(ms)[..n] == SqlsFor(ms[..n]) && RowsFor(ms)[..n] == RowsFor(ms[..n]);
      assert SqlsFor(before) == SqlsFor(ms)[..n] && rows == RowsFor(ms)[..n];
    }
  }

  lemma ForLengths(ms: seq<Migration>)
    ensures |SqlsFor(ms)| == |RowsFor(ms)| == |ms|
  {
  }

  lemma NoMarkerRows(ms: seq<Migration>)
    requires ListOk(ms)
    ensures forall i :: 0 <= i < |RowsFor(ms)| ==> !IsMarker(RowsFor(ms)[i].name)
  {
  }

  const FIRST := Migration(0, "first", "CREATE first", "h0")
  const LATE := Migration(1, "late", "CREATE late", "h1")
  const LAST := Migration(2, "last", "CREATE last", "h2")

  /** With migrations 0 and 2 recorded, a release that adds migration 1 runs it after 2. */
  lemma LateMigrationRunsLast(k: nat)
    requires k >= 3
    ensures ListOk([FIRST, LAST]) && ListOk([FIRST, LATE, LAST])
    ensures OutcomeOf(Done([FIRST, LAST]), [FIRST, LATE, LAST], k) == Completed
    ensures var end := After(Done([FIRST, LAST]), [FIRST, LATE, LAST], k);
      end.Present? && end.content == [FIRST.sql, LAST.sql, LATE.sql]
  {
    var before, ms := [FIRST, LAST], [FIRST, LATE, LAST];
    var s, rows := Done(before), RowsFor(before);
    assert rows == [RowFor(FIRST), RowFor(LAST)];
    FilesKeepsAll(rows);
    LateIsPending(rows);
    AllThreeAgree();
    LateIsAccepted(s);
    assert Prepared(s) == s && Preparation(s) == [s, s];
    assert Continuation(s, ms) == [Migrated(s, LATE)];
    OnlyPendingRun(s, ms, k);
  }

  lemma LateIsAccepted(s: Schema)
    requires s == Done([FIRST, LAST])
    ensures AllAccepted(s, [LATE]) && Upgrades(s, [LATE]) == [Migrated(s, LATE)]
  {
    assert TableOf(s) == [RowFor(FIRST), RowFor(LAST)];
    assert "first"[0] != "late"[0] && "last"[2] != "late"[2];
    assert [LATE][1..] == [];
  }

  lemma LateIsPending(rows: seq<Row>)
    requires rows == [RowFor(FIRST), RowFor(LAST)]
    ensures Pending(rows, [FIRST, LATE, LAST]) == [LATE]
  {
    var ms := [FIRST, LATE, LAST];
    assert Records(rows, 0) && Records(rows, 2) by {
      assert rows[0].id == 0 && rows[1].id == 2;
    }
    assert !Records(rows, 1);
    assert ms[1..] == [LATE, LAST] && ms[1..][1..] == [LAST] && ms[1..][1..][1..] == [];
    assert Pending(rows, []) == [];
    assert Pending(rows, [LAST]) == [];
    assert Pending(rows, [LATE, LAST]) == [LATE];
  }

  lemma AllThreeAgree()
    ensures var ms, rows := [FIRST, LATE, LAST], [RowFor(FIRST), RowFor(LAST)];
      !InitialChanged(rows, ms) && HashesAgree(rows, ms)
  {
    var ms := [FIRST, LATE, LAST];
    FoundAt(ms, 0);
    FoundAt(ms, 2);
  }

  lemma {:induction false} MigrationFound(ms: seq<Migration>, id: int)
    ensures MigrationOf(ms, id).Some? ==>
        exists j :: 0 <= j < |ms| && ms[j] == MigrationOf(ms, id).value && ms[j].id == id
  {
    if ms != [] && ms[0].id != id {
      MigrationFound(ms[1..], id);
    }
  }

  /** A recorded file migration has the id of a listed one and another hash. */
  predicate Modified(rows: seq<Row>, ms: seq<Migration>) {
    exists i, j :: 0 <= i < |rows| && 0 <= j < |ms| && rows[i].id == ms[j].id && rows[i].hash != ms[j].hash
  }

  lemma AgreeIffUnmodified(rows: seq<Row>, ms: seq<Migration>)
    requires Ascending(ms)
    ensures HashesAgree(rows, ms) <==> !Modified(rows, ms)
  {
    forall i, j | 0 <= i < |rows| && 0 <= j < |ms| && rows[i].id == ms[j].id && rows[i].hash != ms[j].hash
      ensures !HashAgrees(rows[i], ms)
    {
      FoundAt(ms, j);
    }
    forall i | 0 <= i < |rows| && !HashAgrees(rows[i], ms) ensures Modified(rows, ms) {
      MigrationFound(ms, rows[i].id);
    }
  }

  /** A run that finds a modified migration, other than the initial one, refuses it and changes nothing. */
  lemma ModifiedIsRefused(s: Schema, ms: seq<Migration>, k: nat)
    requires Ascending(ms) && HasTable(s) && TableOf(s) != [] && !InitialChanged(Files(TableOf(s)), ms)
    requires k >= |Steps(s, ms)|
    ensures OutcomeOf(s, ms, k) == HashMismatch <==> Modified(Files(TableOf(s)), ms)
    ensures OutcomeOf(s, ms, k) == HashMismatch ==> After(s, ms, k) == s
  {
    WholeRun(s, ms, k);
    AgreeIffUnmodified(Files(TableOf(s)), ms);
  }

  lemma PreparationPlayed(s: Schema, k: nat)
    ensures var a, b, p := CreatedIfMissing(s), AfterRename(s), Preparation(s);
      var r := if NeedsRename(a) then 1 else 0;
      && |p| == 2 + r + (if TableIsEmpty(b) then 2 else 0)
      && Play(s, p, k) ==
           if k == 0 then s
           else if k == 1 then a
           else if k == 1 + r then b
           else if k >= |p| then Prepared(s)
           else if k == 2 + r then Absent
           else FRESH
  {
  }

  /** What a run over the list as shipped, in any order, keeps and achieves. */
  lemma RunRecovers(s: Schema, migrations: seq<Migration>, k: nat)
    ensures var ms := SortById(migrations);
      DistinctIds(migrations) && NoMarkers(migrations) && Recoverable(s, ms) ==>
        && Recoverable(After(s, ms, k), ms)
        && (OutcomeOf(s, ms, k) == Completed ==> After(s, ms, k) == Done(ms))
  {
    hide SortById, After, OutcomeOf, Recoverable;
    var ms := SortById(migrations);
    if DistinctIds(migrations) && NoMarkers(migrations) && Recoverable(s, ms) {
      SortedListOk(migrations);
      CrashIsRecoverable(s, ms, k);
      if OutcomeOf(s, ms, k) == Completed {
        CompletedRunFinishes(s, ms, k);
      }
    }
  }

  // ----- The runner -----

  /** A database with one schema, whose connection is lost after `left` more statements. */
  class Database {
    var schema: Schema
    var left: nat

    constructor (schema: Schema, left: nat)
      ensures this.schema == schema && this.left == left
    {
      this.schema, this.left := schema, left;
    }

    /** One statement, or transaction, that takes the schema to `next` unless the connection is lost. */
    method Execute(next: Schema) returns (ok: bool)
      modifies this
      ensures ok == (old(left) > 0)
      ensures ok ==> schema == next && left == old(left) - 1
      ensures !ok ==> schema == old(schema) && left == old(left)
    {
      ok := left > 0;
      if ok {
        schema, left := next, left - 1;
      }
    }

    twostate predicate Played(steps: seq<Schema>, ok: bool)
      reads this
    {
      && schema == Play(old(schema), steps, old(left))
      && ok == (old(left) >= |steps|)
      && (ok ==> left == old(left) - |steps|)
    }

    method CleanupSchema() returns (ok: bool)
      modifies this
      ensures Played([Absent, FRESH], ok)
    {
      ok := Execute(Absent);
      if ok {
        ok := Execute(FRESH);
      }
    }

    method EnsureMigrationsTable() returns (ok: bool)
      requires schema.Present?
      modifies this
      ensures Played([WithTable(old(schema))], ok)
    {
      ok := Execute(WithTable(schema));
    }

    /** Everything up to the point where the applied migrations are read. */
    method Prepare() returns (ok: bool)
      modifies this
      ensures Played(Preparation(old(schema)), ok)
    {
      ok := Execute(CreatedIfMissing(schema));
      if ok && NeedsRename(schema) {
        ok := Execute(Renamed(schema));
      }
      if ok && TableIsEmpty(schema) {
        ok := CleanupSchema();
      }
      if ok {
        ok := EnsureMigrationsTable();
      }
      PreparationPlayed(old(schema), old(left));
    }

    /** The pending migrations in order, each in a transaction the table may reject. */
    method RunPending(ms: seq<Migration>) returns (outcome: Outcome)
      requires HasTable(schema)
      modifies this
      ensures Played(Upgrades(old(schema), ms), outcome != Crashed)
      ensures outcome != Crashed ==> outcome == if AllAccepted(old(schema), ms) then Completed else Rejected
    {
      ghost var steps := Upgrades(schema, ms);
      ghost var done := 0;
      var i := 0;
      while i < |ms|
        invariant i <= |ms| && HasTable(schema)
        invariant done <= |steps| && done <= old(left) && left == old(left) - done
        invariant schema == Play(old(schema), steps, done)
        invariant steps[done..] == Upgrades(schema, ms[i..])
        invariant AllAccepted(old(schema), ms) == AllAccepted(schema, ms[i..])
      {
        assert ms[i..][0] == ms[i] && ms[i..][1..] == ms[i + 1..];
        if Clash(schema, ms[i]) {
          return Rejected;
        }
        var next := Migrated(schema, ms[i]);
        assert steps[done..][0] == next && steps[done..][1..] == steps[done + 1..];
        var ok := Execute(next);
        if !ok {
          return Crashed;
        }
        done := done + 1;
        i := i + 1;
      }
      outcome := Completed;
    }

    /** A hash recorded for a file migration must be the listed one, except for the initial migration. */
    method CheckHashes(ms: seq<Migration>, rows: seq<Row>) returns (agree: bool)
      ensures agree == HashesAgree(rows, ms)
    {
      for i := 0 to |rows|
        invariant HashesAgree(rows[..i], ms)
      {
        if !HashAgrees(rows[i], ms) {
          return false;
        }
      }
      assert rows[..|rows|] == rows;
      agree := true;
    }

    /** From the applied migrations being read to the end of the run. */
    method Continue(ms: seq<Migration>) returns (outcome: Outcome)
      requires HasTable(schema)
      modifies this
      ensures Played(Continuation(old(schema), ms), outcome != Crashed)
      ensures outcome != Crashed ==> outcome == ContinuationOutcome(old(schema), ms)
    {
      var rows := Files(TableOf(schema));
      if InitialChanged(rows, ms) {
        var ok := CleanupSchema();
        if ok {
          ok := EnsureMigrationsTable();
        }
        if !ok {
          return Crashed;
        }
        rows := [];
      } else {
        var agree := CheckHashes(ms, rows);
        if !agree {
          return HashMismatch;
        }
      }
      outcome := RunPending(Pending(rows, ms));
    }

    /** One run of the migration runner over the listed migrations. */
    method RunMigrations(migrations: seq<Migration>) returns (outcome: Outcome)
      modifies this
      ensures schema == After(old(schema), SortById(migrations), old(left))
      ensures outcome == OutcomeOf(old(schema), SortById(migrations), old(left))
      ensures DistinctIds(migrations) && NoMarkers(migrations) && Recoverable(old(schema), SortById(migrations)) ==>
        && Recoverable(schema, SortById(migrations))
        && (outcome == Completed ==> schema == Done(SortById(migrations)))
    {
      hide SortById, Recoverable, Done, DistinctIds, NoMarkers, Upgrades, AllAccepted, Pending;
      RunRecovers(schema, migrations, left);
      var ms := SortById(migrations);
      var ok := Prepare();
      if !ok {
        return Crashed;
      }
      outcome := Continue(ms);
    }
  }
}
