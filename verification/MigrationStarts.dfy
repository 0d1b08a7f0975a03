/**
 * What a run of the migration runner makes of any schema it finds: of an old release's table, an empty one,
 * marker rows, or no table at all. Stated by the tables found, and not by the runner's own tests of them.
 */
module MigrationStarts {
  import opened Options
  import opened Sequences
  import opened Migrations

  /** What a run builds on: the SQL run so far, the rows that record it, and a legacy table left alone. */
  datatype Base = Base(content: seq<string>, rows: seq<Row>, legacy: Option<seq<Row>>)

  const NOTHING := Base([], [], None)

  /**
   * Recorded rows are built on, and those of a legacy table if there is no other; an empty table means that
   * everything is dropped. A schema without either table keeps what is in it.
   */
  function BaseOf(s: Schema): Base {
    match s
    case Absent => NOTHING
    case Present(content, None, None) => Base(content, [], None)
    case Present(content, None, Some(old_)) => if old_ == [] then NOTHING else Base(content, old_, None)
    case Present(content, Some(rows), legacy) => if rows == [] then NOTHING else Base(content, rows, legacy)
  }

  /** The state in which the applied migrations are read holds just that. */
  lemma PreparedIsBase(s: Schema)
    ensures var b := BaseOf(s); Prepared(s) == Present(b.content, Some(b.rows), b.legacy)
  {
  }

  /** A schema that holds something, but neither table. */
  predicate Unrecorded(s: Schema) {
    s.Present? && s.content != [] && s.table.None? && s.legacy.None?
  }

  /**
   * However far the preparation gets before a crash, the next run builds on the same, except when the table was
   * just created in a schema that holds something: an empty table looks like one to be dropped.
   */
  lemma CrashKeepsBaseIff(s: Schema, ms: seq<Migration>, k: nat)
    requires k <= |Preparation(s)|
    ensures BaseOf(After(s, ms, k)) == BaseOf(s) <==> !(Unrecorded(s) && k == |Preparation(s)|)
  {
    PlayAppend(s, Preparation(s), Continuation(Prepared(s), ms), k);
    PreparationPlayed(s, k);
  }

  /** So a run that is cut off before its first migration makes the next one drop what was there. */
  lemma CutOffRunDropsContent(content: seq<string>, ms: seq<Migration>, k: nat)
    requires content != [] && ListOk(ms)
    requires var s := Present(content, None, None);
      OutcomeOf(s, ms, k) == Completed && OutcomeOf(After(s, ms, 2), ms, k) == Completed
    ensures var s := Present(content, None, None);
      && After(s, ms, k) == Present(content + SqlsFor(ms), Some(RowsFor(ms)), None)
      && After(After(s, ms, 2), ms, k) == Done(ms)
  {
    hide Upgrades, Pending, SqlsFor, RowsFor, AllAccepted;
    var s := Present(content, None, None);
    PlayAppend(s, Preparation(s), Continuation(Prepared(s), ms), 2);
    PreparationPlayed(s, 2);
    PendingOfNothing(ms);
    AnySchemaCompletes(s, ms, k);
    AnySchemaCompletes(After(s, ms, 2), ms, k);
    StartFromNothing(ms);
  }

  lemma StartFromNothing(ms: seq<Migration>)
    ensures Files([]) == [] && [] + SqlsFor(ms) == SqlsFor(ms) && [] + RowsFor(ms) == RowsFor(ms)
    ensures !InitialDiffers([], ms) && OneRowPerId([])
  {
  }

  // ----- The applied and the pending migrations -----

  /** Markers do not count as applied migrations. */
  lemma {:induction false} FilesAre(rows: seq<Row>, r: Row)
    ensures r in Files(rows) <==> r in rows && !("openapi:" <= r.name)
  {
    if rows != [] {
      FilesAre(rows[1..], r);
      assert rows == [rows[0]] + rows[1..];
    }
  }

  ghost predicate Applied(rows: seq<Row>, id: int) {
    exists r :: r in rows && r.id == id && !("openapi:" <= r.name)
  }

  lemma RecordsIff(rows: seq<Row>, id: int)
    ensures Records(Files(rows), id) <==> Applied(rows, id)
  {
    var files := Files(rows);
    if Records(files, id) {
      var i :| 0 <= i < |files| && files[i].id == id;
      FilesAre(rows, files[i]);
    }
    if r :| r in rows && r.id == id && !("openapi:" <= r.name) {
      FilesAre(rows, r);
      var i :| 0 <= i < |files| && files[i] == r;
    }
  }

  /** Exactly the listed migrations whose id is not applied are pending, in ascending order. */
  lemma {:induction false} PendingAre(rows: seq<Row>, ms: seq<Migration>)
    requires Ascending(ms)
    ensures Ascending(Pending(rows, ms))
    ensures forall m :: m in Pending(rows, ms) <==> m in ms && !Records(rows, m.id)
  {
    if ms != [] {
      hide Records;
      PendingAre(rows, ms[1..]);
      assert ms == [ms[0]] + ms[1..];
    }
  }

  /** A listed migration is run exactly if no row but a marker has its id. */
  lemma PendingIffNotApplied(rows: seq<Row>, ms: seq<Migration>, m: Migration)
    requires Ascending(ms)
    ensures m in Pending(Files(rows), ms) <==> m in ms && !Applied(rows, m.id)
  {
    PendingAre(Files(rows), ms);
    RecordsIff(rows, m.id);
  }

  // ----- Completed runs -----

  /** The applied row of migration 0 has another hash than the listed migration 0. */
  ghost predicate InitialDiffers(rows: seq<Row>, ms: seq<Migration>) {
    exists r, m :: r in rows && m in ms && r.id == 0 && m.id == 0 && !("openapi:" <= r.name) && r.hash != m.hash
  }

  /** Ids are the table's primary key. */
  predicate OneRowPerId(rows: seq<Row>) {
    forall i, j :: 0 <= i < j < |rows| ==> rows[i].id != rows[j].id
  }

  lemma {:induction false} RowOfApplied(rows: seq<Row>, r: Row)
    requires OneRowPerId(rows) && r in rows
    ensures RowOf(rows, r.id) == Some(r)
  {
    if rows[0] != r {
      assert r in rows[1..] by {
        var i :| 0 <= i < |rows| && rows[i] == r;
        assert rows[1..][i - 1] == r;
      }
      var j :| 0 <= j < |rows| && rows[j] == r;
      RowOfApplied(rows[1..], r);
    }
  }

  lemma {:induction false} FilesOnePerId(rows: seq<Row>)
    requires OneRowPerId(rows)
    ensures OneRowPerId(Files(rows))
  {
    if rows != [] {
      FilesOnePerId(rows[1..]);
      forall i | 0 <= i < |Files(rows[1..])| ensures Files(rows[1..])[i].id != rows[0].id {
        FilesAre(rows[1..], Files(rows[1..])[i]);
      }
    }
  }

  lemma InitialChangedIff(rows: seq<Row>, ms: seq<Migration>)
    requires OneRowPerId(rows) && Ascending(ms)
    ensures InitialChanged(Files(rows), ms) <==> InitialDiffers(rows, ms)
  {
    var files := Files(rows);
    FilesOnePerId(rows);
    if InitialChanged(files, ms) {
      RowFound(files, 0);
      MigrationFound(ms, 0);
      var r, m := RowOf(files, 0).value, MigrationOf(ms, 0).value;
      FilesAre(rows, r);
      assert r in rows && m in ms && r.id == 0 && m.id == 0;
    }
    if r, m :| r in rows && m in ms && r.id == 0 && m.id == 0 && !("openapi:" <= r.name) && r.hash != m.hash {
      FilesAre(rows, r);
      RowOfApplied(files, r);
      var j :| 0 <= j < |ms| && ms[j] == m;
      FoundAt(ms, j);
    }
  }

  /**
   * A completed run over any schema: what it builds on, followed by exactly the migrations that are not applied,
   * each run and recorded once; or, when migration 0 differs, the new list alone.
   */
  lemma AnySchemaCompletes(s: Schema, ms: seq<Migration>, k: nat)
    requires Ascending(ms) && OneRowPerId(BaseOf(s).rows) && OutcomeOf(s, ms, k) == Completed
    ensures var b := BaseOf(s);
      After(s, ms, k) ==
        if InitialDiffers(b.rows, ms) then Done(ms)
        else
          var added := Pending(Files(b.rows), ms);
          Present(b.content + SqlsFor(added), Some(b.rows + RowsFor(added)), b.legacy)
  {
    hide Files, Pending, SqlsFor, RowsFor, Upgrades, AllAccepted;
    var b := BaseOf(s);
    PreparedIsBase(s);
    InitialChangedIff(b.rows, ms);
    if InitialChanged(Files(b.rows), ms) {
      ResetStartsOver(s, ms, k);
    } else {
      WholeRun(s, ms, k);
      UpgradesAppend(Prepared(s), Pending(Files(b.rows), ms));
    }
  }

  /** In particular, an old release's table is taken over with all that it records. */
  lemma LegacyIsTakenOver(content: seq<string>, rows: seq<Row>, ms: seq<Migration>, k: nat)
    requires Ascending(ms) && OneRowPerId(rows) && rows != [] && !InitialDiffers(rows, ms)
    requires OutcomeOf(Present(content, None, Some(rows)), ms, k) == Completed
    ensures var added := Pending(Files(rows), ms);
      After(Present(content, None, Some(rows)), ms, k) ==
        Present(content + SqlsFor(added), Some(rows + RowsFor(added)), None)
  {
    AnySchemaCompletes(Present(content, None, Some(rows)), ms, k);
  }

  /** While rows are recorded, in either table, and migration 0 is unchanged, no crash loses what was run. */
  lemma ContentIsKept(s: Schema, ms: seq<Migration>, k: nat)
    requires Ascending(ms) && OneRowPerId(BaseOf(s).rows) && BaseOf(s).rows != []
    requires !InitialDiffers(BaseOf(s).rows, ms)
    ensures s.Present? && After(s, ms, k).Present? && s.content <= After(s, ms, k).content
  {
    hide Files, Pending, Upgrades, InitialChanged, HashesAgree;
    InitialChangedIff(BaseOf(s).rows, ms);
    PreparedIsBase(s);
    PreparationKeeps(s);
    UpgradesExtend(Prepared(s), Pending(Files(BaseOf(s).rows), ms));
    PlayExtends(s, Steps(s, ms), k);
  }

  lemma PreparationKeeps(s: Schema)
    requires BaseOf(s).rows != []
    ensures s.Present? && Prepared(s).content == s.content && AllExtend(Preparation(s), s.content)
  {
  }

  // ----- Refusals and rejections -----

  /** No listed migration repeats an id or name of the table, or a name of the list. */
  ghost predicate NoRepeats(rows: seq<Row>, ms: seq<Migration>) {
    && (forall r, m :: r in rows && m in ms ==> r.id != m.id && r.name != m.name)
    && (forall i, j :: 0 <= i < j < |ms| ==> ms[i].name != ms[j].name)
  }

  lemma NoRepeatsNext(rows: seq<Row>, ms: seq<Migration>)
    requires Ascending(ms) && ms != []
    ensures NoRepeats(rows, ms) <==>
      && (forall r :: r in rows ==> r.id != ms[0].id && r.name != ms[0].name)
      && NoRepeats(rows + [RowFor(ms[0])], ms[1..])
  {
    var more, rest := rows + [RowFor(ms[0])], ms[1..];
    assert ms == [ms[0]] + rest;
    if NoRepeats(rows, ms) {
      RepeatsNotLater(rows, ms);
    }
    if (forall r :: r in rows ==> r.id != ms[0].id && r.name != ms[0].name) && NoRepeats(more, rest) {
      RepeatsNotEarlier(rows, ms);
    }
  }

  lemma RepeatsNotLater(rows: seq<Row>, ms: seq<Migration>)
    requires Ascending(ms) && ms != [] && NoRepeats(rows, ms)
    ensures NoRepeats(rows + [RowFor(ms[0])], ms[1..])
  {
    var more, rest := rows + [RowFor(ms[0])], ms[1..];
    forall r, m | r in more && m in rest ensures r.id != m.id && r.name != m.name {
      var j :| 0 <= j < |rest| && rest[j] == m;
      assert ms[j + 1] == m;
    }
    forall i, j | 0 <= i < j < |rest| ensures rest[i].name != rest[j].name {
      assert ms[i + 1] == rest[i] && ms[j + 1] == rest[j];
    }
  }

  lemma RepeatsNotEarlier(rows: seq<Row>, ms: seq<Migration>)
    requires ms != [] && forall r :: r in rows ==> r.id != ms[0].id && r.name != ms[0].name
    requires NoRepeats(rows + [RowFor(ms[0])], ms[1..])
    ensures NoRepeats(rows, ms)
  {
    var more, rest := rows + [RowFor(ms[0])], ms[1..];
    assert RowFor(ms[0]) in more;
    forall r, m | r in rows && m in ms ensures r.id != m.id && r.name != m.name {
      if m != ms[0] {
        var j :| 0 <= j < |ms| && ms[j] == m;
        assert rest[j - 1] == m;
        assert r in more;
      }
    }
    forall i, j | 0 <= i < j < |ms| ensures ms[i].name != ms[j].name {
      if i == 0 {
        assert rest[j - 1] == ms[j] && ms[j] in rest;
      } else {
        assert rest[i - 1].name != rest[j - 1].name;
      }
    }
  }

  lemma ClashIff(s: Schema, m: Migration)
    requires HasTable(s)
    ensures Clash(s, m) <==> exists r :: r in TableOf(s) && (r.id == m.id || r.name == m.name)
  {
    if r :| r in TableOf(s) && (r.id == m.id || r.name == m.name) {
      var i :| 0 <= i < |TableOf(s)| && TableOf(s)[i] == r;
    }
  }

  lemma {:induction false} AcceptedIffNoRepeats(s: Schema, ms: seq<Migration>)
    requires HasTable(s) && Ascending(ms)
    ensures AllAccepted(s, ms) <==> NoRepeats(TableOf(s), ms)
    decreases |ms|
  {
    if ms != [] {
      hide NoRepeats, Clash;
      ClashIff(s, ms[0]);
      NoRepeatsNext(TableOf(s), ms);
      AcceptedIffNoRepeats(Migrated(s, ms[0]), ms[1..]);
    }
  }

  /** An applied migration other than number 0 has another hash than the listed one of its id. */
  ghost predicate OtherDiffers(rows: seq<Row>, ms: seq<Migration>) {
    exists r, m :: r in rows && m in ms && r.id == m.id && !("openapi:" <= r.name) && r.hash != m.hash
  }

  lemma AgreeIff(rows: seq<Row>, ms: seq<Migration>)
    requires Ascending(ms)
    ensures HashesAgree(Files(rows), ms) <==> !OtherDiffers(rows, ms)
  {
    var files := Files(rows);
    AgreeIffUnmodified(files, ms);
    if Modified(files, ms) {
      var i, j :| 0 <= i < |files| && 0 <= j < |ms| && files[i].id == ms[j].id && files[i].hash != ms[j].hash;
      FilesAre(rows, files[i]);
      assert ms[j] in ms;
    }
    if r, m :| r in rows && m in ms && r.id == m.id && !("openapi:" <= r.name) && r.hash != m.hash {
      FilesAre(rows, r);
      var i, j :| 0 <= i < |files| && files[i] == r && 0 <= j < |ms| && ms[j] == m;
    }
  }

  /** How a run over any schema ends when it is not cut short. */
  lemma OutcomeIs(s: Schema, ms: seq<Migration>, k: nat)
    requires Ascending(ms) && OneRowPerId(BaseOf(s).rows) && k >= |Steps(s, ms)|
    ensures var rows := BaseOf(s).rows;
      OutcomeOf(s, ms, k) ==
        if InitialDiffers(rows, ms) then (if NoRepeats([], ms) then Completed else Rejected)
        else if OtherDiffers(rows, ms) then HashMismatch
        else if NoRepeats(rows, Pending(Files(rows), ms)) then Completed
        else Rejected
  {
    hide Files, Pending, NoRepeats, AllAccepted, HashesAgree, InitialChanged, InitialDiffers, OtherDiffers;
    var rows := BaseOf(s).rows;
    PreparedIsBase(s);
    InitialChangedIff(rows, ms);
    AgreeIff(rows, ms);
    PendingOfNothing(ms);
    PendingAre(Files(rows), ms);
    AcceptedIffNoRepeats(WithTable(FRESH), ms);
    AcceptedIffNoRepeats(Prepared(s), Pending(Files(rows), ms));
  }

  /** A refused run has changed nothing that a run builds on. */
  lemma RefusedRunKeepsBase(s: Schema, ms: seq<Migration>, k: nat)
    requires OutcomeOf(s, ms, k) == HashMismatch
    ensures var b := BaseOf(s); After(s, ms, k) == Present(b.content, Some(b.rows), b.legacy)
  {
    WholeRun(s, ms, k);
    PreparedIsBase(s);
  }
}
