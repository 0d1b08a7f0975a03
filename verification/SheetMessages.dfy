/** The messages of one write, how they are buffered, and the table a write should leave. */
module SheetMessages {
  import opened Options
  import opened Sequences
  import opened SheetGrid
  import opened SheetRows
  import opened SheetTable

  /**
   A record of the stream, live or deleted; a checkpoint of the source; or a record that the
   writer refuses (its staleness field is missing, or an enum value is not allowed).
   */
  datatype Message = Upsert(row: Row) | Delete(key: Key) | SourceState(id: int) | Refused

  predicate Acceptable(s: Stream, msgs: seq<Message>) {
    forall i :: 0 <= i < |msgs| && msgs[i].Upsert? ==> Buildable(s, msgs[i].row)
  }

  /** The live rows of key `k`, in order of arrival. */
  function UpsertsOf(s: Stream, msgs: seq<Message>, k: Key): (rows: seq<Row>)
    ensures Acceptable(s, msgs) ==> forall i :: 0 <= i < |rows| ==> Buildable(s, rows[i]) && KeyOf(s, rows[i]) == k
  {
    if msgs == [] then []
    else
      var rest, m := UpsertsOf(s, msgs[..|msgs| - 1], k), msgs[|msgs| - 1];
      if m.Upsert? && KeyOf(s, m.row) == k then rest + [m.row] else rest
  }

  function DeletedKeys(msgs: seq<Message>): set<Key> {
    if msgs == [] then {}
    else
      var rest, m := DeletedKeys(msgs[..|msgs| - 1]), msgs[|msgs| - 1];
      if m.Delete? then rest + {m.key} else rest
  }

  function States(msgs: seq<Message>): seq<int> {
    if msgs == [] then []
    else
      var rest, m := States(msgs[..|msgs| - 1]), msgs[|msgs| - 1];
      if m.SourceState? then rest + [m.id] else rest
  }

  /** States are released in the order in which they came. */
  lemma {:induction false} StatesAppend(a: seq<Message>, b: seq<Message>)
    ensures States(a + b) == States(a) + States(b)
    ensures forall id :: States([SourceState(id)]) == [id]
    decreases |b|
  {
    forall id ensures States([SourceState(id)]) == [id] {
      assert [SourceState(id)][..0] == [];
    }
    if b == [] {
      assert a + b == a;
    } else {
      FrontOfAppend(a, b);
      StatesAppend(a, b[..|b| - 1]);
    }
  }

  /** The rows of a key are taken in the order in which they came. */
  lemma {:induction false} UpsertsAppend(s: Stream, a: seq<Message>, b: seq<Message>, k: Key)
    ensures UpsertsOf(s, a + b, k) == UpsertsOf(s, a, k) + UpsertsOf(s, b, k)
    ensures forall row :: KeyOf(s, row) == k ==> UpsertsOf(s, [Upsert(row)], k) == [row]
    decreases |b|
  {
    forall row | KeyOf(s, row) == k ensures UpsertsOf(s, [Upsert(row)], k) == [row] {
      assert [Upsert(row)][..0] == [];
    }
    if b == [] {
      assert a + b == a;
    } else {
      FrontOfAppend(a, b);
      UpsertsAppend(s, a, b[..|b| - 1], k);
    }
  }

  lemma {:induction false} DeletedIff(msgs: seq<Message>, k: Key)
    ensures k in DeletedKeys(msgs) <==> Delete(k) in msgs
  {
    if msgs != [] {
      FrontLast(msgs);
      DeletedIff(msgs[..|msgs| - 1], k);
    }
  }

  // ---- The specification: upsert row after row, then drop what was deleted ----

  function UpsertAll(s: Stream, current: Option<Row>, rows: seq<Row>): Option<Row> {
    if rows == [] then current
    else Upserted(s, UpsertAll(s, current, rows[..|rows| - 1]), rows[|rows| - 1])
  }

  function WrittenRow(s: Stream, current: Option<Row>, msgs: seq<Message>, k: Key): Option<Row> {
    if k in DeletedKeys(msgs) then None else UpsertAll(s, current, UpsertsOf(s, msgs, k))
  }

  ghost predicate Current(s: Stream, current: Option<Row>) {
    current.Some? ==> DataRow(s, current.value)
  }

  /** No row is newer than the existing one. */
  ghost predicate ExistingStays(s: Stream, current: Option<Row>, rows: seq<Row>) {
    forall i :: 0 <= i < |rows| ==> current.Some? && !Beats(s, rows[i], current.value)
  }

  /** Row `j` is the first of the newest rows and newer than the existing one. */
  ghost predicate WinsAt(s: Stream, current: Option<Row>, rows: seq<Row>, j: int) {
    && 0 <= j < |rows|
    && (current.Some? ==> Beats(s, rows[j], current.value))
    && (forall i :: 0 <= i < j ==> Beats(s, rows[j], rows[i]))
    && (forall i :: j < i < |rows| ==> !Beats(s, rows[i], rows[j]))
  }

  /** The existing row unless some row is strictly newer, else the first among the newest rows. */
  ghost predicate Newest(s: Stream, current: Option<Row>, rows: seq<Row>, result: Option<Row>) {
    || (ExistingStays(s, current, rows) && result == current)
    || (exists j :: WinsAt(s, current, rows, j) && result == Some(Stored(rows[j])))
  }

  predicate AllBuildable(s: Stream, rows: seq<Row>) {
    forall i :: 0 <= i < |rows| ==> Buildable(s, rows[i])
  }

  predicate Stamped(s: Stream, row: Row) {
    s.newer.Some? && GoodStamp(s, Cell(row, s.newer.value))
  }

  lemma BeatsTransitive(s: Stream, a: Row, b: Row, c: Row)
    requires ValidStream(s) && Stamped(s, a) && Stamped(s, b) && Stamped(s, c)
    ensures Beats(s, a, b) && Beats(s, b, c) ==> Beats(s, a, c)
    ensures !Beats(s, a, b) && !Beats(s, b, c) ==> !Beats(s, a, c)
  {
    var x, y, z := Cell(a, s.newer.value), Cell(b, s.newer.value), Cell(c, s.newer.value);
    if Beats(s, a, b) && Beats(s, b, c) {
      NewerTransitive(s, x, y, z);
    }
    if !Beats(s, a, b) && !Beats(s, b, c) {
      NotNewerTransitive(s, x, y, z);
    }
  }

  lemma BeatsStored(s: Stream, a: Row, b: Row)
    requires ValidStream(s) && Buildable(s, b)
    ensures Beats(s, a, Stored(b)) == Beats(s, a, b)
  {
    StoredIsDataRow(s, b);
  }

  lemma LastWins(s: Stream, current: Option<Row>, front: seq<Row>, last: Row)
    requires ValidStream(s) && Current(s, current) && s.newer.Some?
    requires AllBuildable(s, front) && Buildable(s, last)
    requires ExistingStays(s, current, front) && (current.Some? ==> Beats(s, last, current.value))
    ensures WinsAt(s, current, front + [last], |front|)
  {
    forall i | 0 <= i < |front| ensures Beats(s, last, front[i]) {
      BeatsTransitive(s, last, front[i], current.value);
    }
  }

  lemma NextBeatsAll(s: Stream, current: Option<Row>, front: seq<Row>, last: Row, j: nat, i: nat)
    requires ValidStream(s) && s.newer.Some?
    requires AllBuildable(s, front) && Buildable(s, last)
    requires WinsAt(s, current, front, j) && Beats(s, last, front[j]) && i < |front|
    ensures Beats(s, last, front[i])
  {
    BeatsTransitive(s, last, front[j], front[i]);
    BeatsTransitive(s, last, front[i], front[j]);
  }

  lemma NextWins(s: Stream, current: Option<Row>, front: seq<Row>, last: Row, j: nat)
    requires ValidStream(s) && Current(s, current) && s.newer.Some?
    requires AllBuildable(s, front) && Buildable(s, last)
    requires WinsAt(s, current, front, j) && Beats(s, last, front[j])
    ensures WinsAt(s, current, front + [last], |front|)
  {
    if current.Some? {
      BeatsTransitive(s, last, front[j], current.value);
    }
    forall i | 0 <= i < |front| ensures Beats(s, last, front[i]) {
      NextBeatsAll(s, current, front, last, j, i);
    }
  }

  lemma NewestSnoc(s: Stream, current: Option<Row>, front: seq<Row>, last: Row, result: Option<Row>)
    requires ValidStream(s) && Current(s, current) && s.newer.Some?
    requires AllBuildable(s, front) && Buildable(s, last)
    requires Newest(s, current, front, result)
    ensures Newest(s, current, front + [last], Upserted(s, result, last))
  {
    hide ValidStream, Buildable, Beats, Upserted;
    if ExistingStays(s, current, front) && result == current {
      AfterExisting(s, current, front, last);
    } else {
      var j :| WinsAt(s, current, front, j) && result == Some(Stored(front[j]));
      AfterWinner(s, current, front, last, j);
    }
  }

  lemma AfterExisting(s: Stream, current: Option<Row>, front: seq<Row>, last: Row)
    requires ValidStream(s) && Current(s, current) && s.newer.Some?
    requires AllBuildable(s, front) && Buildable(s, last) && ExistingStays(s, current, front)
    ensures Newest(s, current, front + [last], Upserted(s, current, last))
  {
    hide ValidStream, Buildable, Beats;
    if current.None? || Beats(s, last, current.value) {
      LastWins(s, current, front, last);
      assert WinsAt(s, current, front + [last], |front|);
    } else {
      assert ExistingStays(s, current, front + [last]);
    }
  }

  lemma AfterWinner(s: Stream, current: Option<Row>, front: seq<Row>, last: Row, j: nat)
    requires ValidStream(s) && Current(s, current) && s.newer.Some?
    requires AllBuildable(s, front) && Buildable(s, last) && WinsAt(s, current, front, j)
    ensures Newest(s, current, front + [last], Upserted(s, Some(Stored(front[j])), last))
  {
    hide ValidStream, Buildable, Beats;
    BeatsStored(s, last, front[j]);
    if Beats(s, last, front[j]) {
      NextWins(s, current, front, last, j);
      assert WinsAt(s, current, front + [last], |front|);
    } else {
      assert WinsAt(s, current, front + [last], j);
    }
  }

  /** With a staleness field, upserting row after row keeps the newest one. */
  lemma {:induction false} NewestStays(s: Stream, current: Option<Row>, rows: seq<Row>)
    requires ValidStream(s) && Current(s, current) && s.newer.Some? && AllBuildable(s, rows)
    ensures Newest(s, current, rows, UpsertAll(s, current, rows))
  {
    if rows != [] {
      var front, last := rows[..|rows| - 1], rows[|rows| - 1];
      NewestStays(s, current, front);
      FrontLast(rows);
      hide Newest, Upserted, Current, AllBuildable, Buildable, ValidStream;
      BuildableParts(s, rows);
      NewestSnoc(s, current, front, last, UpsertAll(s, current, front));
    }
  }

  lemma BuildableParts(s: Stream, rows: seq<Row>)
    requires AllBuildable(s, rows) && rows != []
    ensures AllBuildable(s, rows[..|rows| - 1]) && Buildable(s, rows[|rows| - 1])
  {
  }

  // ---- Which row that is, by the stamps alone ----

  function StampOf(s: Stream, row: Row): string
    requires s.newer.Some?
  {
    Cell(row, s.newer.value)
  }

  function NumberOf(s: Stream, row: Row): Option<real>
    requires s.newer.Some?
  {
    s.num(StampOf(s, row))
  }

  /** The greatest number among the existing row, if it has a stamp, and the rows; ties to the earliest. */
  ghost predicate GreatestNumber(s: Stream, current: Option<Row>, rows: seq<Row>, result: Row)
    requires s.newer.Some?
    requires forall i :: 0 <= i < |rows| ==> NumberOf(s, rows[i]).Some?
    requires current.Some? && StampOf(s, current.value) != "" ==> NumberOf(s, current.value).Some?
  {
    var holds := current.Some? && StampOf(s, current.value) != "";
    || (holds && result == current.value &&
        forall i :: 0 <= i < |rows| ==> NumberOf(s, rows[i]).value <= NumberOf(s, current.value).value)
    || exists j :: 0 <= j < |rows| && result == Stored(rows[j])
         && (holds ==> NumberOf(s, current.value).value < NumberOf(s, rows[j]).value)
         && (forall i :: 0 <= i < j ==> NumberOf(s, rows[i]).value < NumberOf(s, rows[j]).value)
         && (forall i :: j < i < |rows| ==> NumberOf(s, rows[i]).value <= NumberOf(s, rows[j]).value)
  }

  /** The same for stamps that are no numbers: the last in the order of texts. */
  ghost predicate LastText(s: Stream, current: Option<Row>, rows: seq<Row>, result: Row)
    requires s.newer.Some?
  {
    var holds := current.Some? && StampOf(s, current.value) != "";
    || (holds && result == current.value &&
        forall i :: 0 <= i < |rows| ==> !TextBefore(StampOf(s, current.value), StampOf(s, rows[i])))
    || exists j :: 0 <= j < |rows| && result == Stored(rows[j])
         && (holds ==> TextBefore(StampOf(s, current.value), StampOf(s, rows[j])))
         && (forall i :: 0 <= i < j ==> TextBefore(StampOf(s, rows[i]), StampOf(s, rows[j])))
         && (forall i :: j < i < |rows| ==> !TextBefore(StampOf(s, rows[j]), StampOf(s, rows[i])))
  }

  /** All rows, and the existing one if it has a stamp, carry stamps that read as numbers, or none that does. */
  predicate AllNumbers(s: Stream, current: Option<Row>, rows: seq<Row>)
    requires s.newer.Some?
  {
    && (forall i :: 0 <= i < |rows| ==> StampOf(s, rows[i]) != "" && NumberOf(s, rows[i]).Some?)
    && (current.Some? && StampOf(s, current.value) != "" ==> NumberOf(s, current.value).Some?)
  }

  predicate NoNumbers(s: Stream, rows: seq<Row>)
    requires s.newer.Some?
  {
    forall i :: 0 <= i < |rows| ==> StampOf(s, rows[i]) != "" && NumberOf(s, rows[i]).None?
  }

  lemma BeatsMeans(s: Stream, a: Row, b: Row)
    requires s.newer.Some?
    ensures StampOf(s, b) == "" ==> Beats(s, a, b)
    ensures StampOf(s, b) != "" && NumberOf(s, a).Some? && NumberOf(s, b).Some? ==>
      (Beats(s, a, b) <==> NumberOf(s, b).value < NumberOf(s, a).value)
    ensures StampOf(s, b) != "" && !(NumberOf(s, a).Some? && NumberOf(s, b).Some?) ==>
      (Beats(s, a, b) <==> TextBefore(StampOf(s, b), StampOf(s, a)))
  {
    NewerMeans(s.num, StampOf(s, a), StampOf(s, b));
  }

  /** A row without a stamp, or none, gives way to the first live record of its key. */
  lemma BlankGivesWay(s: Stream, current: Option<Row>, rows: seq<Row>)
    requires ValidStream(s) && Current(s, current) && AllBuildable(s, rows) && rows != [] && s.newer.Some?
    requires current.Some? ==> StampOf(s, current.value) == ""
    ensures UpsertAll(s, current, rows).Some?
    ensures exists j :: 0 <= j < |rows| && UpsertAll(s, current, rows).value == Stored(rows[j])
    ensures (exists i :: 0 <= i < |rows| && StampOf(s, rows[i]) != "") ==>
              StampOf(s, UpsertAll(s, current, rows).value) != ""
  {
    hide Current, ValidStream, Buildable, Beats, Stored, StampOf;
    var result := UpsertAll(s, current, rows);
    NewestStays(s, current, rows);
    if current.Some? {
      BeatsMeans(s, rows[0], current.value);
    }
    var j :| WinsAt(s, current, rows, j) && result == Some(Stored(rows[j]));
    StampIsStored(s, rows[j]);
    if i :| 0 <= i < |rows| && StampOf(s, rows[i]) != "" {
      StampNotLost(s, rows, i, j);
    }
  }

  lemma StampIsStored(s: Stream, row: Row)
    requires ValidStream(s) && Buildable(s, row) && s.newer.Some?
    ensures StampOf(s, Stored(row)) == StampOf(s, row)
  {
    StoredIsDataRow(s, row);
  }

  lemma StampNotLost(s: Stream, rows: seq<Row>, i: int, j: int)
    requires ValidStream(s) && AllBuildable(s, rows) && s.newer.Some?
    requires 0 <= i < |rows| && 0 <= j < |rows| && StampOf(s, rows[i]) != ""
    requires (i < j ==> Beats(s, rows[j], rows[i])) && (j < i ==> !Beats(s, rows[i], rows[j]))
    ensures StampOf(s, rows[j]) != ""
  {
    if StampOf(s, rows[j]) == "" {
      BeatsMeans(s, rows[i], rows[j]);
      BlankIsLeastIff(s.num, s.isStamp);
    }
  }

  /** With numbers for stamps, the greatest is kept; with other texts, the last one in their order. */
  lemma NewestByStamps(s: Stream, current: Option<Row>, rows: seq<Row>)
    requires ValidStream(s) && Current(s, current) && AllBuildable(s, rows) && rows != [] && s.newer.Some?
    ensures UpsertAll(s, current, rows).Some?
    ensures AllNumbers(s, current, rows) ==> GreatestNumber(s, current, rows, UpsertAll(s, current, rows).value)
    ensures NoNumbers(s, rows) ==> LastText(s, current, rows, UpsertAll(s, current, rows).value)
  {
    hide *;
    var result := UpsertAll(s, current, rows);
    NewestStays(s, current, rows);
    NewestIs(s, current, rows, result);
    if ExistingStays(s, current, rows) && result == current {
      ExistingByStamps(s, current, rows);
    } else {
      var j :| 0 <= j < |rows| && WinsAt(s, current, rows, j) && result == Some(Stored(rows[j]));
      WinnerByStamps(s, current, rows, j);
    }
  }

  lemma NewestIs(s: Stream, current: Option<Row>, rows: seq<Row>, result: Option<Row>)
    requires Newest(s, current, rows, result)
    ensures (ExistingStays(s, current, rows) && result == current) ||
      exists j :: 0 <= j < |rows| && WinsAt(s, current, rows, j) && result == Some(Stored(rows[j]))
  {
    if !(ExistingStays(s, current, rows) && result == current) {
      var j :| WinsAt(s, current, rows, j) && result == Some(Stored(rows[j]));
      assert 0 <= j < |rows| && WinsAt(s, current, rows, j);
    }
  }

  lemma ExistingByStamps(s: Stream, current: Option<Row>, rows: seq<Row>)
    requires s.newer.Some? && rows != [] && ExistingStays(s, current, rows)
    ensures current.Some?
    ensures AllNumbers(s, current, rows) ==> GreatestNumber(s, current, rows, current.value)
    ensures NoNumbers(s, rows) ==> LastText(s, current, rows, current.value)
  {
    hide Beats, Stored, StampOf, NumberOf, TextBefore;
    assert !Beats(s, rows[0], current.value);
    forall i | 0 <= i < |rows|
      ensures StampOf(s, current.value) != ""
      ensures AllNumbers(s, current, rows) ==> NumberOf(s, rows[i]).value <= NumberOf(s, current.value).value
      ensures NoNumbers(s, rows) ==> !TextBefore(StampOf(s, current.value), StampOf(s, rows[i]))
    {
      BeatsMeans(s, rows[i], current.value);
    }
    assert StampOf(s, current.value) != "" by {
      BeatsMeans(s, rows[0], current.value);
    }
  }

  lemma WinnerByStamps(s: Stream, current: Option<Row>, rows: seq<Row>, j: int)
    requires s.newer.Some? && WinsAt(s, current, rows, j)
    ensures AllNumbers(s, current, rows) ==> GreatestNumber(s, current, rows, Stored(rows[j]))
    ensures NoNumbers(s, rows) ==> LastText(s, current, rows, Stored(rows[j]))
  {
    hide Beats, Stored, StampOf, NumberOf, TextBefore;
    if current.Some? {
      BeatsMeans(s, rows[j], current.value);
    }
    forall i | 0 <= i < |rows|
      ensures i < j && AllNumbers(s, current, rows) ==> NumberOf(s, rows[i]).value < NumberOf(s, rows[j]).value
      ensures i > j && AllNumbers(s, current, rows) ==> NumberOf(s, rows[i]).value <= NumberOf(s, rows[j]).value
      ensures i < j && NoNumbers(s, rows) ==> TextBefore(StampOf(s, rows[i]), StampOf(s, rows[j]))
      ensures i > j && NoNumbers(s, rows) ==> !TextBefore(StampOf(s, rows[j]), StampOf(s, rows[i]))
    {
      BeatsMeans(s, rows[j], rows[i]);
      BeatsMeans(s, rows[i], rows[j]);
    }
  }

  /** Without a staleness field the last record of the key is kept. */
  lemma LastRecordStays(s: Stream, current: Option<Row>, rows: seq<Row>)
    requires s.newer.None? && rows != []
    ensures UpsertAll(s, current, rows) == Some(Stored(rows[|rows| - 1]))
  {
  }

  // ---- In-batch deduplication ----

  /** The buffered row after the rows of one key arrived: replaced only by a strictly newer one. */
  function Pending(s: Stream, rows: seq<Row>): Option<Row> {
    if rows == [] then None
    else
      var before, last := Pending(s, rows[..|rows| - 1]), rows[|rows| - 1];
      if before.Some? && !Beats(s, last, before.value) then before else Some(last)
  }

  lemma {:induction false} PendingIsOneOf(s: Stream, rows: seq<Row>)
    requires rows != []
    ensures Pending(s, rows).Some? && Pending(s, rows).value in rows
  {
    if |rows| > 1 {
      PendingIsOneOf(s, rows[..|rows| - 1]);
    }
  }

  /** Comparing the batch first and the tab afterwards gives the same as going row by row. */
  lemma {:induction false} PendingThenStored(s: Stream, current: Option<Row>, rows: seq<Row>)
    requires ValidStream(s) && Current(s, current) && rows != []
    requires AllBuildable(s, rows)
    ensures Pending(s, rows).Some?
    ensures UpsertAll(s, current, rows) == Upserted(s, current, Pending(s, rows).value)
  {
    var front, last := rows[..|rows| - 1], rows[|rows| - 1];
    if front != [] {
      PendingThenStored(s, current, front);
      PendingIsOneOf(s, front);
      var p := Pending(s, front).value;
      StoredIsDataRow(s, p);
      if s.newer.Some? && current.Some? {
        BeatsTransitive(s, last, p, current.value);
      }
    }
  }

  // ---- The append buffer ----

  function IndexOfKey(appends: seq<Entry>, k: Key): (r: Option<nat>)
    ensures r.Some? ==> r.value < |appends| && appends[r.value].key == k
    ensures r.None? ==> forall j :: 0 <= j < |appends| ==> appends[j].key != k
  {
    if appends == [] then None
    else if appends[|appends| - 1].key == k then Some(|appends| - 1)
    else IndexOfKey(appends[..|appends| - 1], k)
  }

  function BufferRow(s: Stream, appends: seq<Entry>, row: Row): seq<Entry> {
    var e := Entry(row, KeyOf(s, row));
    match IndexOfKey(appends, e.key)
    case None => appends + [e]
    case Some(i) => if Beats(s, row, appends[i].row) then appends[i := e] else appends
  }

  function Buffered(s: Stream, msgs: seq<Message>): seq<Entry> {
    if msgs == [] then []
    else
      var before, m := Buffered(s, msgs[..|msgs| - 1]), msgs[|msgs| - 1];
      if m.Upsert? then BufferRow(s, before, m.row) else before
  }

  lemma BufferRowKeepsGood(s: Stream, appends: seq<Entry>, row: Row)
    requires GoodAppends(s, appends) && Buildable(s, row)
    ensures GoodAppends(s, BufferRow(s, appends, row))
  {
  }

  lemma {:induction false} BufferedIsGood(s: Stream, msgs: seq<Message>)
    requires Acceptable(s, msgs)
    ensures GoodAppends(s, Buffered(s, msgs))
  {
    if msgs != [] {
      BufferedIsGood(s, msgs[..|msgs| - 1]);
      if msgs[|msgs| - 1].Upsert? {
        BufferRowKeepsGood(s, Buffered(s, msgs[..|msgs| - 1]), msgs[|msgs| - 1].row);
      }
    }
  }

  lemma FindSameKeyAfter(s: Stream, appends: seq<Entry>, row: Row)
    requires GoodAppends(s, appends) && Buildable(s, row)
    ensures var k := KeyOf(s, row);
            Find(BufferRow(s, appends, row), k) ==
            if Find(appends, k).Some? && !Beats(s, row, Find(appends, k).value) then Find(appends, k) else Some(row)
  {
    var after := BufferRow(s, appends, row);
    BufferRowKeepsGood(s, appends, row);
    match IndexOfKey(appends, KeyOf(s, row)) {
      case Some(i) =>
        FindAt(appends, i);
        FindAt(after, i);
      case None =>
        FindAt(after, |appends|);
        assert Find(appends, KeyOf(s, row)).None? by {
          if Find(appends, KeyOf(s, row)).Some? {
            var j := FoundIn(appends, KeyOf(s, row));
          }
        }
    }
  }

  lemma {:induction false} FindSkipsReplaced(appends: seq<Entry>, i: nat, e: Entry, k: Key)
    requires i < |appends| && appends[i].key != k && e.key != k
    ensures Find(appends[i := e], k) == Find(appends, k)
  {
    var front := appends[..|appends| - 1];
    if i == |appends| - 1 {
      assert appends[i := e][..|appends| - 1] == front;
    } else {
      FindSkipsReplaced(front, i, e, k);
      assert appends[i := e][..|appends| - 1] == front[i := e];
    }
  }

  lemma FindOtherKeyAfter(s: Stream, appends: seq<Entry>, row: Row, k: Key)
    requires k != KeyOf(s, row)
    ensures Find(BufferRow(s, appends, row), k) == Find(appends, k)
  {
    var e := Entry(row, KeyOf(s, row));
    match IndexOfKey(appends, e.key) {
      case Some(i) => FindSkipsReplaced(appends, i, e, k);
      case None => assert (appends + [e])[..|appends|] == appends;
    }
  }

  /** The keys of the records, each where it first comes. */
  function FirstKeys(s: Stream, msgs: seq<Message>): seq<Key> {
    if msgs == [] then []
    else
      var rest, m := FirstKeys(s, msgs[..|msgs| - 1]), msgs[|msgs| - 1];
      if m.Upsert? && KeyOf(s, m.row) !in rest then rest + [KeyOf(s, m.row)] else rest
  }

  function KeysIn(entries: seq<Entry>): (keys: seq<Key>)
    ensures |keys| == |entries| && forall i :: 0 <= i < |keys| ==> keys[i] == entries[i].key
  {
    seq(|entries|, i requires 0 <= i < |entries| => entries[i].key)
  }

  /** The buffer keeps the order in which its keys first came, whichever row replaces which. */
  lemma {:induction false} BufferedInOrder(s: Stream, msgs: seq<Message>)
    ensures KeysIn(Buffered(s, msgs)) == FirstKeys(s, msgs)
  {
    if msgs != [] {
      var front, m := msgs[..|msgs| - 1], msgs[|msgs| - 1];
      BufferedInOrder(s, front);
      hide KeyOf, Beats;
      if m.Upsert? {
        KeysAfterRow(s, Buffered(s, front), m.row);
      }
    }
  }

  lemma KeysAfterRow(s: Stream, appends: seq<Entry>, row: Row)
    ensures var keys := KeysIn(appends);
      KeysIn(BufferRow(s, appends, row)) == if KeyOf(s, row) in keys then keys else keys + [KeyOf(s, row)]
  {
    hide KeyOf, Beats;
    match IndexOfKey(appends, KeyOf(s, row)) {
      case Some(i) => assert KeysIn(appends)[i] == KeyOf(s, row);
      case None =>
    }
  }

  /** The buffer holds, for every key, the pending one of its rows. */
  lemma {:induction false} BufferedHoldsPending(s: Stream, msgs: seq<Message>, k: Key)
    requires Acceptable(s, msgs)
    ensures Find(Buffered(s, msgs), k) == Pending(s, UpsertsOf(s, msgs, k))
  {
    if msgs != [] {
      var front, m := msgs[..|msgs| - 1], msgs[|msgs| - 1];
      BufferedHoldsPending(s, front, k);
      BufferedIsGood(s, front);
      if m.Upsert? {
        if k == KeyOf(s, m.row) {
          FindSameKeyAfter(s, Buffered(s, front), m.row);
        } else {
          FindOtherKeyAfter(s, Buffered(s, front), m.row, k);
        }
        var rows := UpsertsOf(s, front, k);
        assert (rows + [m.row])[..|rows|] == rows;
      }
    }
  }

  /** What is expected of the buffers is what is expected of the messages. */
  lemma ExpectedIsWritten(s: Stream, t: Tab, msgs: seq<Message>, k: Key)
    requires ValidStream(s) && Keyed(s, t) && Acceptable(s, msgs)
    ensures ExpectedRow(s, t, Buffered(s, msgs), DeletedKeys(msgs), k) == WrittenRow(s, Lookup(s, t, k), msgs, k)
  {
    var rows := UpsertsOf(s, msgs, k);
    BufferedHoldsPending(s, msgs, k);
    if rows != [] {
      PendingThenStored(s, Lookup(s, t, k), rows);
    }
  }

  // ---- One write, and any number of them ----

  predicate Usable(msgs: seq<Message>) {
    forall i :: 0 <= i < |msgs| ==> !msgs[i].Refused?
  }

  /** A refused record ends the write before anything is flushed. */
  ghost function WriteTab(s: Stream, t: Tab, msgs: seq<Message>): Tab
    requires t != []
    ensures WriteTab(s, t, msgs) != []
  {
    if Usable(msgs) then FlushTab(s, t, Buffered(s, msgs), DeletedKeys(msgs)) else t
  }

  /** Every record that the write does not delete has a key that a paste keeps. */
  predicate PastesKeepKeys(s: Stream, msgs: seq<Message>, deletes: set<Key>) {
    forall i :: 0 <= i < |msgs| && msgs[i].Upsert? && KeyOf(s, msgs[i].row) !in deletes ==> CleanKey(s, msgs[i].row)
  }

  lemma {:induction false} KeysKeptIff(s: Stream, msgs: seq<Message>, deletes: set<Key>)
    requires Acceptable(s, msgs)
    ensures KeysKept(s, Buffered(s, msgs), deletes) <==> PastesKeepKeys(s, msgs, deletes)
  {
    if msgs != [] {
      var front, m := msgs[..|msgs| - 1], msgs[|msgs| - 1];
      KeysKeptIff(s, front, deletes);
      BufferedIsGood(s, front);
      KeptOneMore(s, front, m, deletes);
      FrontLast(msgs);
      if m.Upsert? {
        hide PastesKeepKeys;
        BufferKept(s, Buffered(s, front), m.row, deletes);
      }
    }
  }

  lemma KeptOneMore(s: Stream, front: seq<Message>, m: Message, deletes: set<Key>)
    ensures PastesKeepKeys(s, front + [m], deletes) <==>
      && PastesKeepKeys(s, front, deletes)
      && (m.Upsert? && KeyOf(s, m.row) !in deletes ==> CleanKey(s, m.row))
  {
    var msgs := front + [m];
    assert forall i :: 0 <= i < |front| ==> msgs[i] == front[i];
    assert msgs[|front|] == m;
    if PastesKeepKeys(s, msgs, deletes) {
      forall i | 0 <= i < |front| && front[i].Upsert? && KeyOf(s, front[i].row) !in deletes
        ensures CleanKey(s, front[i].row)
      {
        assert msgs[i].Upsert?;
      }
    }
  }

  lemma BufferKept(s: Stream, appends: seq<Entry>, row: Row, deletes: set<Key>)
    requires GoodAppends(s, appends)
    ensures KeysKept(s, BufferRow(s, appends, row), deletes) <==>
            KeysKept(s, appends, deletes) && (KeyOf(s, row) !in deletes ==> CleanKey(s, row))
  {
    hide KeyOf, Beats, CleanKey, Buildable;
    var after := BufferRow(s, appends, row);
    match IndexOfKey(appends, KeyOf(s, row)) {
      case Some(i) =>
        if CleanKey(s, row) || CleanKey(s, appends[i].row) {
          SameKeyIsClean(s, appends[i].row, if CleanKey(s, row) then row else appends[i].row);
          SameKeyIsClean(s, row, if CleanKey(s, row) then row else appends[i].row);
        }
        assert forall j :: 0 <= j < |appends| && j != i ==> after[j] == appends[j];
        assert after[i].key == appends[i].key && (CleanKey(s, after[i].row) <==> CleanKey(s, appends[i].row));
      case None =>
        assert forall j :: 0 <= j < |appends| ==> after[j] == appends[j];
        assert after[|appends|] == Entry(row, KeyOf(s, row));
    }
  }

  /**
   The pastes of this write keep its keys, and no tail donor loses an update or keeps cells of the row it
   replaces.
   */
  ghost predicate CleanWrite(s: Stream, t: Tab, msgs: seq<Message>)
    requires t != []
  {
    Usable(msgs) ==>
      && PastesKeepKeys(s, msgs, DeletedKeys(msgs))
      && forall i: nat | IsDonor(s, t, Buffered(s, msgs), DeletedKeys(msgs), i) ::
        CleanSwap(s, t, Buffered(s, msgs), DeletedKeys(msgs), i)
  }

  function Committed(s: Stream, current: Option<Row>, msgs: seq<Message>, k: Key): Option<Row> {
    if Usable(msgs) then WrittenRow(s, current, msgs, k) else current
  }

  lemma WriteIs(s: Stream, t: Tab, msgs: seq<Message>)
    requires t != []
    ensures WriteTab(s, t, msgs) ==
            if Usable(msgs) then FlushTab(s, t, Buffered(s, msgs), DeletedKeys(msgs)) else t
    ensures ApartWrite(s, t, msgs) <==> (Usable(msgs) ==> ShownApart(s, t, Buffered(s, msgs), DeletedKeys(msgs)))
  {
  }

  /** The write shows its new rows under keys of their own. */
  ghost predicate ApartWrite(s: Stream, t: Tab, msgs: seq<Message>) {
    Usable(msgs) ==> ShownApart(s, t, Buffered(s, msgs), DeletedKeys(msgs))
  }

  /**
   A write keeps the tab keyed, under the same header row, if and only if it shows its new rows under keys
   of their own; that is so when its pastes keep the keys.
   */
  lemma WriteKeepsKeyed(s: Stream, t: Tab, msgs: seq<Message>)
    requires ValidStream(s) && Keyed(s, t) && Acceptable(s, msgs)
    ensures WriteTab(s, t, msgs) != [] && WriteTab(s, t, msgs)[0] == t[0]
    ensures Keyed(s, WriteTab(s, t, msgs)) <==> ApartWrite(s, t, msgs)
    ensures PastesKeepKeys(s, msgs, DeletedKeys(msgs)) ==> ApartWrite(s, t, msgs)
  {
    assert t != [];
    hide *;
    WriteIs(s, t, msgs);
    BufferedIsGood(s, msgs);
    FlushKeepsRows(s, t, Buffered(s, msgs), DeletedKeys(msgs));
    KeyedIffShownApart(s, t, Buffered(s, msgs), DeletedKeys(msgs));
    KeysKeptIff(s, msgs, DeletedKeys(msgs));
    if KeysKept(s, Buffered(s, msgs), DeletedKeys(msgs)) {
      KeptIsApart(s, t, Buffered(s, msgs), DeletedKeys(msgs));
    }
  }

  /**
   A write refines the keyed table, for any messages, if and only if it is clean: every key
   then holds the newest of its existing row and its live rows, and deleted keys are gone.
   */
  lemma WriteRefinesTable(s: Stream, t: Tab, msgs: seq<Message>)
    requires ValidStream(s) && Keyed(s, t) && Acceptable(s, msgs)
    ensures (forall k :: Lookup(s, WriteTab(s, t, msgs), k) == Committed(s, Lookup(s, t, k), msgs, k)) <==>
            CleanWrite(s, t, msgs)
  {
    if Usable(msgs) {
      BufferedIsGood(s, msgs);
      KeysKeptIff(s, msgs, DeletedKeys(msgs));
      hide PastesKeepKeys, KeysKept, FlushTab, CleanSwap, IsDonor;
      RefinesIffCleanSwaps(s, t, Buffered(s, msgs), DeletedKeys(msgs));
      forall k
        ensures ExpectedRow(s, t, Buffered(s, msgs), DeletedKeys(msgs), k) == Committed(s, Lookup(s, t, k), msgs, k)
      {
        ExpectedIsWritten(s, t, msgs, k);
      }
    }
  }

  /**
   What a clean write leaves under a key of its records that it does not delete, by the stamps alone: never a row
   without a stamp if a record has one; the greatest number, or the last text; the last record without stamps.
   */
  lemma WriteKeepsNewest(s: Stream, t: Tab, msgs: seq<Message>, k: Key)
    requires ValidStream(s) && Keyed(s, t) && Acceptable(s, msgs) && Usable(msgs) && CleanWrite(s, t, msgs)
    requires k !in DeletedKeys(msgs) && UpsertsOf(s, msgs, k) != []
    ensures var before, rows, now := Lookup(s, t, k), UpsertsOf(s, msgs, k), Lookup(s, WriteTab(s, t, msgs), k);
      && now.Some?
      && (s.newer.None? ==> now.value == Stored(rows[|rows| - 1]))
      && (s.newer.Some? && AllNumbers(s, before, rows) ==> GreatestNumber(s, before, rows, now.value))
      && (s.newer.Some? && NoNumbers(s, rows) ==> LastText(s, before, rows, now.value))
  {
    hide WriteTab, CleanWrite, Lookup, UpsertAll, UpsertsOf, GreatestNumber, LastText, AllNumbers, NoNumbers;
    WriteRefinesTable(s, t, msgs);
    LookupIsCurrent(s, t, k);
    var before, rows := Lookup(s, t, k), UpsertsOf(s, msgs, k);
    if s.newer.None? {
      LastRecordStays(s, before, rows);
    } else {
      NewestByStamps(s, before, rows);
    }
  }

  /** After a clean write a row without a stamp never survives a live, undeleted record of its key that has one. */
  lemma WriteReplacesBlank(s: Stream, t: Tab, msgs: seq<Message>, k: Key)
    requires ValidStream(s) && Keyed(s, t) && Acceptable(s, msgs) && Usable(msgs) && CleanWrite(s, t, msgs)
    requires k !in DeletedKeys(msgs) && UpsertsOf(s, msgs, k) != [] && s.newer.Some?
    requires Lookup(s, t, k).Some? ==> StampOf(s, Lookup(s, t, k).value) == ""
    ensures var rows, now := UpsertsOf(s, msgs, k), Lookup(s, WriteTab(s, t, msgs), k);
      && now.Some?
      && (exists j :: 0 <= j < |rows| && now.value == Stored(rows[j]))
      && ((exists i :: 0 <= i < |rows| && StampOf(s, rows[i]) != "") ==> StampOf(s, now.value) != "")
  {
    hide WriteTab, CleanWrite, Lookup, UpsertAll, UpsertsOf, StampOf;
    WriteRefinesTable(s, t, msgs);
    LookupIsCurrent(s, t, k);
    BlankGivesWay(s, Lookup(s, t, k), UpsertsOf(s, msgs, k));
  }

  lemma LookupIsCurrent(s: Stream, t: Tab, k: Key)
    requires Keyed(s, t)
    ensures Current(s, Lookup(s, t, k))
  {
  }

  /**
   The pastes keep the keys, and no tail donor has an update in this write's buffer, or a row in its slot
   that is longer than it.
   */
  ghost predicate SafeWrite(s: Stream, t: Tab, msgs: seq<Message>)
    requires t != []
  {
    Usable(msgs) ==> SafeFlush(s, t, Buffered(s, msgs), DeletedKeys(msgs))
  }

  ghost predicate StampedDonors(s: Stream, t: Tab, msgs: seq<Message>)
    requires t != []
  {
    Usable(msgs) ==> DonorsStamped(s, t, Buffered(s, msgs), DeletedKeys(msgs))
  }

  /** When its donors carry their stamps, a write refines the keyed table if and only if it is safe. */
  lemma WriteRefinesIffSafe(s: Stream, t: Tab, msgs: seq<Message>)
    requires ValidStream(s) && Keyed(s, t) && Acceptable(s, msgs) && StampedDonors(s, t, msgs)
    ensures CleanWrite(s, t, msgs) <==> SafeWrite(s, t, msgs)
    ensures (forall k :: Lookup(s, WriteTab(s, t, msgs), k) == Committed(s, Lookup(s, t, k), msgs, k)) <==>
            SafeWrite(s, t, msgs)
  {
    hide SafeFlush, CleanSwap, IsDonor, WriteTab, Committed, DonorsStamped, PastesKeepKeys, KeysKept;
    WriteRefinesTable(s, t, msgs);
    if Usable(msgs) {
      BufferedIsGood(s, msgs);
      KeysKeptIff(s, msgs, DeletedKeys(msgs));
      RefinesIffSafe(s, t, Buffered(s, msgs), DeletedKeys(msgs));
    }
  }

  /** A tab whose rows all carry their stamps has such donors, whatever is written, and stays such a tab. */
  lemma StampedTabStampedDonors(s: Stream, t: Tab, msgs: seq<Message>)
    requires Keyed(s, t) && AllStamped(s, t)
    ensures StampedDonors(s, t, msgs)
  {
  }

  lemma WriteKeepsStamped(s: Stream, t: Tab, msgs: seq<Message>)
    requires AllDated(s, Buffered(s, msgs))
    requires ValidStream(s) && Keyed(s, t) && Acceptable(s, msgs) && AllStamped(s, t) && s.newer.Some?
    ensures AllStamped(s, WriteTab(s, t, msgs))
  {
    if Usable(msgs) {
      BufferedIsGood(s, msgs);
      FlushKeepsStamped(s, t, Buffered(s, msgs), DeletedKeys(msgs));
    }
  }

  /** A record whose key holds a delimiter is expected under that key, and no write ever shows it there. */
  lemma UncleanKeyNeverShows(s: Stream, t: Tab, msgs: seq<Message>, i: nat)
    requires t != [] && CleanRows(t) && Usable(msgs) && i < |msgs| && msgs[i].Upsert?
    requires !CleanKey(s, msgs[i].row) && KeyOf(s, msgs[i].row) !in DeletedKeys(msgs)
    ensures var k := KeyOf(s, msgs[i].row);
            Committed(s, Lookup(s, t, k), msgs, k).Some? && Lookup(s, WriteTab(s, t, msgs), k) == None
  {
    hide FlushTab, UpsertAll, UpsertsOf, KeyOf, CleanRows, CleanKey;
    var k := KeyOf(s, msgs[i].row);
    FlushKeepsClean(s, t, Buffered(s, msgs), DeletedKeys(msgs));
    UncleanKeyIsAppendedAgain(s, WriteTab(s, t, msgs), Entry(msgs[i].row, k));
    UpsertIsKept(s, msgs, i);
    StoredOnceKept(s, Lookup(s, t, k), UpsertsOf(s, msgs, k));
  }

  lemma {:induction false} UpsertIsKept(s: Stream, msgs: seq<Message>, i: nat)
    requires i < |msgs| && msgs[i].Upsert?
    ensures UpsertsOf(s, msgs, KeyOf(s, msgs[i].row)) != []
  {
    if i < |msgs| - 1 {
      UpsertIsKept(s, msgs[..|msgs| - 1], i);
    }
  }

  lemma StoredOnceKept(s: Stream, current: Option<Row>, rows: seq<Row>)
    requires rows != []
    ensures UpsertAll(s, current, rows).Some?
  {
  }

  ghost function RunWrites(s: Stream, t: Tab, writes: seq<seq<Message>>): Tab
    requires t != []
    decreases |writes|
  {
    if writes == [] then t else RunWrites(s, WriteTab(s, t, writes[0]), writes[1..])
  }

  ghost predicate CleanRun(s: Stream, t: Tab, writes: seq<seq<Message>>)
    requires t != []
    decreases |writes|
  {
    writes == [] || (CleanWrite(s, t, writes[0]) && CleanRun(s, WriteTab(s, t, writes[0]), writes[1..]))
  }

  function CommittedRun(s: Stream, current: Option<Row>, writes: seq<seq<Message>>, k: Key): Option<Row>
    decreases |writes|
  {
    if writes == [] then current
    else CommittedRun(s, Committed(s, current, writes[0], k), writes[1..], k)
  }

  /** The tab shows the committed table. */
  ghost predicate Shows(s: Stream, t: Tab, writes: seq<seq<Message>>)
    requires t != []
  {
    forall k :: Lookup(s, RunWrites(s, t, writes), k) == CommittedRun(s, Lookup(s, t, k), writes, k)
  }

  /** It did so after every write. */
  ghost predicate ShowsThroughout(s: Stream, t: Tab, writes: seq<seq<Message>>)
    requires t != []
  {
    forall n :: 0 <= n <= |writes| ==> Shows(s, t, writes[..n])
  }

  lemma ShowsFirst(s: Stream, t: Tab, writes: seq<seq<Message>>)
    requires ValidStream(s) && Keyed(s, t) && writes != []
    requires forall i :: 0 <= i < |writes| ==> Acceptable(s, writes[i])
    ensures Shows(s, t, writes[..0])
    ensures Shows(s, t, writes[..1]) <==> CleanWrite(s, t, writes[0])
  {
    assert t != [];
    hide WriteTab, Committed, CleanWrite, Lookup, Keyed;
    WriteKeepsKeyed(s, t, writes[0]);
    WriteRefinesTable(s, t, writes[0]);
    assert writes[..1][0] == writes[0] && writes[..1][1..] == [];
    assert RunWrites(s, t, writes[..1]) == WriteTab(s, t, writes[0]);
    forall k ensures CommittedRun(s, Lookup(s, t, k), writes[..1], k) == Committed(s, Lookup(s, t, k), writes[0], k) {
      assert CommittedRun(s, Committed(s, Lookup(s, t, k), writes[0], k), [], k) ==
             Committed(s, Lookup(s, t, k), writes[0], k);
    }
  }

  lemma ShowsRest(s: Stream, t: Tab, writes: seq<seq<Message>>, n: nat)
    requires ValidStream(s) && Keyed(s, t) && n < |writes|
    requires forall i :: 0 <= i < |writes| ==> Acceptable(s, writes[i])
    requires CleanWrite(s, t, writes[0])
    ensures Keyed(s, WriteTab(s, t, writes[0]))
    ensures Shows(s, t, writes[..n + 1]) <==> Shows(s, WriteTab(s, t, writes[0]), writes[1..][..n])
  {
    assert t != [];
    hide WriteTab, Committed, CleanWrite, Lookup, Keyed;
    WriteKeepsKeyed(s, t, writes[0]);
    WriteRefinesTable(s, t, writes[0]);
    assert writes[..n + 1][0] == writes[0] && writes[..n + 1][1..] == writes[1..][..n];
  }

  /** Over any run, the tab shows the committed table after every write if and only if every write is clean. */
  lemma {:induction false} RunRefinesTable(s: Stream, t: Tab, writes: seq<seq<Message>>)
    requires ValidStream(s) && Keyed(s, t)
    requires forall i :: 0 <= i < |writes| ==> Acceptable(s, writes[i])
    ensures ShowsThroughout(s, t, writes) <==> CleanRun(s, t, writes)
    decreases |writes|
  {
    assert t != [];
    hide WriteTab, CleanWrite, Shows, Keyed;
    if writes == [] {
      ShowsNothing(s, t);
    } else {
      var next := WriteTab(s, t, writes[0]);
      WriteKeepsKeyed(s, t, writes[0]);
      ShowsFirst(s, t, writes);
      if CleanWrite(s, t, writes[0]) {
        RunRefinesTable(s, next, writes[1..]);
        forall n | 0 <= n < |writes| ensures Shows(s, t, writes[..n + 1]) <==> Shows(s, next, writes[1..][..n]) {
          ShowsRest(s, t, writes, n);
        }
        ThroughoutByTail(s, t, writes, next);
      }
    }
  }

  lemma ShowsNothing(s: Stream, t: Tab)
    requires t != []
    ensures ShowsThroughout(s, t, [])
  {
    var none: seq<seq<Message>> := [];
    assert none[..0] == none;
  }

  lemma ThroughoutByTail(s: Stream, t: Tab, writes: seq<seq<Message>>, next: Tab)
    requires t != [] && next != [] && writes != []
    requires Shows(s, t, writes[..0])
    requires forall n :: 0 <= n < |writes| ==> (Shows(s, t, writes[..n + 1]) <==> Shows(s, next, writes[1..][..n]))
    ensures ShowsThroughout(s, t, writes) <==> ShowsThroughout(s, next, writes[1..])
  {
    hide Shows;
    if ShowsThroughout(s, t, writes) {
      forall n | 0 <= n <= |writes[1..]| ensures Shows(s, next, writes[1..][..n]) {
        assert Shows(s, t, writes[..n + 1]);
      }
    }
    if ShowsThroughout(s, next, writes[1..]) {
      forall n | 0 <= n <= |writes| ensures Shows(s, t, writes[..n]) {
        if n > 0 {
          assert Shows(s, next, writes[1..][..n - 1]);
          assert Shows(s, t, writes[..(n - 1) + 1]);
        }
      }
    }
  }
}
