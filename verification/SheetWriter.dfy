/** Writing a stream of messages to one tab. */
module SheetWriter {
  import opened Options
  import opened SheetGrid
  import opened SheetPaste
  import opened SheetLayout
  import opened SheetRows
  import opened SheetTable
  import opened SheetMessages
  import opened SheetStages
  import opened SheetFlush
  import opened SheetUnread

  /** The remote tab.  A batch update carries out all its requests, or none. */
  class SheetTab {
    var rows: Tab

    constructor (rows: Tab)
      ensures this.rows == rows
    {
      this.rows := rows;
    }

    method BatchUpdate(requests: seq<PasteRequest>, fails: bool) returns (ok: bool)
      modifies this
      ensures ok == !fails
      ensures rows == if ok then ApplyRequests(old(rows), requests) else old(rows)
    {
      ok := !fails;
      if ok {
        rows := ApplyRequests(rows, requests);
      }
    }
  }

  lemma AppendRequestEffects(t: Tab, requests: seq<PasteRequest>, rowIndex: nat, rows: seq<Row>)
    requires rows != []
    ensures ApplyRequests(t, requests + [PasteRequest(rowIndex, Tsv(rows))]) ==
            PasteAll(ApplyRequests(t, requests), PastedUpdates(Block(rowIndex + 1, rows)))
  {
    hide Effects, Tsv, PastedUpdates, Block;
    var request := PasteRequest(rowIndex, Tsv(rows));
    BlockEffects(rowIndex, rows);
    AllEffectsSnoc(requests, request);
    PasteAllAppend(t, AllEffects(requests), Effects(request));
  }

  lemma NoRequests(t: Tab)
    ensures ApplyRequests(t, []) == t && PastedUpdates([]) == [] && PasteAll(t, []) == t
  {
  }

  lemma NoAppends(start: RowNumber)
    ensures PastedUpdates(Block(start, [])) == []
  {
  }

  /** Sends the buffered operations: grouped updates first, then one paste with all appends. */
  method ApplyBatch(tab: SheetTab, updates: seq<Update>, appends: seq<Row>, existingRowCount: nat, fails: bool)
    returns (ok: bool, appendStartRow: RowNumber)
    requires Canonical(tab.rows)
    modifies tab
    ensures appendStartRow == existingRowCount + 1
    ensures !ok ==> fails && tab.rows == old(tab.rows)
    ensures ok ==> tab.rows == PasteAll(old(tab.rows), PastedUpdates(updates) +
                                                       PastedUpdates(Block(existingRowCount + 1, appends)))
  {
    hide *;
    ghost var t := tab.rows;
    var requests := [];
    appendStartRow := existingRowCount + 1;
    NoRequests(t);
    NoAppends(appendStartRow);
    if updates != [] {
      requests := GroupUpdates(updates);
    }
    assert ApplyRequests(t, requests) == PasteAll(t, PastedUpdates(updates));
    PasteAllAppend(t, PastedUpdates(updates), PastedUpdates(Block(appendStartRow, appends)));
    if appends != [] {
      var data := RowsToTsv(appends);
      AppendRequestEffects(t, requests, existingRowCount, appends);
      requests := requests + [PasteRequest(existingRowCount, data)];
    } else {
      assert PastedUpdates(updates) + [] == PastedUpdates(updates);
    }
    if requests == [] {
      ok := true;
    } else {
      ok := tab.BatchUpdate(requests, fails);
    }
  }

  /** The index maps each pending key to the position of its only entry. */
  ghost predicate Indexes(index: map<Key, nat>, appends: seq<Entry>) {
    && (forall k :: k in index ==> index[k] < |appends| && appends[index[k]].key == k)
    && (forall j: nat :: j < |appends| ==> appends[j].key in index && index[appends[j].key] == j)
  }

  lemma IndexIsCurrent(index: map<Key, nat>, appends: seq<Entry>, k: Key)
    requires Indexes(index, appends)
    ensures IndexOfKey(appends, k) == if k in index then Some(index[k]) else None
  {
  }

  /** Buffering a row through the index is buffering it by search, and the index still fits. */
  lemma IndexFits(index: map<Key, nat>, appends: seq<Entry>, s: Stream, row: Row)
    requires Indexes(index, appends)
    ensures var k := KeyOf(s, row);
      var next := BufferRow(s, appends, row);
      if k in index then
        && index[k] < |appends| && Indexes(index, next)
        && next == if Beats(s, row, appends[index[k]].row) then appends[index[k] := Entry(row, k)] else appends
      else
        next == appends + [Entry(row, k)] && Indexes(index[k := |appends|], next)
  {
    hide KeyOf, Beats;
    IndexIsCurrent(index, appends, KeyOf(s, row));
  }

  /** What one write holds back until its messages end. */
  class WriteBuffers {
    const stream: Stream
    var appends: seq<Entry>
    var appendKeyIndex: map<Key, nat>
    var deletes: seq<Key>
    var states: seq<int>
    ghost var seen: seq<Message>

    ghost predicate Indexed()
      reads this
    {
      Indexes(appendKeyIndex, appends)
    }

    ghost predicate Valid()
      reads this
    {
      && Indexed()
      && appends == Buffered(stream, seen)
      && KeySet(deletes) == DeletedKeys(seen)
      && states == States(seen)
    }

    constructor (stream: Stream)
      ensures this.stream == stream && Valid() && seen == []
    {
      this.stream := stream;
      appends, appendKeyIndex, deletes, states, seen := [], map[], [], [], [];
    }

    /** In-batch deduplication: a pending append of the same key is replaced by a newer row only. */
    method AcceptUpsert(row: Row)
      requires Valid()
      modifies this
      ensures Valid() && seen == old(seen) + [Upsert(row)]
    {
      hide KeyOf, Beats, Buffered, DeletedKeys, States, Indexes, BufferRow;
      BufferedSnoc(stream, seen, Upsert(row));
      var rowKey := KeyOf(stream, row);
      IndexFits(appendKeyIndex, appends, stream, row);
      if rowKey in appendKeyIndex {
        var pendingIdx := appendKeyIndex[rowKey];
        if Beats(stream, row, appends[pendingIdx].row) {
          appends := appends[pendingIdx := Entry(row, rowKey)];
        }
      } else {
        appendKeyIndex := appendKeyIndex[rowKey := |appends|];
        appends := appends + [Entry(row, rowKey)];
      }
      seen := seen + [Upsert(row)];
    }

    method AcceptDelete(key: Key)
      requires Valid()
      modifies this
      ensures Valid() && seen == old(seen) + [Delete(key)]
    {
      BufferedSnoc(stream, seen, Delete(key));
      deletes := deletes + [key];
      seen := seen + [Delete(key)];
    }

    method AcceptState(id: int)
      requires Valid()
      modifies this
      ensures Valid() && seen == old(seen) + [SourceState(id)]
    {
      BufferedSnoc(stream, seen, SourceState(id));
      states := states + [id];
      seen := seen + [SourceState(id)];
    }
  }

  lemma BufferedSnoc(s: Stream, msgs: seq<Message>, m: Message)
    ensures Buffered(s, msgs + [m]) == if m.Upsert? then BufferRow(s, Buffered(s, msgs), m.row) else Buffered(s, msgs)
    ensures DeletedKeys(msgs + [m]) == if m.Delete? then DeletedKeys(msgs) + {m.key} else DeletedKeys(msgs)
    ensures States(msgs + [m]) == if m.SourceState? then States(msgs) + [m.id] else States(msgs)
  {
    assert (msgs + [m])[..|msgs|] == msgs;
  }

  // ---- Reporting where appends landed ----

  lemma BottomRow(s: Stream, t: Tab, appends: seq<Entry>, deletes: set<Key>, index: nat)
    requires t != [] && Donated(LayoutOf(s, t, appends, deletes)) + index < |News(s, t, appends, deletes)|
    ensures FreshHome(LayoutOf(s, t, appends, deletes), Donated(LayoutOf(s, t, appends, deletes)) + index) ==
        |t| + index
  {
    var l := LayoutOf(s, t, appends, deletes);
    LayoutIsProper(s, t, appends, deletes);
    SizeWithRest(l);
  }

  /** The rows appended from row `start` on are reported besides what was reported before. */
  ghost predicate Reports(before: map<Key, RowNumber>, appends: seq<Entry>, start: RowNumber,
                          assignments: map<Key, RowNumber>)
  {
    && (forall j: nat :: j < |appends| ==> appends[j].key in assignments && assignments[appends[j].key] == start + j)
    && (forall k :: k in assignments ==> k in before || exists j: nat :: j < |appends| && appends[j].key == k)
    && (forall k :: k in before && (forall j: nat :: j < |appends| ==> appends[j].key != k) ==>
          k in assignments && assignments[k] == before[k])
  }

  lemma ReportsSnoc(before: map<Key, RowNumber>, front: seq<Entry>, last: Entry, start: RowNumber,
                    assignments: map<Key, RowNumber>)
    requires Reports(before, front, start, assignments) && DistinctKeys(front + [last])
    ensures Reports(before, front + [last], start, assignments[last.key := start + |front|])
  {
    var appends, next := front + [last], assignments[last.key := start + |front|];
    assert forall j: nat :: j < |front| ==> appends[j] == front[j];
    assert appends[|front|] == last;
    forall k | k in next ensures k in before || exists j: nat :: j < |appends| && appends[j].key == k {
      if k == last.key {
        assert appends[|front|].key == k;
      } else if k !in before {
        var j: nat :| j < |front| && front[j].key == k;
        assert appends[j].key == k;
      }
    }
    forall j: nat | j < |appends| ensures appends[j].key in next && next[appends[j].key] == start + j {
    }
  }

  method AssignBottom(appends: seq<Entry>, appendStartRow: RowNumber, donated: map<Key, RowNumber>)
    returns (assignments: map<Key, RowNumber>)
    requires DistinctKeys(appends)
    ensures Reports(donated, appends, appendStartRow, assignments)
  {
    hide Reports;
    assignments := donated;
    NothingReported(donated, appends, appendStartRow);
    for index := 0 to |appends|
      invariant Reports(donated, appends[..index], appendStartRow, assignments)
    {
      assert appends[..index + 1] == appends[..index] + [appends[index]];
      ReportsSnoc(donated, appends[..index], appends[index], appendStartRow, assignments);
      assignments := assignments[appends[index].key := appendStartRow + index];
    }
    assert appends[..|appends|] == appends;
  }

  lemma NothingReported(before: map<Key, RowNumber>, appends: seq<Entry>, start: RowNumber)
    ensures Reports(before, appends[..0], start, before)
  {
  }

  lemma RestIsDistinct(s: Stream, t: Tab, all: seq<Entry>, deletes: set<Key>)
    requires t != [] && GoodAppends(s, all)
    ensures DistinctKeys(Rest(s, t, all, deletes))
  {
    hide LayoutOf, News, Donated;
    LayoutIsProper(s, t, all, deletes);
    RestIs(s, t, all, deletes);
    NewsDistinct(s, t, all, deletes);
  }

  /** After the donated appends, the bottom ones complete the report. */
  lemma BottomAssigned(s: Stream, t: Tab, all: seq<Entry>, deletes: set<Key>, donated: map<Key, RowNumber>,
                       assignments: map<Key, RowNumber>)
    requires t != [] && DistinctKeys(all)
    requires Donated(LayoutOf(s, t, all, deletes)) <= |News(s, t, all, deletes)|
    requires Assigned(s, t, all, deletes, Donated(LayoutOf(s, t, all, deletes)), donated)
    requires Reports(donated, Rest(s, t, all, deletes), |t| + 1, assignments)
    ensures Assigned(s, t, all, deletes, |News(s, t, all, deletes)|, assignments)
  {
    hide News, LayoutOf, Donated, FreshHome, Rest, Reports;
    LayoutIsProper(s, t, all, deletes);
    forall j: nat | j < |News(s, t, all, deletes)|
      ensures var key := News(s, t, all, deletes)[j].key;
        key in assignments && Index(assignments[key]) == FreshHome(LayoutOf(s, t, all, deletes), j)
    {
      AppendReported(s, t, all, deletes, donated, assignments, j);
    }
    forall k | k in assignments
      ensures exists j: nat :: j < |News(s, t, all, deletes)| && News(s, t, all, deletes)[j].key == k
    {
      var j := ReportedIsNew(s, t, all, deletes, donated, assignments, k);
    }
  }

  lemma AppendReported(s: Stream, t: Tab, all: seq<Entry>, deletes: set<Key>, donated: map<Key, RowNumber>,
                       assignments: map<Key, RowNumber>, j: nat)
    requires t != [] && DistinctKeys(all) && j < |News(s, t, all, deletes)|
    requires Donated(LayoutOf(s, t, all, deletes)) <= |News(s, t, all, deletes)|
    requires Assigned(s, t, all, deletes, Donated(LayoutOf(s, t, all, deletes)), donated)
    requires Reports(donated, Rest(s, t, all, deletes), |t| + 1, assignments)
    ensures var key := News(s, t, all, deletes)[j].key;
      && j < LayoutOf(s, t, all, deletes).pending && Proper(LayoutOf(s, t, all, deletes))
      && key in assignments && Index(assignments[key]) == FreshHome(LayoutOf(s, t, all, deletes), j)
  {
    hide News, LayoutOf, Donated, FreshHome, Rest, InTab;
    var l, news, rest := LayoutOf(s, t, all, deletes), News(s, t, all, deletes), Rest(s, t, all, deletes);
    LayoutIsProper(s, t, all, deletes);
    RestIs(s, t, all, deletes);
    NewsDistinct(s, t, all, deletes);
    if j >= Donated(l) {
      assert rest[j - Donated(l)] == news[j];
      BottomRow(s, t, all, deletes, j - Donated(l));
    } else {
      assert forall i: nat :: i < |rest| ==> rest[i].key != news[j].key;
    }
  }

  lemma ReportedIsNew(s: Stream, t: Tab, all: seq<Entry>, deletes: set<Key>, donated: map<Key, RowNumber>,
                      assignments: map<Key, RowNumber>, k: Key)
    returns (j: nat)
    requires t != [] && k in assignments
    requires Donated(LayoutOf(s, t, all, deletes)) <= |News(s, t, all, deletes)|
    requires Assigned(s, t, all, deletes, Donated(LayoutOf(s, t, all, deletes)), donated)
    requires Reports(donated, Rest(s, t, all, deletes), |t| + 1, assignments)
    ensures j < |News(s, t, all, deletes)| && News(s, t, all, deletes)[j].key == k
  {
    hide News, LayoutOf, Donated, FreshHome, Rest, InTab;
    LayoutIsProper(s, t, all, deletes);
    RestIs(s, t, all, deletes);
    if k in donated {
      j :| j < Donated(LayoutOf(s, t, all, deletes)) && News(s, t, all, deletes)[j].key == k;
    } else {
      var i: nat :| i < |Rest(s, t, all, deletes)| && Rest(s, t, all, deletes)[i].key == k;
      j := Donated(LayoutOf(s, t, all, deletes)) + i;
    }
  }

  /** A reported row holds the key's own buffered values. */
  ghost predicate HoldsValues(t: Tab, appends: seq<Entry>, k: Key, row: RowNumber) {
    && Index(row) < |t|
    && Find(appends, k).Some?
    && t[Index(row)] == Stored(Find(appends, k).value)
  }

  /** And it is the key's own row. */
  ghost predicate TrueAssignment(s: Stream, t: Tab, appends: seq<Entry>, k: Key, row: RowNumber) {
    HoldsValues(t, appends, k, row) && HasAt(s, t, k, Index(row))
  }

  /**
   After a flush exactly the new keys are reported.  Every reported row holds its key's values, and is the
   row of that key if and only if a paste keeps the key.
   */
  lemma AssignmentsTrue(
    s: Stream, t: Tab, appends: seq<Entry>, deletes: set<Key>, assignments: map<Key, RowNumber>, k: Key)
    requires Ready(s, t, appends) && t != []
    requires Assigned(s, t, appends, deletes, |News(s, t, appends, deletes)|, assignments)
    ensures k in assignments <==> k !in deletes && !InTab(s, t, k) && Find(appends, k).Some?
    ensures k in assignments ==>
      && HoldsValues(FlushTab(s, t, appends, deletes), appends, k, assignments[k])
      && (TrueAssignment(s, FlushTab(s, t, appends, deletes), appends, k, assignments[k]) <==>
          CleanKey(s, Find(appends, k).value))
  {
    hide LayoutOf, FlushTab, FreshHome, Stored, KeyOf, Find, InTab, CleanKey;
    ReadyIsKeyed(s, t, appends);
    LayoutIsProper(s, t, appends, deletes);
    if k in assignments {
      var j: nat :| j < |News(s, t, appends, deletes)| && News(s, t, appends, deletes)[j].key == k;
      NewsFound(s, t, appends, deletes, j);
      var p := AppendStands(s, t, appends, deletes, j);
      NewsIsGood(s, t, appends, deletes, j);
      StoredKeyIff(s, News(s, t, appends, deletes)[j].row);
    } else if k !in deletes && !InTab(s, t, k) && Find(appends, k).Some? {
      var i := FoundIn(appends, k);
      var j := NewsHas(s, t, appends, deletes, i);
    }
  }

  lemma NewsFound(s: Stream, t: Tab, appends: seq<Entry>, deletes: set<Key>, j: nat)
    requires GoodAppends(s, appends) && j < |News(s, t, appends, deletes)|
    ensures var e := News(s, t, appends, deletes)[j];
            Find(appends, e.key) == Some(e.row) && e.key !in deletes && !InTab(s, t, e.key)
  {
    var e := News(s, t, appends, deletes)[j];
    var i :| 0 <= i < |appends| && appends[i] == e;
    FindAt(appends, i);
  }

  /**
   A failed batch update leaves the tab as it was, but rows already chosen for donated appends
   are reported all the same.  Every such report is false, and there is one exactly when an
   append is donated.
   */
  lemma DonatedReportsFalseAfterFailure(
    s: Stream, t: Tab, appends: seq<Entry>, deletes: set<Key>, assignments: map<Key, RowNumber>)
    requires Ready(s, t, appends) && t != []
    requires Donated(LayoutOf(s, t, appends, deletes)) <= |News(s, t, appends, deletes)|
    requires Assigned(s, t, appends, deletes, Donated(LayoutOf(s, t, appends, deletes)), assignments)
    ensures forall k :: k in assignments ==> !TrueAssignment(s, t, appends, k, assignments[k])
    ensures assignments != map[] <==> Donated(LayoutOf(s, t, appends, deletes)) > 0
  {
    hide LayoutOf, News, Donated, KeyOf, FreshHome;
    forall k | k in assignments ensures !TrueAssignment(s, t, appends, k, assignments[k]) {
      var j: nat :| j < |News(s, t, appends, deletes)| && News(s, t, appends, deletes)[j].key == k;
      ReadyIsKeyed(s, t, appends);
      NewsFound(s, t, appends, deletes, j);
    }
    if Donated(LayoutOf(s, t, appends, deletes)) > 0 {
      assert News(s, t, appends, deletes)[0].key in assignments;
    }
    if assignments != map[] {
      var k :| k in assignments;
    }
  }

  /** That is when the batch deletes a key of the tab and has a key for it that is new. */
  lemma DonatedIff(s: Stream, t: Tab, appends: seq<Entry>, deletes: set<Key>)
    requires t != []
    ensures Donated(LayoutOf(s, t, appends, deletes)) > 0 <==>
            (exists i: nat :: 1 <= i < |t| && KeyOf(s, t[i]) in deletes) && News(s, t, appends, deletes) != []
  {
    var del := Marks(s, t, deletes);
    PickMembers(del, 0, |t|, true);
    if i: nat :| 1 <= i < |t| && KeyOf(s, t[i]) in deletes {
      assert i in Pick(del, 0, |t|, true);
    } else {
      PickOfNone(del, |t|);
    }
  }

  // ---- One write ----

  /**
   After a flush without a read every buffered key is reported.  Unless the count missed the header, every
   reported row holds its key's values, and is a row of that key if and only if a paste keeps the key.
   */
  lemma UnreadReports(s: Stream, t: Tab, n: nat, appends: seq<Entry>, assignments: map<Key, RowNumber>, k: Key)
    requires ValidStream(s) && Keyed(s, t) && GoodAppends(s, appends)
    requires Reports(map[], appends, n + 1, assignments)
    ensures k in assignments <==> Find(appends, k).Some?
    ensures k in assignments && n > 0 ==>
      && HoldsValues(UnreadTab(t, n, appends), appends, k, assignments[k])
      && (TrueAssignment(s, UnreadTab(t, n, appends), appends, k, assignments[k]) <==>
          CleanKey(s, Find(appends, k).value))
  {
    hide *;
    GoodIsDistinct(s, appends);
    ReportedIffFound(appends, n + 1, assignments, k);
    if k in assignments && n > 0 {
      var j := EntryOfReport(appends, n + 1, assignments, k);
      FindAt(appends, j);
      UnreadHolds(s, t, n, appends, j);
    }
  }

  lemma ReportedIffFound(appends: seq<Entry>, start: RowNumber, assignments: map<Key, RowNumber>, k: Key)
    requires Reports(map[], appends, start, assignments) && DistinctKeys(appends)
    ensures k in assignments <==> Find(appends, k).Some?
  {
    hide *;
    if k in assignments {
      var j := EntryOfReport(appends, start, assignments, k);
      FindAt(appends, j);
    }
    if Find(appends, k).Some? {
      var j := FoundIn(appends, k);
      EntryReported(appends, start, assignments, j);
    }
  }

  lemma EntryOfReport(appends: seq<Entry>, start: RowNumber, assignments: map<Key, RowNumber>, k: Key) returns (j: nat)
    requires Reports(map[], appends, start, assignments) && k in assignments
    ensures j < |appends| && appends[j].key == k && assignments[k] == start + j
  {
    j :| j < |appends| && appends[j].key == k;
  }

  lemma EntryReported(appends: seq<Entry>, start: RowNumber, assignments: map<Key, RowNumber>, j: nat)
    requires Reports(map[], appends, start, assignments) && j < |appends|
    ensures appends[j].key in assignments
  {
  }

  lemma UnreadHolds(s: Stream, t: Tab, n: nat, appends: seq<Entry>, j: nat)
    requires ValidStream(s) && Keyed(s, t) && GoodAppends(s, appends) && j < |appends| && n > 0
    requires Find(appends, appends[j].key) == Some(appends[j].row)
    ensures HoldsValues(UnreadTab(t, n, appends), appends, appends[j].key, n + 1 + j)
    ensures TrueAssignment(s, UnreadTab(t, n, appends), appends, appends[j].key, n + 1 + j) <==>
            CleanKey(s, appends[j].row)
  {
    hide UnreadTab, Stored, KeyOf, Find, CleanKey, Keyed, GoodAppends, ValidStream, DistinctKeys;
    UnreadRowShown(s, t, n, appends, j);
  }

  lemma UnreadRowShown(s: Stream, t: Tab, n: nat, appends: seq<Entry>, j: nat)
    requires ValidStream(s) && Keyed(s, t) && GoodAppends(s, appends) && j < |appends| && n > 0
    ensures n + j < |UnreadTab(t, n, appends)| && UnreadTab(t, n, appends)[n + j] == Stored(appends[j].row)
    ensures KeyOf(s, Stored(appends[j].row)) == appends[j].key <==> CleanKey(s, appends[j].row)
  {
    hide *;
    UnreadRow(s, t, n, appends, n + j);
    StoredRowsAreData(s, appends);
    KeyOfAppend(s, appends, j);
    StoredKeyIff(s, appends[j].row);
    RowInside(UnreadTab(t, n, appends), n + j);
  }

  lemma RowInside(t: Tab, p: nat)
    requires RowAt(t, p) != []
    ensures p < |t| && t[p] == RowAt(t, p)
  {
  }

  lemma KeyOfAppend(s: Stream, appends: seq<Entry>, j: nat)
    requires GoodAppends(s, appends) && j < |appends|
    ensures appends[j].key == KeyOf(s, appends[j].row)
  {
  }

  /**
   Buffers all records, flushes once at the end, and only then lets the checkpoints pass.  `readFails` and
   `probeFails` say whether the read of the tab and the count of its rows fail, which is swallowed, and
   `flushFails` whether the batch update, if one is sent, is rejected.
   */
  method Write(
    s: Stream, tab: SheetTab, msgs: seq<Message>, readFails: bool, probeFails: bool, flushFails: bool)
    returns (ok: bool, states: seq<int>, assignments: map<Key, RowNumber>)
    requires ValidStream(s) && Keyed(s, tab.rows) && tab.rows != [] && Acceptable(s, msgs)
    modifies tab
    ensures Usable(msgs) && !flushFails ==> ok
    ensures ok ==> Usable(msgs)
    ensures !ok ==> tab.rows == old(tab.rows) && states == []
    ensures ok ==> states == States(msgs)
    ensures ok && !readFails ==> tab.rows == WriteTab(s, old(tab.rows), msgs)
    ensures !readFails ==> tab.rows != [] && tab.rows[0] == old(tab.rows)[0]
    ensures !readFails ==> (Keyed(s, tab.rows) <==> !ok || ApartWrite(s, old(tab.rows), msgs))
    ensures PastesKeepKeys(s, msgs, DeletedKeys(msgs)) ==> ApartWrite(s, old(tab.rows), msgs)
    ensures ok && !readFails ==> forall k :: k in assignments <==>
              k !in DeletedKeys(msgs) && !InTab(s, old(tab.rows), k) && Find(Buffered(s, msgs), k).Some?
    ensures ok && !readFails ==> forall k :: k in assignments ==>
              && HoldsValues(tab.rows, Buffered(s, msgs), k, assignments[k])
              && (TrueAssignment(s, tab.rows, Buffered(s, msgs), k, assignments[k]) <==>
                  CleanKey(s, Find(Buffered(s, msgs), k).value))
    ensures ok && !readFails ==>
                   ((forall k :: Lookup(s, tab.rows, k) == WrittenRow(s, Lookup(s, old(tab.rows), k), msgs, k)) <==>
                    CleanWrite(s, old(tab.rows), msgs))
    ensures StampedDonors(s, old(tab.rows), msgs) ==>
              (CleanWrite(s, old(tab.rows), msgs) <==> SafeWrite(s, old(tab.rows), msgs))
    ensures !ok ==> forall k :: k in assignments ==> !TrueAssignment(s, tab.rows, Buffered(s, msgs), k, assignments[k])
    ensures !ok && !Usable(msgs) ==> assignments == map[]
    ensures !ok && Usable(msgs) ==>
              (assignments != map[] <==>
               !readFails && Donated(LayoutOf(s, tab.rows, Buffered(s, msgs), DeletedKeys(msgs))) > 0)
    ensures ok && readFails ==>
              tab.rows == UnreadTab(old(tab.rows), CountedRows(old(tab.rows), probeFails), Buffered(s, msgs))
    ensures ok && readFails ==> forall k :: k in assignments <==> Find(Buffered(s, msgs), k).Some?
    ensures ok && readFails && CountedRows(old(tab.rows), probeFails) > 0 ==> forall k :: k in assignments ==>
              && HoldsValues(tab.rows, Buffered(s, msgs), k, assignments[k])
              && (TrueAssignment(s, tab.rows, Buffered(s, msgs), k, assignments[k]) <==>
                  CleanKey(s, Find(Buffered(s, msgs), k).value))
  {
    hide *;
    ghost var t := tab.rows;
    if StampedDonors(s, t, msgs) {
      WriteRefinesIffSafe(s, t, msgs);
    }
    WriteKeepsKeyed(s, t, msgs);
    states, assignments := [], map[];
    var buffers := new WriteBuffers(s);
    for i := 0 to |msgs|
      invariant fresh(buffers) && buffers.Valid() && buffers.stream == s && buffers.seen == msgs[..i]
      invariant forall j :: 0 <= j < i ==> !msgs[j].Refused?
      invariant tab.rows == t
    {
      assert msgs[..i + 1] == msgs[..i] + [msgs[i]];
      match msgs[i] {
        case Upsert(row) => buffers.AcceptUpsert(row);
        case Delete(key) => buffers.AcceptDelete(key);
        case SourceState(id) => buffers.AcceptState(id);
        case Refused =>
          NotUsable(msgs, i);
          ok := false;
          return;
      }
    }
    assert msgs[..|msgs|] == msgs;
    AllUsable(msgs);
    BuffersAre(buffers);
    BufferedIsGood(s, msgs);
    MakeReady(s, t, buffers.appends);
    KeyedIsCanonical(s, t);
    GoodIsDistinct(s, buffers.appends);
    var appendStartRow;
    if readFails {
      var counted := CountedRows(tab.rows, probeFails);
      ok, appendStartRow := ApplyBatch(tab, [], RowsOf(buffers.appends), counted, flushFails);
      if ok {
        UnreadTabIs(t, counted, buffers.appends);
        states := buffers.states;
        assignments := AssignBottom(buffers.appends, appendStartRow, assignments);
        forall k
          ensures k in assignments <==> Find(Buffered(s, msgs), k).Some?
          ensures k in assignments && counted > 0 ==>
            && HoldsValues(tab.rows, Buffered(s, msgs), k, assignments[k])
            && (TrueAssignment(s, tab.rows, Buffered(s, msgs), k, assignments[k]) <==>
                CleanKey(s, Find(Buffered(s, msgs), k).value))
        {
          UnreadReports(s, t, counted, Buffered(s, msgs), assignments, k);
        }
      }
      return;
    }
    var updates, appends, existingRowCount;
    updates, appends, existingRowCount, assignments := PrepareFlush(s, tab.rows, buffers.appends, buffers.deletes);
    ok, appendStartRow := ApplyBatch(tab, updates, RowsOf(appends), existingRowCount, flushFails);
    if ok {
      BatchUpdateFlushes(s, t, buffers.appends, DeletedKeys(msgs), updates);
      WrittenTabIs(s, t, msgs);
      states := buffers.states;
      RestIsDistinct(s, t, buffers.appends, DeletedKeys(msgs));
      ghost var donated := assignments;
      assignments := AssignBottom(appends, appendStartRow, assignments);
      BottomAssigned(s, t, buffers.appends, DeletedKeys(msgs), donated, assignments);
      forall k
        ensures k in assignments <==> k !in DeletedKeys(msgs) && !InTab(s, t, k) && Find(Buffered(s, msgs), k).Some?
        ensures k in assignments ==>
          && HoldsValues(tab.rows, Buffered(s, msgs), k, assignments[k])
          && (TrueAssignment(s, tab.rows, Buffered(s, msgs), k, assignments[k]) <==>
              CleanKey(s, Find(Buffered(s, msgs), k).value))
      {
        AssignmentsTrue(s, t, Buffered(s, msgs), DeletedKeys(msgs), assignments, k);
      }
      WriteRefinesTable(s, t, msgs);
      CommittedIsWritten(s, t, msgs);
    } else {
      DonatedReportsFalseAfterFailure(s, t, buffers.appends, DeletedKeys(msgs), assignments);
    }
  }

  lemma UnreadTabIs(t: Tab, n: nat, appends: seq<Entry>)
    ensures PasteAll(t, PastedUpdates([]) + PastedUpdates(Block(n + 1, RowsOf(appends)))) == UnreadTab(t, n, appends)
  {
    hide Block, RowsOf;
    NoRequests(t);
    assert [] + PastedUpdates(Block(n + 1, RowsOf(appends))) == PastedUpdates(Block(n + 1, RowsOf(appends)));
  }

  lemma NotUsable(msgs: seq<Message>, i: nat)
    requires i < |msgs| && msgs[i].Refused?
    ensures !Usable(msgs)
  {
  }

  lemma AllUsable(msgs: seq<Message>)
    requires forall i :: 0 <= i < |msgs| ==> !msgs[i].Refused?
    ensures Usable(msgs)
  {
  }

  lemma BuffersAre(buffers: WriteBuffers)
    requires buffers.Valid()
    ensures buffers.appends == Buffered(buffers.stream, buffers.seen)
    ensures KeySet(buffers.deletes) == DeletedKeys(buffers.seen) && buffers.states == States(buffers.seen)
  {
  }

  lemma MakeReady(s: Stream, t: Tab, appends: seq<Entry>)
    requires ValidStream(s) && Keyed(s, t) && t != [] && GoodAppends(s, appends)
    ensures Ready(s, t, appends)
  {
  }

  lemma WrittenTabIs(s: Stream, t: Tab, msgs: seq<Message>)
    requires t != [] && Usable(msgs)
    ensures WriteTab(s, t, msgs) == FlushTab(s, t, Buffered(s, msgs), DeletedKeys(msgs))
  {
  }

  lemma CommittedIsWritten(s: Stream, t: Tab, msgs: seq<Message>)
    requires Usable(msgs)
    ensures forall k :: Committed(s, Lookup(s, t, k), msgs, k) == WrittenRow(s, Lookup(s, t, k), msgs, k)
  {
  }
}
