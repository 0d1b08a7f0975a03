/**
 A flush whose batch read failed.  The failure is swallowed: nothing is deduplicated or deleted, and all
 buffered rows are pasted below the rows that a probe of the first column counts.
 */
module SheetUnread {
  import opened SheetGrid
  import opened SheetPaste
  import opened SheetRows
  import opened SheetTable
  import opened SheetStages

  /** The rows up to the last one whose first cell is not blank. */
  function ProbedRows(t: Tab): (n: nat)
    ensures n <= |t|
    ensures n > 0 ==> Cell(t[n - 1], 0) != ""
    ensures forall i :: n <= i < |t| ==> Cell(t[i], 0) == ""
  {
    if t == [] then 0
    else if Cell(t[|t| - 1], 0) != "" then |t|
    else ProbedRows(t[..|t| - 1])
  }

  /** A probe that fails is swallowed too. */
  function CountedRows(t: Tab, probeFails: bool): (n: nat)
    ensures n <= |t|
  {
    if probeFails then 0 else ProbedRows(t)
  }

  /** The header names its first column, and that column belongs to the key. */
  predicate KeyInFirstColumn(s: Stream, t: Tab) {
    t != [] && Cell(t[0], 0) != "" && exists i :: 0 <= i < |s.key| && s.key[i] == 0
  }

  /** Then the probe counts every row. */
  lemma ProbeSeesAllRows(s: Stream, t: Tab)
    requires Keyed(s, t) && KeyInFirstColumn(s, t)
    ensures ProbedRows(t) == |t|
  {
    var i :| 0 <= i < |s.key| && s.key[i] == 0;
    if |t| > 1 {
      assert Cell(t[|t| - 1], s.key[i]) != "";
    }
  }

  /** The tab after the paste of all buffered rows below `n` counted ones. */
  function UnreadTab(t: Tab, n: nat, appends: seq<Entry>): Tab {
    PasteAll(t, PastedUpdates(Block(n + 1, RowsOf(appends))))
  }

  function StoredRows(appends: seq<Entry>): (rows: seq<Row>)
    ensures |rows| == |appends| && forall j :: 0 <= j < |rows| ==> rows[j] == Stored(appends[j].row)
  {
    seq(|appends|, j requires 0 <= j < |appends| => Stored(appends[j].row))
  }

  /** Rows that were not counted are overwritten. */
  lemma UnreadRow(s: Stream, t: Tab, n: nat, appends: seq<Entry>, p: nat)
    requires ValidStream(s) && Keyed(s, t) && GoodAppends(s, appends)
    ensures RowAt(UnreadTab(t, n, appends), p) ==
            if n <= p < n + |appends| then Overlay(RowAt(t, p), Pasted(appends[p - n].row)) else RowAt(t, p)
    ensures 1 <= p && n <= p < n + |appends| ==> RowAt(UnreadTab(t, n, appends), p) == Stored(appends[p - n].row)
  {
    hide *;
    UnreadAsBlock(t, n, appends);
    RowAfterBlock(t, n + 1, PastedRows(RowsOf(appends)), p);
    if 1 <= p && n <= p < n + |appends| {
      RowsFit(s, t, appends, p, p - n);
      PasteReplaces(s, RowAt(t, p), appends[p - n].row);
    }
  }

  lemma UnreadAsBlock(t: Tab, n: nat, appends: seq<Entry>)
    ensures UnreadTab(t, n, appends) == PasteAll(t, Block(n + 1, PastedRows(RowsOf(appends))))
    ensures forall j :: 0 <= j < |appends| ==> PastedRows(RowsOf(appends))[j] == Pasted(appends[j].row)
  {
    PastedBlock(n + 1, RowsOf(appends));
  }

  lemma RowsFit(s: Stream, t: Tab, appends: seq<Entry>, p: nat, j: nat)
    requires Keyed(s, t) && GoodAppends(s, appends) && 1 <= p && j < |appends|
    ensures |RowAt(t, p)| <= s.width && |appends[j].row| == s.width
  {
    hide KeyOf, KeyPresent, CleanRow;
    if p < |t| {
      assert DataRow(s, t[p]);
    }
  }

  lemma StoredRowsAreData(s: Stream, appends: seq<Entry>)
    requires ValidStream(s) && GoodAppends(s, appends)
    ensures forall j :: 0 <= j < |appends| ==> DataRow(s, Stored(appends[j].row)) && Stored(appends[j].row) != []
  {
    hide DataRow, Stored, Buildable;
    forall j | 0 <= j < |appends| ensures DataRow(s, Stored(appends[j].row)) && Stored(appends[j].row) != [] {
      StoredIsDataRow(s, appends[j].row);
      DataRowIsNotBlank(s, Stored(appends[j].row));
    }
  }

  lemma DataRowIsNotBlank(s: Stream, row: Row)
    requires ValidStream(s) && DataRow(s, row)
    ensures row != [] && NoBlankEnd(row, "")
  {
    KeyInside(s, row, 0);
  }

  lemma WithStoredIsCanonical(s: Stream, t: Tab, appends: seq<Entry>)
    requires ValidStream(s) && Keyed(s, t) && GoodAppends(s, appends)
    ensures Canonical(t + StoredRows(appends))
  {
    hide DataRow, Stored, Buildable, KeyOf;
    KeyedIsCanonical(s, t);
    StoredRowsAreData(s, appends);
  }

  /** Every buffered row stands below the old ones if and only if there is none, or all old rows were counted. */
  lemma UnreadAppendsIff(s: Stream, t: Tab, n: nat, appends: seq<Entry>)
    requires ValidStream(s) && Keyed(s, t) && GoodAppends(s, appends) && n <= |t|
    ensures UnreadTab(t, n, appends) == t + StoredRows(appends) <==> appends == [] || n == |t|
  {
    hide *;
    var after := t + StoredRows(appends);
    if n == |t| || appends == [] {
      forall p: nat ensures RowAt(UnreadTab(t, n, appends), p) == RowAt(after, p) {
        UnreadRow(s, t, n, appends, p);
        RowOfBoth(s, t, appends, p);
      }
      WithStoredIsCanonical(s, t, appends);
      UnreadIsCanonical(s, t, n, appends);
      SameTab(UnreadTab(t, n, appends), after);
    } else {
      var p := |t| + |appends| - 1;
      UnreadRow(s, t, n, appends, p);
      RowOfBoth(s, t, appends, p);
      StoredRowsAreData(s, appends);
    }
  }

  lemma UnreadIsCanonical(s: Stream, t: Tab, n: nat, appends: seq<Entry>)
    requires ValidStream(s) && Keyed(s, t)
    ensures Canonical(UnreadTab(t, n, appends))
  {
    KeyedIsCanonical(s, t);
    PasteAllKeepsCanonical(t, PastedUpdates(Block(n + 1, RowsOf(appends))));
  }

  lemma RowOfBoth(s: Stream, t: Tab, appends: seq<Entry>, p: nat)
    requires Keyed(s, t)
    ensures t != [] && RowAt(t + StoredRows(appends), p) ==
            if |t| <= p < |t| + |appends| then Stored(appends[p - |t|].row) else RowAt(t, p)
    ensures p >= |t| ==> RowAt(t, p) == []
  {
  }

  /** The keys that the appends show are new and distinct. */
  ghost predicate AllNew(s: Stream, t: Tab, appends: seq<Entry>) {
    && (forall j :: 0 <= j < |appends| ==> !InTab(s, t, ShownKey(s, appends[j])))
    && (forall i, j :: 0 <= i < j < |appends| ==> ShownKey(s, appends[i]) != ShownKey(s, appends[j]))
  }

  /**
   The tab stays keyed after an unread flush that counted all rows if and only if no buffered row shows a
   key that was in it, or one that another buffered row shows: a row of a known key becomes a second one.
   */
  lemma KeyedIffAllNew(s: Stream, t: Tab, appends: seq<Entry>)
    requires ValidStream(s) && Keyed(s, t) && GoodAppends(s, appends)
    ensures Keyed(s, t + StoredRows(appends)) <==> AllNew(s, t, appends)
  {
    hide KeyOf, Stored, DataRow, Buildable;
    var after := t + StoredRows(appends);
    StoredRowsAreData(s, appends);
    if Keyed(s, after) {
      forall j | 0 <= j < |appends| ensures !InTab(s, t, ShownKey(s, appends[j])) {
        forall i: nat ensures !HasAt(s, t, ShownKey(s, appends[j]), i) {
          assert 1 <= i < |t| ==> KeyOf(s, after[i]) != KeyOf(s, after[|t| + j]);
        }
      }
      forall i, j | 0 <= i < j < |appends| ensures ShownKey(s, appends[i]) != ShownKey(s, appends[j]) {
        assert KeyOf(s, after[|t| + i]) != KeyOf(s, after[|t| + j]);
      }
    }
    if AllNew(s, t, appends) {
      forall i, j | 1 <= i < j < |after| ensures KeyOf(s, after[i]) != KeyOf(s, after[j]) {
        if i < |t| <= j {
          KeyIsThere(s, t, i);
          assert !InTab(s, t, ShownKey(s, appends[j - |t|]));
        } else if |t| <= i {
          assert ShownKey(s, appends[i - |t|]) != ShownKey(s, appends[j - |t|]);
        }
      }
    }
  }

  /** With keys that a paste keeps, that is if and only if no buffered key was in the tab. */
  lemma AllNewIff(s: Stream, t: Tab, appends: seq<Entry>)
    requires GoodAppends(s, appends) && KeysKept(s, appends, {})
    ensures AllNew(s, t, appends) <==> forall j :: 0 <= j < |appends| ==> !InTab(s, t, appends[j].key)
  {
    hide KeyOf, Stored, InTab, CleanKey, Buildable;
    forall j | 0 <= j < |appends| ensures ShownKey(s, appends[j]) == appends[j].key {
      StoredKeyIff(s, appends[j].row);
    }
  }

  /** Whatever was to be deleted is still there. */
  lemma DeletedKeysStay(s: Stream, t: Tab, appends: seq<Entry>, k: Key)
    requires InTab(s, t, k)
    ensures InTab(s, t + StoredRows(appends), k)
  {
    var i: nat :| HasAt(s, t, k, i);
    assert HasAt(s, t + StoredRows(appends), k, i);
  }
}
