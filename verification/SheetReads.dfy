/** Reading a tab before a flush: the whole tab, or only its leading columns without the header. */
module SheetReads {
  import opened SheetGrid
  import opened SheetRows
  import opened SheetTable

  /** The answer to a read of the first `n` columns from row 2 on: blanks at the ends are omitted. */
  function PrefixRead(t: Tab, n: nat): Tab {
    TrimEnd(seq(if t == [] then 0 else |t| - 1, i requires 0 <= i < |t| - 1 => LeadingCells(t[i + 1], n)), [])
  }

  function LeadingCells(row: Row, n: nat): Row {
    TrimEnd(if n <= |row| then row[..n] else row, "")
  }

  /** The key of a row whose leading columns are the key columns, in order. */
  function LeadingKey(s: Stream, row: Row): (k: Key)
    ensures |k| == |s.key| && forall i :: 0 <= i < |k| ==> k[i] == Cell(row, i)
  {
    seq(|s.key|, i requires 0 <= i < |s.key| => Cell(row, i))
  }

  predicate KeyComesFirst(s: Stream) {
    forall i :: 0 <= i < |s.key| ==> s.key[i] == i
  }

  /** The keys of the rows below the header. */
  function DataKeys(s: Stream, allRows: Tab): (keys: seq<Key>)
    requires allRows != []
    ensures |keys| == |allRows| - 1
    ensures forall i :: 0 <= i < |keys| ==> keys[i] == KeyOf(s, allRows[i + 1])
  {
    seq(|allRows| - 1, i requires 0 <= i < |allRows| - 1 => KeyOf(s, allRows[i + 1]))
  }

  function LeadingKeys(s: Stream, pkRows: Tab): (keys: seq<Key>)
    ensures |keys| == |pkRows|
    ensures forall i :: 0 <= i < |keys| ==> keys[i] == LeadingKey(s, pkRows[i])
  {
    seq(|pkRows|, i requires 0 <= i < |pkRows| => LeadingKey(s, pkRows[i]))
  }

  const BLANK_KEY: Key := [""]

  /** Every key maps to the number of the last row that carries it; a single blank key cell does not count. */
  ghost predicate MapsLastRows(m: map<Key, RowNumber>, keys: seq<Key>, firstRow: RowNumber) {
    && (forall k :: k in m ==> firstRow <= m[k] < firstRow + |keys| && keys[m[k] - firstRow] == k && k != BLANK_KEY)
    && (forall i :: 0 <= i < |keys| && keys[i] != BLANK_KEY ==> keys[i] in m && m[keys[i]] - firstRow >= i)
  }

  lemma MapsOneMore(m: map<Key, RowNumber>, keys: seq<Key>, k: Key, firstRow: RowNumber)
    requires MapsLastRows(m, keys, firstRow)
    ensures MapsLastRows(if k == BLANK_KEY then m else m[k := firstRow + |keys|], keys + [k], firstRow)
  {
  }

  lemma MapsNothing(keys: seq<Key>, firstRow: RowNumber)
    ensures MapsLastRows(map[], keys[..0], firstRow)
  {
  }

  method BuildRowMapFromRows(s: Stream, allRows: Tab) returns (m: map<Key, RowNumber>)
    requires allRows != []
    ensures MapsLastRows(m, DataKeys(s, allRows), 2)
  {
    hide MapsLastRows;
    m := map[];
    ghost var keys := DataKeys(s, allRows);
    MapsNothing(keys, 2);
    for i := 1 to |allRows|
      invariant MapsLastRows(m, keys[..i - 1], 2)
    {
      var rowKey := KeyOf(s, allRows[i]);
      assert keys[..i] == keys[..i - 1] + [rowKey];
      MapsOneMore(m, keys[..i - 1], rowKey, 2);
      if rowKey != BLANK_KEY {
        m := m[rowKey := i + 1];
      }
    }
    assert keys[..|allRows| - 1] == keys;
  }

  method BuildRowMapFromPkColumns(s: Stream, pkRows: Tab) returns (m: map<Key, RowNumber>)
    ensures MapsLastRows(m, LeadingKeys(s, pkRows), 2)
  {
    hide MapsLastRows;
    m := map[];
    ghost var keys := LeadingKeys(s, pkRows);
    MapsNothing(keys, 2);
    for i := 0 to |pkRows|
      invariant MapsLastRows(m, keys[..i], 2)
    {
      var rowKey := LeadingKey(s, pkRows[i]);
      assert keys[..i + 1] == keys[..i] + [rowKey];
      MapsOneMore(m, keys[..i], rowKey, 2);
      if rowKey != BLANK_KEY {
        m := m[rowKey := i + 2];
      }
    }
    assert keys[..|pkRows|] == keys;
  }

  /** The map a flush works with: exactly the keys of the tab, each with its row. */
  ghost predicate IsRowMap(s: Stream, t: Tab, m: map<Key, RowNumber>) {
    && (forall k :: k in m ==> HasAt(s, t, k, Index(m[k])))
    && (forall i :: 1 <= i < |t| ==> KeyOf(s, t[i]) in m)
  }

  lemma LastRowsOfKeyedTab(s: Stream, t: Tab, m: map<Key, RowNumber>)
    requires ValidStream(s) && Keyed(s, t) && t != []
    requires MapsLastRows(m, DataKeys(s, t), 2)
    ensures IsRowMap(s, t, m)
  {
    hide *;
    forall i | 1 <= i < |t| ensures KeyOf(s, t[i]) in m {
      KeyIsMapped(s, t, m, i);
    }
    forall k | k in m ensures HasAt(s, t, k, Index(m[k])) {
      MappedKeyHas(s, t, m, k);
    }
    RowMapByParts(s, t, m);
  }

  lemma RowMapByParts(s: Stream, t: Tab, m: map<Key, RowNumber>)
    requires forall k :: k in m ==> HasAt(s, t, k, Index(m[k]))
    requires forall i :: 1 <= i < |t| ==> KeyOf(s, t[i]) in m
    ensures IsRowMap(s, t, m)
  {
  }

  lemma KeyIsMapped(s: Stream, t: Tab, m: map<Key, RowNumber>, i: nat)
    requires ValidStream(s) && Keyed(s, t) && t != [] && MapsLastRows(m, DataKeys(s, t), 2) && 1 <= i < |t|
    ensures KeyOf(s, t[i]) in m
  {
    hide KeyOf;
    assert DataKeys(s, t)[i - 1] == KeyOf(s, t[i]);
    assert Cell(t[i], s.key[0]) != "";
    assert KeyOf(s, t[i])[0] == Cell(t[i], s.key[0]);
  }

  lemma MappedKeyHas(s: Stream, t: Tab, m: map<Key, RowNumber>, k: Key)
    requires t != [] && MapsLastRows(m, DataKeys(s, t), 2) && k in m
    ensures HasAt(s, t, k, Index(m[k]))
  {
    assert DataKeys(s, t)[m[k] - 2] == KeyOf(s, t[m[k] - 1]);
  }

  lemma LeadingCell(row: Row, n: nat, c: nat)
    requires c < n
    ensures Cell(LeadingCells(row, n), c) == Cell(row, c)
  {
    var cut := if n <= |row| then row[..n] else row;
    assert At(TrimEnd(cut, ""), c, "") == At(cut, c, "");
  }

  /**
   The narrow read answers one row for every data row, although blanks are omitted, and shows
   the same cells in its columns.
   */
  lemma NarrowReadShowsAllRows(s: Stream, t: Tab, n: nat)
    requires ValidStream(s) && Keyed(s, t) && KeyComesFirst(s) && |s.key| <= n
    ensures |PrefixRead(t, n)| == |t| - 1
    ensures forall i :: 1 <= i < |t| ==> PrefixRead(t, n)[i - 1] == LeadingCells(t[i], n)
    ensures forall i :: 1 <= i < |t| ==> LeadingKey(s, PrefixRead(t, n)[i - 1]) == KeyOf(s, t[i])
  {
    hide LeadingCells, LeadingKey, KeyOf, DataRow, KeyComesFirst, TrimEnd, ValidStream, Keyed;
    KeyedHasHeader(s, t);
    var whole := seq(|t| - 1, i requires 0 <= i < |t| - 1 => LeadingCells(t[i + 1], n));
    forall i | 0 <= i < |whole| ensures whole[i] != [] {
      KeyedRow(s, t, i + 1);
      NarrowRow(s, t[i + 1], n);
    }
    Untrimmed(whole);
    forall i | 1 <= i < |t| ensures LeadingKey(s, LeadingCells(t[i], n)) == KeyOf(s, t[i]) {
      KeyedRow(s, t, i);
      NarrowRow(s, t[i], n);
    }
  }

  lemma KeyedHasHeader(s: Stream, t: Tab)
    requires Keyed(s, t)
    ensures t != []
  {
  }

  lemma KeyedRow(s: Stream, t: Tab, i: nat)
    requires Keyed(s, t) && 1 <= i < |t|
    ensures DataRow(s, t[i])
  {
  }

  lemma Untrimmed(rows: Tab)
    requires forall i :: 0 <= i < |rows| ==> rows[i] != []
    ensures TrimEnd(rows, []) == rows
  {
  }

  lemma NarrowRow(s: Stream, row: Row, n: nat)
    requires ValidStream(s) && DataRow(s, row) && KeyComesFirst(s) && |s.key| <= n
    ensures LeadingCells(row, n) != [] && LeadingKey(s, LeadingCells(row, n)) == KeyOf(s, row)
  {
    hide LeadingCells;
    var cells := LeadingCells(row, n);
    forall c | 0 <= c < |s.key| ensures Cell(cells, c) == Cell(row, s.key[c]) {
      LeadingCell(row, n, c);
    }
    assert Cell(row, s.key[0]) != "";
  }

  /** The staleness cell of data row `i`, in either kind of read. */
  function ReadRow(allRows: Tab, isNarrow: bool, rowNumber: RowNumber): Row {
    RowAt(allRows, if isNarrow then (if rowNumber >= 2 then rowNumber - 2 else 0) else rowNumber - 1)
  }

  /** What the rest of the flush relies on, whichever read was made. */
  ghost predicate ReadAgrees(s: Stream, t: Tab, allRows: Tab, isNarrow: bool) {
    s.newer.Some? ==>
      forall i: nat :: 1 <= i < |t| ==>
        Cell(ReadRow(allRows, isNarrow, i + 1), s.newer.value) == Cell(t[i], s.newer.value)
  }

  lemma NarrowReadAgrees(s: Stream, t: Tab, n: nat)
    requires ValidStream(s) && Keyed(s, t) && KeyComesFirst(s) && |s.key| <= n
    requires s.newer.Some? ==> s.newer.value < n
    ensures |PrefixRead(t, n)| + 1 == |t|
    ensures LeadingKeys(s, PrefixRead(t, n)) == DataKeys(s, t)
    ensures ReadAgrees(s, t, PrefixRead(t, n), true)
  {
    NarrowReadShowsAllRows(s, t, n);
    if s.newer.Some? {
      forall i: nat | 1 <= i < |t|
        ensures Cell(ReadRow(PrefixRead(t, n), true, i + 1), s.newer.value) == Cell(t[i], s.newer.value)
      {
        LeadingCell(t[i], n, s.newer.value);
      }
    }
  }

  /**
   Reads the tab: only the key columns, and the staleness column if there is one, when nothing
   is deleted and the key columns come first; the whole tab otherwise.  Either way the flush
   gets the same row count, key map and staleness cells.
   */
  method ReadForFlush(s: Stream, t: Tab, hasDeletes: bool)
    returns (allRows: Tab, isNarrow: bool, existingRowCount: nat, freshMap: map<Key, RowNumber>)
    requires ValidStream(s) && Keyed(s, t)
    ensures isNarrow == (!hasDeletes && KeyComesFirst(s))
    ensures !isNarrow ==> allRows == t
    ensures existingRowCount == |t|
    ensures IsRowMap(s, t, freshMap)
    ensures ReadAgrees(s, t, allRows, isNarrow)
  {
    isNarrow := !hasDeletes && KeyComesFirst(s);
    if isNarrow {
      var columnCount := |s.key|;
      if s.newer.Some? && s.newer.value + 1 > columnCount {
        columnCount := s.newer.value + 1;
      }
      allRows := PrefixRead(t, columnCount);
      existingRowCount := |allRows| + 1;
      freshMap := BuildRowMapFromPkColumns(s, allRows);
      NarrowReadAgrees(s, t, columnCount);
    } else {
      allRows := t;
      existingRowCount := |allRows|;
      freshMap := BuildRowMapFromRows(s, allRows);
    }
    LastRowsOfKeyedTab(s, t, freshMap);
  }
}
