/**
 A tab as a keyed table, what one flush of buffered appends and deletes leaves in it, and
 when that is the table one expects.
 */
module SheetTable {
  import opened Options
  import opened Sequences
  import opened SheetGrid
  import opened SheetPaste
  import opened SheetLayout
  import opened SheetRows

  /** A buffered upsert; within one buffer keys are distinct. */
  datatype Entry = Entry(row: Row, key: Key)

  /** Header row first, then data rows with distinct keys and no gap. */
  ghost predicate Keyed(s: Stream, t: Tab) {
    && t != [] && t[0] != [] && NoBlankEnd(t[0], "")
    && (forall i :: 1 <= i < |t| ==> DataRow(s, t[i]))
    && (forall i, j :: 1 <= i < j < |t| ==> KeyOf(s, t[i]) != KeyOf(s, t[j]))
  }

  lemma KeyedIsCanonical(s: Stream, t: Tab)
    requires ValidStream(s) && Keyed(s, t)
    ensures Canonical(t)
  {
    if |t| > 1 {
      KeyInside(s, t[|t| - 1], 0);
    }
  }

  // ---- The table ----

  ghost predicate HasAt(s: Stream, t: Tab, k: Key, i: nat) {
    1 <= i < |t| && KeyOf(s, t[i]) == k
  }

  ghost predicate InTab(s: Stream, t: Tab, k: Key) {
    exists i: nat :: HasAt(s, t, k, i)
  }

  ghost function Lookup(s: Stream, t: Tab, k: Key): Option<Row> {
    if InTab(s, t, k) then
      var i: nat :| HasAt(s, t, k, i);
      Some(t[i])
    else None
  }

  lemma LookupAt(s: Stream, t: Tab, i: nat)
    requires Keyed(s, t) && 1 <= i < |t|
    ensures InTab(s, t, KeyOf(s, t[i])) && Lookup(s, t, KeyOf(s, t[i])) == Some(t[i])
  {
    assert HasAt(s, t, KeyOf(s, t[i]), i);
  }

  // ---- The buffers ----

  predicate DistinctKeys(entries: seq<Entry>) {
    forall i, j :: 0 <= i < j < |entries| ==> entries[i].key != entries[j].key
  }

  ghost predicate GoodAppends(s: Stream, appends: seq<Entry>) {
    && (forall j :: 0 <= j < |appends| ==> Buildable(s, appends[j].row) && appends[j].key == KeyOf(s, appends[j].row))
    && DistinctKeys(appends)
  }

  /** Every append that the batch does not delete has a key that a paste keeps. */
  predicate KeysKept(s: Stream, appends: seq<Entry>, deletes: set<Key>) {
    forall j :: 0 <= j < |appends| && appends[j].key !in deletes ==> CleanKey(s, appends[j].row)
  }

  /** The key under which the tab shows an append. */
  function ShownKey(s: Stream, e: Entry): Key {
    KeyOf(s, Stored(e.row))
  }

  function Find(appends: seq<Entry>, k: Key): Option<Row> {
    if appends == [] then None
    else if appends[|appends| - 1].key == k then Some(appends[|appends| - 1].row)
    else Find(appends[..|appends| - 1], k)
  }

  lemma {:induction false} FoundIn(appends: seq<Entry>, k: Key) returns (j: nat)
    requires Find(appends, k).Some?
    ensures j < |appends| && appends[j] == Entry(Find(appends, k).value, k)
  {
    j := |appends| - 1;
    if appends[j].key != k {
      j := FoundIn(appends[..j], k);
    }
  }

  lemma {:induction false} FindAt(appends: seq<Entry>, j: nat)
    requires j < |appends| && DistinctKeys(appends)
    ensures Find(appends, appends[j].key) == Some(appends[j].row)
  {
    if j < |appends| - 1 {
      FindAt(appends[..|appends| - 1], j);
    }
  }

  /** Appends for keys that are neither in the tab nor deleted. */
  ghost function News(s: Stream, t: Tab, appends: seq<Entry>, deletes: set<Key>): (news: seq<Entry>)
    ensures forall j :: 0 <= j < |news| ==> news[j] in appends
    ensures forall j :: 0 <= j < |news| ==> !InTab(s, t, news[j].key) && news[j].key !in deletes
  {
    if appends == [] then []
    else
      var rest := News(s, t, appends[..|appends| - 1], deletes);
      var e := appends[|appends| - 1];
      if InTab(s, t, e.key) || e.key in deletes then rest else rest + [e]
  }

  lemma {:induction false} NewsHas(s: Stream, t: Tab, appends: seq<Entry>, deletes: set<Key>, i: nat) returns (j: nat)
    requires i < |appends| && !InTab(s, t, appends[i].key) && appends[i].key !in deletes
    ensures j < |News(s, t, appends, deletes)| && News(s, t, appends, deletes)[j] == appends[i]
  {
    if i == |appends| - 1 {
      j := |News(s, t, appends, deletes)| - 1;
    } else {
      j := NewsHas(s, t, appends[..|appends| - 1], deletes, i);
    }
  }

  lemma {:induction false} NewsDistinct(s: Stream, t: Tab, appends: seq<Entry>, deletes: set<Key>)
    requires DistinctKeys(appends)
    ensures DistinctKeys(News(s, t, appends, deletes))
  {
    if appends != [] {
      var front, e := appends[..|appends| - 1], appends[|appends| - 1];
      NewsDistinct(s, t, front, deletes);
      var rest := News(s, t, front, deletes);
      forall i | 0 <= i < |rest| ensures rest[i].key != e.key {
        var x :| 0 <= x < |front| && front[x] == rest[i];
        assert appends[x] == rest[i];
      }
    }
  }

  /** The new appends keep their order. */
  lemma {:induction false} NewsAppend(s: Stream, t: Tab, a: seq<Entry>, b: seq<Entry>, deletes: set<Key>)
    ensures News(s, t, a + b, deletes) == News(s, t, a, deletes) + News(s, t, b, deletes)
    decreases |b|
  {
    if b == [] {
      assert a + b == a;
    } else {
      FrontOfAppend(a, b);
      NewsAppend(s, t, a, b[..|b| - 1], deletes);
    }
  }

  // ---- The flushed tab ----

  /** Row `i` after the buffered upserts for keys already in the tab. */
  function Effective(s: Stream, t: Tab, appends: seq<Entry>, i: nat): Row
    requires i < |t|
  {
    if i == 0 then t[0]
    else
      match Find(appends, KeyOf(s, t[i]))
      case None => t[i]
      case Some(row) => if Beats(s, row, t[i]) then Stored(row) else t[i]
  }

  function Marks(s: Stream, t: Tab, deletes: set<Key>): (del: seq<bool>)
    ensures |del| == |t|
    ensures forall i :: 0 <= i < |t| ==> del[i] == (i >= 1 && KeyOf(s, t[i]) in deletes)
  {
    seq(|t|, i requires 0 <= i < |t| => i >= 1 && KeyOf(s, t[i]) in deletes)
  }

  ghost function LayoutOf(s: Stream, t: Tab, appends: seq<Entry>, deletes: set<Key>): Layout {
    Layout(Marks(s, t, deletes), |News(s, t, appends, deletes)|)
  }

  /**
   The row a source puts in its place.  A moved row is pasted with its values from before the
   flush, over whatever stands in the slot.
   */
  ghost function Render(s: Stream, t: Tab, appends: seq<Entry>, deletes: set<Key>, source: Source): Row
    requires match source
             case Kept(i) => i < |t|
             case Moved(i, into) => i < |t| && into < |t|
             case Fresh(j) => j < |News(s, t, appends, deletes)|
  {
    match source
    case Kept(i) => Effective(s, t, appends, i)
    case Moved(i, into) => Overlay(Effective(s, t, appends, into), t[i])
    case Fresh(j) => Stored(News(s, t, appends, deletes)[j].row)
  }

  ghost function RowOf(s: Stream, t: Tab, appends: seq<Entry>, deletes: set<Key>, p: nat): Row
    requires t != [] && p < Size(LayoutOf(s, t, appends, deletes))
  {
    var l := LayoutOf(s, t, appends, deletes);
    PlacedFrom(l, p);
    Render(s, t, appends, deletes, Place(l, p))
  }

  ghost function FlushTab(s: Stream, t: Tab, appends: seq<Entry>, deletes: set<Key>): (t': Tab)
    requires t != []
    ensures |t'| == Size(LayoutOf(s, t, appends, deletes))
    ensures forall p :: 0 <= p < |t'| ==> t'[p] == RowOf(s, t, appends, deletes, p)
  {
    var size := Size(LayoutOf(s, t, appends, deletes));
    seq(size, p requires 0 <= p < size => RowOf(s, t, appends, deletes, p))
  }

  ghost function SourceKey(s: Stream, t: Tab, appends: seq<Entry>, deletes: set<Key>, source: Source): Key {
    match source
    case Kept(i) => if i < |t| then KeyOf(s, t[i]) else []
    case Moved(i, _) => if i < |t| then KeyOf(s, t[i]) else []
    case Fresh(j) =>
      var news := News(s, t, appends, deletes);
      if j < |news| then ShownKey(s, news[j]) else []
  }

  lemma EffectiveIsDataRow(s: Stream, t: Tab, appends: seq<Entry>, i: nat)
    requires ValidStream(s) && Keyed(s, t) && GoodAppends(s, appends) && 1 <= i < |t|
    ensures DataRow(s, Effective(s, t, appends, i)) && KeyOf(s, Effective(s, t, appends, i)) == KeyOf(s, t[i])
  {
    var found := Find(appends, KeyOf(s, t[i]));
    if found.Some? {
      var j := FoundIn(appends, KeyOf(s, t[i]));
      StoredIsDataRow(s, found.value);
      SameKeyIsClean(s, found.value, t[i]);
    }
  }

  /** Every row below the header is a data row and shows the key of its source. */
  lemma RowHasSourceKey(s: Stream, t: Tab, appends: seq<Entry>, deletes: set<Key>, p: nat)
    requires ValidStream(s) && Keyed(s, t) && GoodAppends(s, appends)
    requires 1 <= p < Size(LayoutOf(s, t, appends, deletes))
    ensures var row := RowOf(s, t, appends, deletes, p);
            && DataRow(s, row)
            && KeyOf(s, row) == SourceKey(s, t, appends, deletes, Place(LayoutOf(s, t, appends, deletes), p))
  {
    var l := LayoutOf(s, t, appends, deletes);
    PlacedFrom(l, p);
    match Place(l, p) {
      case Kept(i) => EffectiveIsDataRow(s, t, appends, i);
      case Moved(i, into) =>
        EffectiveIsDataRow(s, t, appends, into);
        OverlayIsDataRow(s, Effective(s, t, appends, into), t[i]);
      case Fresh(j) => StoredIsDataRow(s, News(s, t, appends, deletes)[j].row);
    }
  }

  /** A surviving data row or a pending append. */
  ghost predicate Live(s: Stream, t: Tab, appends: seq<Entry>, deletes: set<Key>, source: Source) {
    match source
    case Kept(i) => 1 <= i < |t| && KeyOf(s, t[i]) !in deletes
    case Moved(i, _) => 1 <= i < |t| && KeyOf(s, t[i]) !in deletes
    case Fresh(j) => j < |News(s, t, appends, deletes)|
  }

  /** The new appends are shown under keys of their own. */
  ghost predicate ShownApart(s: Stream, t: Tab, appends: seq<Entry>, deletes: set<Key>) {
    var news := News(s, t, appends, deletes);
    && (forall i, j :: 1 <= i < |t| && KeyOf(s, t[i]) !in deletes && 0 <= j < |news| ==>
          KeyOf(s, t[i]) != ShownKey(s, news[j]))
    && (forall i, j :: 0 <= i < j < |news| ==> ShownKey(s, news[i]) != ShownKey(s, news[j]))
  }

  lemma NewsIsGood(s: Stream, t: Tab, appends: seq<Entry>, deletes: set<Key>, j: nat)
    requires GoodAppends(s, appends) && j < |News(s, t, appends, deletes)|
    ensures var e := News(s, t, appends, deletes)[j];
            Buildable(s, e.row) && e.key == KeyOf(s, e.row) && Find(appends, e.key) == Some(e.row)
    ensures KeysKept(s, appends, deletes) ==> CleanKey(s, News(s, t, appends, deletes)[j].row)
  {
    var e := News(s, t, appends, deletes)[j];
    var i :| 0 <= i < |appends| && appends[i] == e;
    FindAt(appends, i);
  }

  /** Keys that a paste keeps are shown apart. */
  lemma KeptIsApart(s: Stream, t: Tab, appends: seq<Entry>, deletes: set<Key>)
    requires GoodAppends(s, appends) && KeysKept(s, appends, deletes)
    ensures ShownApart(s, t, appends, deletes)
  {
    hide KeysKept, News, KeyOf, Stored, InTab;
    var news := News(s, t, appends, deletes);
    forall j | 0 <= j < |news| ensures ShownKey(s, news[j]) == news[j].key {
      NewsIsGood(s, t, appends, deletes, j);
      StoredKeyIff(s, news[j].row);
    }
    NewsDistinct(s, t, appends, deletes);
    forall i | 1 <= i < |t| ensures InTab(s, t, KeyOf(s, t[i])) {
      KeyIsThere(s, t, i);
    }
  }

  lemma KeyIsThere(s: Stream, t: Tab, i: nat)
    requires 1 <= i < |t|
    ensures InTab(s, t, KeyOf(s, t[i]))
  {
    assert HasAt(s, t, KeyOf(s, t[i]), i);
  }

  /** Two sources shown under the same key are the same surviving row or the same append. */
  lemma SourceKeysDistinct(s: Stream, t: Tab, appends: seq<Entry>, deletes: set<Key>, a: Source, b: Source)
    requires Keyed(s, t) && ShownApart(s, t, appends, deletes)
    requires Live(s, t, appends, deletes, a) && Live(s, t, appends, deletes, b)
    requires SourceKey(s, t, appends, deletes, a) == SourceKey(s, t, appends, deletes, b)
    ensures a.Fresh? == b.Fresh?
    ensures if a.Fresh? then a == b else a.row == b.row
  {
  }

  lemma PlacedIsLive(s: Stream, t: Tab, appends: seq<Entry>, deletes: set<Key>, p: nat)
    requires t != [] && 1 <= p < Size(LayoutOf(s, t, appends, deletes))
    ensures Live(s, t, appends, deletes, Place(LayoutOf(s, t, appends, deletes), p))
  {
    PlacedFrom(LayoutOf(s, t, appends, deletes), p);
  }

  lemma PlacedKeysDistinct(s: Stream, t: Tab, appends: seq<Entry>, deletes: set<Key>, p: nat, q: nat)
    requires Keyed(s, t) && t != [] && ShownApart(s, t, appends, deletes)
    requires 1 <= p < Size(LayoutOf(s, t, appends, deletes)) && 1 <= q < Size(LayoutOf(s, t, appends, deletes))
    requires var l := LayoutOf(s, t, appends, deletes);
             SourceKey(s, t, appends, deletes, Place(l, p)) == SourceKey(s, t, appends, deletes, Place(l, q))
    ensures p == q
  {
    hide *;
    var l := LayoutOf(s, t, appends, deletes);
    PlacedIsLive(s, t, appends, deletes, p);
    PlacedIsLive(s, t, appends, deletes, q);
    LayoutIsProper(s, t, appends, deletes);
    SourceKeysDistinct(s, t, appends, deletes, Place(l, p), Place(l, q));
    PlacedOnce(l, p);
    PlacedOnce(l, q);
  }

  lemma LayoutIsProper(s: Stream, t: Tab, appends: seq<Entry>, deletes: set<Key>)
    requires t != []
    ensures var l := LayoutOf(s, t, appends, deletes);
            Proper(l) && |l.del| == |t| && l.pending == |News(s, t, appends, deletes)|
  {
  }

  /** A flush leaves data rows without gaps below the same header row. */
  lemma FlushKeepsRows(s: Stream, t: Tab, appends: seq<Entry>, deletes: set<Key>)
    requires ValidStream(s) && Keyed(s, t) && GoodAppends(s, appends)
    ensures FlushTab(s, t, appends, deletes) != [] && FlushTab(s, t, appends, deletes)[0] == t[0]
    ensures forall p :: 1 <= p < |FlushTab(s, t, appends, deletes)| ==> DataRow(s, FlushTab(s, t, appends, deletes)[p])
    ensures Canonical(FlushTab(s, t, appends, deletes))
  {
    var l, t' := LayoutOf(s, t, appends, deletes), FlushTab(s, t, appends, deletes);
    PlacedFrom(l, 0);
    forall p | 1 <= p < |t'| ensures DataRow(s, t'[p]) {
      RowHasSourceKey(s, t, appends, deletes, p);
    }
    if |t'| > 1 {
      KeyInside(s, t'[|t'| - 1], 0);
    }
  }

  lemma FlushKeepsKeyed(s: Stream, t: Tab, appends: seq<Entry>, deletes: set<Key>)
    requires ValidStream(s) && Keyed(s, t) && GoodAppends(s, appends) && ShownApart(s, t, appends, deletes)
    ensures Keyed(s, FlushTab(s, t, appends, deletes))
  {
    var t' := FlushTab(s, t, appends, deletes);
    FlushKeepsRows(s, t, appends, deletes);
    forall p, q | 1 <= p < q < |t'| ensures KeyOf(s, t'[p]) != KeyOf(s, t'[q]) {
      RowHasSourceKey(s, t, appends, deletes, p);
      RowHasSourceKey(s, t, appends, deletes, q);
      if KeyOf(s, t'[p]) == KeyOf(s, t'[q]) {
        PlacedKeysDistinct(s, t, appends, deletes, p, q);
      }
    }
  }

  /** A flush keeps the tab keyed if and only if it shows its appends under keys of their own. */
  lemma KeyedIffShownApart(s: Stream, t: Tab, appends: seq<Entry>, deletes: set<Key>)
    requires ValidStream(s) && Keyed(s, t) && GoodAppends(s, appends)
    ensures Keyed(s, FlushTab(s, t, appends, deletes)) <==> ShownApart(s, t, appends, deletes)
  {
    assert t != [];
    hide *;
    var t', news := FlushTab(s, t, appends, deletes), News(s, t, appends, deletes);
    if ShownApart(s, t, appends, deletes) {
      FlushKeepsKeyed(s, t, appends, deletes);
    }
    if Keyed(s, t') {
      forall i, j | 1 <= i < |t| && KeyOf(s, t[i]) !in deletes && 0 <= j < |news|
        ensures KeyOf(s, t[i]) != ShownKey(s, news[j])
      {
        var p := SurvivorStands(s, t, appends, deletes, i);
        var q := AppendStands(s, t, appends, deletes, j);
        if KeyOf(s, t'[p]) == KeyOf(s, t'[q]) {
          SameKeySameRow(s, t', p, q);
        }
      }
      forall i, j | 0 <= i < j < |news| ensures ShownKey(s, news[i]) != ShownKey(s, news[j]) {
        var p := AppendStands(s, t, appends, deletes, i);
        var q := AppendStands(s, t, appends, deletes, j);
        if KeyOf(s, t'[p]) == KeyOf(s, t'[q]) {
          SameKeySameRow(s, t', p, q);
        }
      }
      ApartByParts(s, t, appends, deletes);
    }
  }

  lemma ApartByParts(s: Stream, t: Tab, appends: seq<Entry>, deletes: set<Key>)
    requires var news := News(s, t, appends, deletes);
      && (forall i, j :: 1 <= i < |t| && KeyOf(s, t[i]) !in deletes && 0 <= j < |news| ==>
            KeyOf(s, t[i]) != ShownKey(s, news[j]))
      && (forall i, j :: 0 <= i < j < |news| ==> ShownKey(s, news[i]) != ShownKey(s, news[j]))
    ensures ShownApart(s, t, appends, deletes)
  {
  }

  lemma SameKeySameRow(s: Stream, t: Tab, p: nat, q: nat)
    requires Keyed(s, t) && 1 <= p < |t| && 1 <= q < |t| && KeyOf(s, t[p]) == KeyOf(s, t[q])
    ensures p == q
  {
  }

  lemma SurvivorStands(s: Stream, t: Tab, appends: seq<Entry>, deletes: set<Key>, i: nat) returns (p: nat)
    requires ValidStream(s) && Keyed(s, t) && GoodAppends(s, appends)
    requires 1 <= i < |t| && KeyOf(s, t[i]) !in deletes
    ensures 1 <= p < |FlushTab(s, t, appends, deletes)| && !Place(LayoutOf(s, t, appends, deletes), p).Fresh?
    ensures KeyOf(s, FlushTab(s, t, appends, deletes)[p]) == KeyOf(s, t[i])
  {
    SurvivorPlaced(LayoutOf(s, t, appends, deletes), i);
    HomeBelowHeader(s, t, appends, deletes, i);
    p := Home(LayoutOf(s, t, appends, deletes), i);
    RowHasSourceKey(s, t, appends, deletes, p);
  }

  /** Each pending append stands where it was reported to be, with its own values, under the key that these show. */
  lemma AppendStands(s: Stream, t: Tab, appends: seq<Entry>, deletes: set<Key>, j: nat) returns (p: nat)
    requires ValidStream(s) && Keyed(s, t) && GoodAppends(s, appends) && j < |News(s, t, appends, deletes)|
    ensures p == FreshHome(LayoutOf(s, t, appends, deletes), j) && 1 <= p < |FlushTab(s, t, appends, deletes)|
    ensures Place(LayoutOf(s, t, appends, deletes), p) == Fresh(j)
    ensures FlushTab(s, t, appends, deletes)[p] == Stored(News(s, t, appends, deletes)[j].row)
    ensures KeyOf(s, FlushTab(s, t, appends, deletes)[p]) == ShownKey(s, News(s, t, appends, deletes)[j])
  {
    p := FreshHome(LayoutOf(s, t, appends, deletes), j);
    FreshBelowHeader(s, t, appends, deletes, j);
    FreshPlaced(LayoutOf(s, t, appends, deletes), j);
    RowHasSourceKey(s, t, appends, deletes, p);
  }

  // ---- The table expected from a batch ----

  /** A stored row after one more upsert of its key: the newer one, the stored one on a tie. */
  function Upserted(s: Stream, current: Option<Row>, row: Row): Option<Row> {
    if current.Some? && !Beats(s, row, current.value) then current else Some(Stored(row))
  }

  ghost function ExpectedRow(s: Stream, t: Tab, appends: seq<Entry>, deletes: set<Key>, k: Key): Option<Row> {
    if k in deletes then None
    else
      match Find(appends, k)
      case None => Lookup(s, t, k)
      case Some(row) => Upserted(s, Lookup(s, t, k), row)
  }

  /** The flushed tab is the expected table. */
  ghost predicate Refines(s: Stream, t: Tab, appends: seq<Entry>, deletes: set<Key>)
    requires t != []
  {
    forall k :: Lookup(s, FlushTab(s, t, appends, deletes), k) == ExpectedRow(s, t, appends, deletes, k)
  }

  /** Row `i` survives, but stands in the tail that will be blank. */
  ghost predicate IsDonor(s: Stream, t: Tab, appends: seq<Entry>, deletes: set<Key>, i: nat)
    requires t != []
  {
    BodyEnd(LayoutOf(s, t, appends, deletes)) <= i < |t| && KeyOf(s, t[i]) !in deletes
  }

  /** The deleted slot that receives donor `i`. */
  ghost function SlotFor(s: Stream, t: Tab, appends: seq<Entry>, deletes: set<Key>, i: nat): (slot: nat)
    requires t != [] && IsDonor(s, t, appends, deletes, i)
    ensures 1 <= slot < |t| && KeyOf(s, t[slot]) in deletes
  {
    var l := LayoutOf(s, t, appends, deletes);
    SurvivorPlaced(l, i);
    PlacedFrom(l, Home(l, i));
    Home(l, i)
  }

  /**
   Moving donor `i` gives the row it should have: what it looked like before the flush, with
   the part of the slot's row that sticks out to the right, is its up-to-date content.
   */
  ghost predicate CleanSwap(s: Stream, t: Tab, appends: seq<Entry>, deletes: set<Key>, i: nat)
    requires t != [] && IsDonor(s, t, appends, deletes, i)
  {
    Overlay(Effective(s, t, appends, SlotFor(s, t, appends, deletes, i)), t[i]) == Effective(s, t, appends, i)
  }

  /** A surviving row is found at its home, up to date if it was not moved. */
  lemma SurvivorLookup(s: Stream, t: Tab, appends: seq<Entry>, deletes: set<Key>, i: nat)
    requires ValidStream(s) && Keyed(s, t) && GoodAppends(s, appends) && ShownApart(s, t, appends, deletes)
    requires 1 <= i < |t| && KeyOf(s, t[i]) !in deletes
    ensures Lookup(s, FlushTab(s, t, appends, deletes), KeyOf(s, t[i])) ==
            Some(if IsDonor(s, t, appends, deletes, i)
                 then Overlay(Effective(s, t, appends, SlotFor(s, t, appends, deletes, i)), t[i])
                 else Effective(s, t, appends, i))
  {
    var l, t' := LayoutOf(s, t, appends, deletes), FlushTab(s, t, appends, deletes);
    SurvivorPlaced(l, i);
    var p := Home(l, i);
    HomeBelowHeader(s, t, appends, deletes, i);
    RowHasSourceKey(s, t, appends, deletes, p);
    FlushKeepsKeyed(s, t, appends, deletes);
    LookupAt(s, t', p);
  }

  lemma HomeBelowHeader(s: Stream, t: Tab, appends: seq<Entry>, deletes: set<Key>, i: nat)
    requires 1 <= i < |t| && KeyOf(s, t[i]) !in deletes
    ensures Home(LayoutOf(s, t, appends, deletes), i) >= 1
  {
    var l := LayoutOf(s, t, appends, deletes);
    SurvivorPlaced(l, i);
    PlacedFrom(l, Home(l, i));
  }

  lemma FreshBelowHeader(s: Stream, t: Tab, appends: seq<Entry>, deletes: set<Key>, j: nat)
    requires t != [] && j < |News(s, t, appends, deletes)|
    ensures 1 <= FreshHome(LayoutOf(s, t, appends, deletes), j) < |FlushTab(s, t, appends, deletes)|
  {
    FreshPlaced(LayoutOf(s, t, appends, deletes), j);
  }

  /** There it is looked up, if the tab stays keyed. */
  lemma AppendAtHome(s: Stream, t: Tab, appends: seq<Entry>, deletes: set<Key>, j: nat)
    requires ValidStream(s) && Keyed(s, t) && GoodAppends(s, appends) && j < |News(s, t, appends, deletes)|
    requires ShownApart(s, t, appends, deletes)
    ensures var e := News(s, t, appends, deletes)[j];
      && Lookup(s, FlushTab(s, t, appends, deletes), ShownKey(s, e)) == Some(Stored(e.row))
      && (ShownKey(s, e) == e.key <==> CleanKey(s, e.row))
  {
    hide FlushTab, LayoutOf, Stored, KeyOf, ShownApart;
    var p := AppendStands(s, t, appends, deletes, j);
    FlushKeepsKeyed(s, t, appends, deletes);
    LookupAt(s, FlushTab(s, t, appends, deletes), p);
    NewsIsGood(s, t, appends, deletes, j);
    StoredKeyIff(s, News(s, t, appends, deletes)[j].row);
  }

  /** The keys shown by the new appends. */
  ghost predicate ShownByNews(s: Stream, t: Tab, appends: seq<Entry>, deletes: set<Key>, k: Key) {
    exists j :: 0 <= j < |News(s, t, appends, deletes)| && ShownKey(s, News(s, t, appends, deletes)[j]) == k
  }

  /** No key appears from nowhere, and deleted keys are gone. */
  lemma OnlyLiveKeys(s: Stream, t: Tab, appends: seq<Entry>, deletes: set<Key>, k: Key)
    requires ValidStream(s) && Keyed(s, t) && GoodAppends(s, appends)
    requires InTab(s, FlushTab(s, t, appends, deletes), k)
    ensures (k !in deletes && InTab(s, t, k)) || ShownByNews(s, t, appends, deletes, k)
  {
    var l, t' := LayoutOf(s, t, appends, deletes), FlushTab(s, t, appends, deletes);
    var p: nat :| HasAt(s, t', k, p);
    RowHasSourceKey(s, t, appends, deletes, p);
    PlacedIsLive(s, t, appends, deletes, p);
    var source := Place(l, p);
    if source.Fresh? {
      assert ShownKey(s, News(s, t, appends, deletes)[source.index]) == k;
    } else {
      assert HasAt(s, t, k, source.row);
    }
  }

  lemma NewKeyLookup(s: Stream, t: Tab, appends: seq<Entry>, deletes: set<Key>, k: Key)
    requires ValidStream(s) && Keyed(s, t) && GoodAppends(s, appends) && KeysKept(s, appends, deletes)
    requires k !in deletes && !InTab(s, t, k) && Find(appends, k).Some?
    ensures Lookup(s, FlushTab(s, t, appends, deletes), k) == Some(Stored(Find(appends, k).value))
  {
    hide FlushTab, ShownApart, Stored, News, KeyOf;
    var i := FoundIn(appends, k);
    var j := NewsHas(s, t, appends, deletes, i);
    KeptIsApart(s, t, appends, deletes);
    AppendAtHome(s, t, appends, deletes, j);
  }

  /** The keys of any flushed tab: the old ones that were not deleted, and those that the appends show. */
  lemma FlushedKeys(s: Stream, t: Tab, appends: seq<Entry>, deletes: set<Key>, k: Key)
    requires ValidStream(s) && Keyed(s, t) && GoodAppends(s, appends)
    ensures InTab(s, FlushTab(s, t, appends, deletes), k) <==>
            (k !in deletes && InTab(s, t, k)) || ShownByNews(s, t, appends, deletes, k)
  {
    hide FlushTab, LayoutOf, Stored, KeyOf;
    var t' := FlushTab(s, t, appends, deletes);
    if InTab(s, t', k) {
      OnlyLiveKeys(s, t, appends, deletes, k);
    }
    if k !in deletes && InTab(s, t, k) {
      var i: nat :| HasAt(s, t, k, i);
      var p := SurvivorStands(s, t, appends, deletes, i);
      assert HasAt(s, t', k, p);
    }
    if ShownByNews(s, t, appends, deletes, k) {
      var j: nat :| j < |News(s, t, appends, deletes)| && ShownKey(s, News(s, t, appends, deletes)[j]) == k;
      var p := AppendStands(s, t, appends, deletes, j);
      assert HasAt(s, t', k, p);
    }
  }

  /** With keys that a paste keeps, these are the old and the appended keys that were not deleted. */
  lemma KeptKeys(s: Stream, t: Tab, appends: seq<Entry>, deletes: set<Key>, k: Key)
    requires ValidStream(s) && Keyed(s, t) && GoodAppends(s, appends) && KeysKept(s, appends, deletes)
    ensures InTab(s, FlushTab(s, t, appends, deletes), k) <==>
            k !in deletes && (InTab(s, t, k) || Find(appends, k).Some?)
  {
    hide FlushTab, Stored, KeyOf, KeysKept;
    FlushedKeys(s, t, appends, deletes, k);
    if ShownByNews(s, t, appends, deletes, k) {
      var j: nat :| j < |News(s, t, appends, deletes)| && ShownKey(s, News(s, t, appends, deletes)[j]) == k;
      NewsIsGood(s, t, appends, deletes, j);
      StoredKeyIff(s, News(s, t, appends, deletes)[j].row);
    } else if k !in deletes && !InTab(s, t, k) && Find(appends, k).Some? {
      var i := FoundIn(appends, k);
      var j := NewsHas(s, t, appends, deletes, i);
      NewsIsGood(s, t, appends, deletes, j);
      StoredKeyIff(s, News(s, t, appends, deletes)[j].row);
    }
  }

  lemma ExpectedForSurvivor(s: Stream, t: Tab, appends: seq<Entry>, deletes: set<Key>, i: nat)
    requires Keyed(s, t) && 1 <= i < |t| && KeyOf(s, t[i]) !in deletes
    ensures ExpectedRow(s, t, appends, deletes, KeyOf(s, t[i])) == Some(Effective(s, t, appends, i))
  {
    LookupAt(s, t, i);
  }

  lemma LookupAsExpected(s: Stream, t: Tab, appends: seq<Entry>, deletes: set<Key>, k: Key)
    requires ValidStream(s) && Keyed(s, t) && GoodAppends(s, appends) && KeysKept(s, appends, deletes)
    requires forall i: nat | IsDonor(s, t, appends, deletes, i) :: CleanSwap(s, t, appends, deletes, i)
    ensures Lookup(s, FlushTab(s, t, appends, deletes), k) == ExpectedRow(s, t, appends, deletes, k)
  {
    hide FlushTab, Stored, KeysKept, ShownApart;
    KeptKeys(s, t, appends, deletes, k);
    KeptIsApart(s, t, appends, deletes);
    if k !in deletes && InTab(s, t, k) {
      var i: nat :| HasAt(s, t, k, i);
      SurvivorLookup(s, t, appends, deletes, i);
      ExpectedForSurvivor(s, t, appends, deletes, i);
    } else if k !in deletes && Find(appends, k).Some? {
      NewKeyLookup(s, t, appends, deletes, k);
    }
  }

  /**
   A flush leaves the expected table if and only if a paste keeps the keys of its appends, and every
   tail swap is clean.
   */
  lemma RefinesIffCleanSwaps(s: Stream, t: Tab, appends: seq<Entry>, deletes: set<Key>)
    requires ValidStream(s) && Keyed(s, t) && GoodAppends(s, appends)
    ensures Refines(s, t, appends, deletes) <==>
      && KeysKept(s, appends, deletes)
      && forall i: nat | IsDonor(s, t, appends, deletes, i) :: CleanSwap(s, t, appends, deletes, i)
  {
    hide FlushTab, LayoutOf, Stored, KeyOf, ShownApart, CleanSwap, CleanKey;
    if Refines(s, t, appends, deletes) {
      forall j | 0 <= j < |appends| && appends[j].key !in deletes ensures CleanKey(s, appends[j].row) {
        if !CleanKey(s, appends[j].row) {
          UncleanKeyBreaksTable(s, t, appends, deletes, j);
        }
      }
      KeptIsApart(s, t, appends, deletes);
      forall i: nat | IsDonor(s, t, appends, deletes, i) ensures CleanSwap(s, t, appends, deletes, i) {
        DonorOnlyIfClean(s, t, appends, deletes, i);
      }
    } else if KeysKept(s, appends, deletes) &&
              forall i: nat | IsDonor(s, t, appends, deletes, i) :: CleanSwap(s, t, appends, deletes, i) {
      forall k ensures Lookup(s, FlushTab(s, t, appends, deletes), k) == ExpectedRow(s, t, appends, deletes, k) {
        LookupAsExpected(s, t, appends, deletes, k);
      }
    }
  }

  lemma DonorOnlyIfClean(s: Stream, t: Tab, appends: seq<Entry>, deletes: set<Key>, i: nat)
    requires ValidStream(s) && Keyed(s, t) && GoodAppends(s, appends) && ShownApart(s, t, appends, deletes)
    requires IsDonor(s, t, appends, deletes, i) && Refines(s, t, appends, deletes)
    ensures CleanSwap(s, t, appends, deletes, i)
  {
    SurvivorLookup(s, t, appends, deletes, i);
    ExpectedForSurvivor(s, t, appends, deletes, i);
  }

  // ---- When a swap is clean ----

  /** The buffers hold a replacement for row `i`. */
  predicate HasPendingUpdate(s: Stream, t: Tab, appends: seq<Entry>, i: nat)
    requires 1 <= i < |t|
  {
    var found := Find(appends, KeyOf(s, t[i]));
    found.Some? && Beats(s, found.value, t[i])
  }

  predicate StampedRow(s: Stream, row: Row) {
    s.newer.Some? && Cell(row, s.newer.value) != ""
  }

  /** Every buffered row carries its stamp. */
  predicate AllDated(s: Stream, appends: seq<Entry>) {
    forall j :: 0 <= j < |appends| ==> StampedRow(s, appends[j].row)
  }

  /** A replacement that had to be newer differs from what it replaces. */
  lemma PendingUpdateChanges(s: Stream, t: Tab, appends: seq<Entry>, i: nat)
    requires ValidStream(s) && Keyed(s, t) && GoodAppends(s, appends) && 1 <= i < |t|
    requires s.newer.Some? && (AllDated(s, appends) || StampedRow(s, t[i]))
    ensures HasPendingUpdate(s, t, appends, i) <==> Effective(s, t, appends, i) != t[i]
  {
    if HasPendingUpdate(s, t, appends, i) {
      var row := Find(appends, KeyOf(s, t[i])).value;
      var j := FoundIn(appends, KeyOf(s, t[i]));
      StoredIsDataRow(s, row);
      NewerIrreflexive(s, Cell(row, s.newer.value));
    }
  }

  /**
   With a staleness field, and when no deleted slot's row is longer than the donor moved into
   it, the only way to go wrong is a tail donor with a newer record in the same batch: its
   update is written to the row it leaves.
   */
  lemma CleanUnlessDonorUpdated(s: Stream, t: Tab, appends: seq<Entry>, deletes: set<Key>, i: nat)
    requires ValidStream(s) && Keyed(s, t) && GoodAppends(s, appends) && s.newer.Some? && AllDated(s, appends)
    requires IsDonor(s, t, appends, deletes, i)
    requires |Effective(s, t, appends, SlotFor(s, t, appends, deletes, i))| <= |t[i]|
    ensures CleanSwap(s, t, appends, deletes, i) <==> !HasPendingUpdate(s, t, appends, i)
  {
    var slot := SlotFor(s, t, appends, deletes, i);
    EffectiveIsDataRow(s, t, appends, slot);
    OverlayIsPasteIff(Effective(s, t, appends, slot), t[i]);
    PendingUpdateChanges(s, t, appends, i);
  }

  /**
   A donor without a pending update is moved cleanly if and only if it is at least as long as
   the row in the slot: donor rows are read without trailing blanks and pasted unpadded.
   */
  lemma CleanIfDonorLongEnough(s: Stream, t: Tab, appends: seq<Entry>, deletes: set<Key>, i: nat)
    requires ValidStream(s) && Keyed(s, t) && GoodAppends(s, appends)
    requires IsDonor(s, t, appends, deletes, i)
    requires !HasPendingUpdate(s, t, appends, i)
    ensures CleanSwap(s, t, appends, deletes, i) <==>
            |Effective(s, t, appends, SlotFor(s, t, appends, deletes, i))| <= |t[i]|
  {
    var slot := SlotFor(s, t, appends, deletes, i);
    EffectiveIsDataRow(s, t, appends, slot);
    OverlayIsPasteIff(Effective(s, t, appends, slot), t[i]);
  }

  /** When no deleted slot's row is longer than its donor, what matters is the keys, and that no donor is updated. */
  lemma LongDonorsRefine(s: Stream, t: Tab, appends: seq<Entry>, deletes: set<Key>)
    requires ValidStream(s) && Keyed(s, t) && GoodAppends(s, appends) && s.newer.Some? && AllDated(s, appends)
    requires forall i: nat | IsDonor(s, t, appends, deletes, i) :: FitsDonor(s, t, appends, deletes, i)
    ensures Refines(s, t, appends, deletes) <==>
      && KeysKept(s, appends, deletes)
      && forall i: nat | IsDonor(s, t, appends, deletes, i) :: !HasPendingUpdate(s, t, appends, i)
  {
    RefinesIffCleanSwaps(s, t, appends, deletes);
    forall i: nat | IsDonor(s, t, appends, deletes, i)
      ensures CleanSwap(s, t, appends, deletes, i) <==> !HasPendingUpdate(s, t, appends, i)
    {
      assert FitsDonor(s, t, appends, deletes, i);
      CleanUnlessDonorUpdated(s, t, appends, deletes, i);
    }
  }

  // ---- When every row carries its stamp ----

  /** Every data row of the tab has a stamp. */
  ghost predicate AllStamped(s: Stream, t: Tab) {
    forall i :: 1 <= i < |t| ==> StampedRow(s, t[i])
  }

  /** The slot's row is no longer than the donor. */
  ghost predicate FitsDonor(s: Stream, t: Tab, appends: seq<Entry>, deletes: set<Key>, i: nat)
    requires t != [] && IsDonor(s, t, appends, deletes, i)
  {
    |Effective(s, t, appends, SlotFor(s, t, appends, deletes, i))| <= |t[i]|
  }

  ghost predicate DonorsStamped(s: Stream, t: Tab, appends: seq<Entry>, deletes: set<Key>)
    requires t != []
  {
    forall i: nat | IsDonor(s, t, appends, deletes, i) :: StampedRow(s, t[i])
  }

  /** Known before the batch is sent: it keeps its keys, and no tail donor is updated or gets a longer row's slot. */
  ghost predicate SafeFlush(s: Stream, t: Tab, appends: seq<Entry>, deletes: set<Key>)
    requires t != []
  {
    && KeysKept(s, appends, deletes)
    && forall i: nat | IsDonor(s, t, appends, deletes, i) ::
      !HasPendingUpdate(s, t, appends, i) && FitsDonor(s, t, appends, deletes, i)
  }

  /** A donor that carries a stamp brings its old stamp along, whatever sticks out of the slot. */
  lemma StampedSwapIff(s: Stream, t: Tab, appends: seq<Entry>, deletes: set<Key>, i: nat)
    requires ValidStream(s) && Keyed(s, t) && GoodAppends(s, appends)
    requires IsDonor(s, t, appends, deletes, i) && StampedRow(s, t[i])
    ensures CleanSwap(s, t, appends, deletes, i) <==>
            !HasPendingUpdate(s, t, appends, i) && FitsDonor(s, t, appends, deletes, i)
  {
    if HasPendingUpdate(s, t, appends, i) {
      hide LayoutOf, Beats, IsDonor, SlotFor;
      var slot := Effective(s, t, appends, SlotFor(s, t, appends, deletes, i));
      OverlayCell(slot, t[i], s.newer.value);
      UpdateMovesStamp(s, t, appends, i);
    } else {
      CleanIfDonorLongEnough(s, t, appends, deletes, i);
    }
  }

  lemma UpdateMovesStamp(s: Stream, t: Tab, appends: seq<Entry>, i: nat)
    requires ValidStream(s) && Keyed(s, t) && GoodAppends(s, appends) && 1 <= i < |t| && s.newer.Some?
    requires HasPendingUpdate(s, t, appends, i) && StampedRow(s, t[i])
    ensures Cell(Effective(s, t, appends, i), s.newer.value) != Cell(t[i], s.newer.value)
  {
    var row := Find(appends, KeyOf(s, t[i])).value;
    var j := FoundIn(appends, KeyOf(s, t[i]));
    StoredIsDataRow(s, row);
    hide IsStrictlyNewer, LexLess, DataRow, Buildable, KeyPresent, CleanRow, Orderly, BlankIsLeast;
    NewerIrreflexive(s, Cell(t[i], s.newer.value));
  }

  /** A flush whose donors carry stamps leaves the expected table if and only if it is safe. */
  lemma RefinesIffSafe(s: Stream, t: Tab, appends: seq<Entry>, deletes: set<Key>)
    requires ValidStream(s) && Keyed(s, t) && GoodAppends(s, appends) && DonorsStamped(s, t, appends, deletes)
    ensures Refines(s, t, appends, deletes) <==> SafeFlush(s, t, appends, deletes)
    ensures SafeFlush(s, t, appends, deletes) <==>
      && KeysKept(s, appends, deletes)
      && forall i: nat | IsDonor(s, t, appends, deletes, i) :: CleanSwap(s, t, appends, deletes, i)
  {
    RefinesIffCleanSwaps(s, t, appends, deletes);
    forall i: nat | IsDonor(s, t, appends, deletes, i)
      ensures CleanSwap(s, t, appends, deletes, i) <==>
              !HasPendingUpdate(s, t, appends, i) && FitsDonor(s, t, appends, deletes, i)
    {
      StampedSwapIff(s, t, appends, deletes, i);
    }
  }

  lemma EffectiveIsStamped(s: Stream, t: Tab, appends: seq<Entry>, i: nat)
    requires AllDated(s, appends)
    requires ValidStream(s) && Keyed(s, t) && GoodAppends(s, appends) && AllStamped(s, t) && 1 <= i < |t|
    ensures StampedRow(s, Effective(s, t, appends, i))
  {
    var found := Find(appends, KeyOf(s, t[i]));
    if found.Some? {
      var j := FoundIn(appends, KeyOf(s, t[i]));
      StoredIsDataRow(s, found.value);
    }
  }

  /** A flush of a stamped tab leaves a stamped tab. */
  lemma FlushKeepsStamped(s: Stream, t: Tab, appends: seq<Entry>, deletes: set<Key>)
    requires AllDated(s, appends)
    requires ValidStream(s) && Keyed(s, t) && GoodAppends(s, appends) && AllStamped(s, t) && s.newer.Some?
    ensures AllStamped(s, FlushTab(s, t, appends, deletes))
  {
    hide Effective, LayoutOf, Overlay, Stored, KeyOf;
    var t' := FlushTab(s, t, appends, deletes);
    forall p | 1 <= p < |t'| ensures StampedRow(s, t'[p]) {
      RowIsStamped(s, t, appends, deletes, p);
    }
  }

  lemma RowIsStamped(s: Stream, t: Tab, appends: seq<Entry>, deletes: set<Key>, p: nat)
    requires AllDated(s, appends)
    requires ValidStream(s) && Keyed(s, t) && GoodAppends(s, appends) && AllStamped(s, t) && s.newer.Some?
    requires 1 <= p < Size(LayoutOf(s, t, appends, deletes))
    ensures StampedRow(s, RowOf(s, t, appends, deletes, p))
  {
    hide Effective, LayoutOf, Overlay, Stored, KeyOf;
    var l := LayoutOf(s, t, appends, deletes);
    LayoutIsProper(s, t, appends, deletes);
    PlacedFrom(l, p);
    match Place(l, p) {
      case Kept(i) => EffectiveIsStamped(s, t, appends, i);
      case Moved(i, into) =>
        OverlayCell(Effective(s, t, appends, into), t[i], s.newer.value);
      case Fresh(j) => StoredIsDataRow(s, News(s, t, appends, deletes)[j].row);
    }
  }

  // ---- Keys that a paste does not keep ----

  ghost predicate CleanRows(t: Tab) {
    forall i :: 1 <= i < |t| ==> CleanRow(t[i])
  }

  lemma CleanRowHasCleanKey(s: Stream, row: Row)
    requires CleanRow(row)
    ensures CleanKey(s, row)
  {
  }

  /** No pasted row ever shows a key with a delimiter, so every write appends its record again. */
  lemma UncleanKeyIsAppendedAgain(s: Stream, t: Tab, e: Entry)
    requires CleanRows(t) && e.key == KeyOf(s, e.row) && !CleanKey(s, e.row)
    ensures !InTab(s, t, e.key) && News(s, t, [e], {}) == [e]
  {
    forall i: nat ensures !HasAt(s, t, e.key, i) {
      if 1 <= i < |t| {
        CleanRowHasCleanKey(s, t[i]);
        var c :| 0 <= c < |s.key| && !Clean(Cell(e.row, s.key[c]));
        assert KeyOf(s, t[i])[c] != e.key[c];
      }
    }
    assert [e][..0] == [];
  }

  lemma SanitizedIsClean(row: Row)
    ensures CleanRow(Stored(row))
  {
    forall c: nat ensures Clean(Cell(Stored(row), c)) {
      StoredCell(row, c);
    }
    CleanRowByCell(Stored(row));
  }

  lemma OverlayIsClean(prior: Row, row: Row)
    requires CleanRow(prior) && CleanRow(row)
    ensures CleanRow(Overlay(prior, row))
  {
    forall c: nat ensures Clean(Cell(Overlay(prior, row), c)) {
      OverlayCell(prior, row, c);
    }
    CleanRowByCell(Overlay(prior, row));
  }

  lemma FlushKeepsClean(s: Stream, t: Tab, appends: seq<Entry>, deletes: set<Key>)
    requires t != [] && CleanRows(t)
    ensures CleanRows(FlushTab(s, t, appends, deletes))
  {
    hide LayoutOf, Overlay, Stored, KeyOf, CleanRow;
    var l, t' := LayoutOf(s, t, appends, deletes), FlushTab(s, t, appends, deletes);
    LayoutIsProper(s, t, appends, deletes);
    forall p | 1 <= p < |t'| ensures CleanRow(t'[p]) {
      PlacedFrom(l, p);
      match Place(l, p) {
        case Kept(i) => EffectiveIsClean(s, t, appends, i);
        case Moved(i, into) =>
          EffectiveIsClean(s, t, appends, into);
          OverlayIsClean(Effective(s, t, appends, into), t[i]);
        case Fresh(j) => SanitizedIsClean(News(s, t, appends, deletes)[j].row);
      }
    }
  }

  lemma EffectiveIsClean(s: Stream, t: Tab, appends: seq<Entry>, i: nat)
    requires CleanRows(t) && 1 <= i < |t|
    ensures CleanRow(Effective(s, t, appends, i))
  {
    var found := Find(appends, KeyOf(s, t[i]));
    if found.Some? {
      SanitizedIsClean(found.value);
    }
  }

  /** A batch that appends a key with a delimiter, and does not delete it, never leaves the expected table. */
  lemma UncleanKeyBreaksTable(s: Stream, t: Tab, appends: seq<Entry>, deletes: set<Key>, j: nat)
    requires t != [] && CleanRows(t) && GoodAppends(s, appends)
    requires j < |appends| && !CleanKey(s, appends[j].row) && appends[j].key !in deletes
    ensures !Refines(s, t, appends, deletes)
  {
    hide LayoutOf, Stored, KeyOf, FlushTab;
    var e := appends[j];
    FlushKeepsClean(s, t, appends, deletes);
    UncleanKeyIsAppendedAgain(s, FlushTab(s, t, appends, deletes), e);
    FindAt(appends, j);
    assert Lookup(s, FlushTab(s, t, appends, deletes), e.key) == None;
    assert ExpectedRow(s, t, appends, deletes, e.key).Some?;
  }
}
