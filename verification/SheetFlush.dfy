/** The steps of a flush: convert, reconcile, fill deleted rows, and hand over to the batch update. */
module SheetFlush {
  import opened Options
  import opened SheetGrid
  import opened SheetPaste
  import opened SheetLayout
  import opened SheetRows
  import opened SheetTable
  import opened SheetReads
  import opened SheetStages

  // ---- Appends for existing keys become updates ----

  /** The effect of the updates: rows already in the tab are brought up to date, nothing else changes. */
  ghost predicate Converted(s: Stream, t: Tab, appends: seq<Entry>, updates: seq<Update>) {
    var g := PasteAll(t, PastedUpdates(updates));
    && Canonical(g)
    && (forall p: nat {:trigger RowAt(g, p)} :: p < |t| ==> RowAt(g, p) == Effective(s, t, appends, p))
    && (forall p: nat {:trigger RowAt(g, p)} :: |t| <= p ==> RowAt(g, p) == [])
  }

  lemma NothingConverted(s: Stream, t: Tab, appends: seq<Entry>)
    requires Ready(s, t, appends)
    ensures Converted(s, t, [], [])
  {
    assert PastedUpdates([]) == [];
    KeyedIsCanonical(s, t);
  }

  lemma EffectiveElsewhere(s: Stream, t: Tab, appends: seq<Entry>, x: nat, p: nat)
    requires x < |appends| && p < |t| && (p == 0 || KeyOf(s, t[p]) != appends[x].key)
    ensures Effective(s, t, appends[..x + 1], p) == Effective(s, t, appends[..x], p)
  {
    assert appends[..x + 1][..x] == appends[..x];
  }

  lemma NotFoundBefore(appends: seq<Entry>, x: nat)
    requires DistinctKeys(appends) && x < |appends|
    ensures Find(appends[..x], appends[x].key) == None
  {
    if Find(appends[..x], appends[x].key).Some? {
      var j := FoundIn(appends[..x], appends[x].key);
    }
  }

  lemma EffectiveHere(s: Stream, t: Tab, appends: seq<Entry>, x: nat, i: nat)
    requires Ready(s, t, appends) && x < |appends| && HasAt(s, t, appends[x].key, i)
    ensures Effective(s, t, appends[..x], i) == t[i]
    ensures Effective(s, t, appends[..x + 1], i) ==
            if Beats(s, appends[x].row, t[i]) then Overlay(t[i], Pasted(appends[x].row)) else t[i]
  {
    NotFoundBefore(appends, x);
    PasteReplaces(s, t[i], appends[x].row);
  }

  lemma SameRowForKey(s: Stream, t: Tab, k: Key, i: nat, p: nat)
    requires Keyed(s, t) && HasAt(s, t, k, i) && HasAt(s, t, k, p)
    ensures i == p
  {
  }

  lemma OtherKey(s: Stream, t: Tab, k: Key, i: nat, p: nat)
    requires Keyed(s, t) && HasAt(s, t, k, i) && p < |t| && p != i
    ensures p == 0 || KeyOf(s, t[p]) != k
  {
    if p != 0 && KeyOf(s, t[p]) == k {
      SameRowForKey(s, t, k, i, p);
    }
  }

  lemma EffectiveNext(s: Stream, t: Tab, appends: seq<Entry>, x: nat, i: nat, p: nat)
    requires Keyed(s, t) && x < |appends| && HasAt(s, t, appends[x].key, i) && p < |t| && p != i
    ensures Effective(s, t, appends[..x + 1], p) == Effective(s, t, appends[..x], p)
  {
    OtherKey(s, t, appends[x].key, i, p);
    EffectiveElsewhere(s, t, appends, x, p);
  }

  /** One more append, newer than the row it belongs to, is pushed as an update. */
  lemma ConvertNewer(s: Stream, t: Tab, appends: seq<Entry>, updates: seq<Update>, x: nat, i: nat)
    requires Ready(s, t, appends) && x < |appends| && HasAt(s, t, appends[x].key, i) && i < |t|
    requires Converted(s, t, appends[..x], updates) && Beats(s, appends[x].row, t[i])
    ensures Converted(s, t, appends[..x + 1], updates + [Update(i + 1, appends[x].row)])
  {
    hide Effective, Overlay, Pasted, Ready, Beats, PastedUpdates, PasteAll, HasAt, Keyed;
    var g, u := PasteAll(t, PastedUpdates(updates)), Update(i + 1, appends[x].row);
    var g' := PasteAll(t, PastedUpdates(updates + [u]));
    PastedUpdatesSnoc(updates, u);
    PasteAllSnoc(t, PastedUpdates(updates), Update(i + 1, Pasted(u.values)));
    PasteKeepsCanonical(g, i + 1, Pasted(u.values));
    EffectiveHere(s, t, appends, x, i);
    ReadyIsKeyed(s, t, appends);
    forall p: nat | p < |t| ensures RowAt(g', p) == Effective(s, t, appends[..x + 1], p) {
      assert RowAt(g, p) == Effective(s, t, appends[..x], p);
      if p != i {
        EffectiveNext(s, t, appends, x, i, p);
      }
    }
  }

  lemma ReadyIsKeyed(s: Stream, t: Tab, appends: seq<Entry>)
    requires Ready(s, t, appends)
    ensures ValidStream(s) && Keyed(s, t) && t != [] && GoodAppends(s, appends)
  {
  }

  /** One more append that is not newer is dropped. */
  lemma ConvertStale(s: Stream, t: Tab, appends: seq<Entry>, updates: seq<Update>, x: nat, i: nat)
    requires Ready(s, t, appends) && x < |appends| && HasAt(s, t, appends[x].key, i) && i < |t|
    requires Converted(s, t, appends[..x], updates) && !Beats(s, appends[x].row, t[i])
    ensures Converted(s, t, appends[..x + 1], updates)
  {
    hide Effective, Overlay, Pasted, Ready, Beats, PastedUpdates, PasteAll, HasAt, Keyed;
    var g := PasteAll(t, PastedUpdates(updates));
    EffectiveHere(s, t, appends, x, i);
    ReadyIsKeyed(s, t, appends);
    forall p: nat | p < |t| ensures RowAt(g, p) == Effective(s, t, appends[..x + 1], p) {
      assert RowAt(g, p) == Effective(s, t, appends[..x], p);
      if p != i {
        EffectiveNext(s, t, appends, x, i, p);
      }
    }
  }

  lemma SkipStep(s: Stream, t: Tab, appends: seq<Entry>, updates: seq<Update>, x: nat)
    requires x < |appends| && !InTab(s, t, appends[x].key)
    requires Converted(s, t, appends[..x], updates)
    ensures Converted(s, t, appends[..x + 1], updates)
  {
    hide Effective, PasteAll, PastedUpdates;
    var g := PasteAll(t, PastedUpdates(updates));
    forall p: nat | p < |t| ensures RowAt(g, p) == Effective(s, t, appends[..x + 1], p) {
      assert RowAt(g, p) == Effective(s, t, appends[..x], p);
      assert !HasAt(s, t, appends[x].key, p);
      EffectiveElsewhere(s, t, appends, x, p);
    }
  }

  lemma NewsStep(s: Stream, t: Tab, appends: seq<Entry>, x: nat)
    requires x < |appends|
    ensures News(s, t, appends[..x + 1], {}) ==
            if InTab(s, t, appends[x].key) then News(s, t, appends[..x], {})
            else News(s, t, appends[..x], {}) + [appends[x]]
  {
    assert appends[..x + 1][..x] == appends[..x];
  }

  lemma MappedIff(s: Stream, t: Tab, m: map<Key, RowNumber>, k: Key)
    requires IsRowMap(s, t, m)
    ensures k in m <==> InTab(s, t, k)
    ensures k in m ==> HasAt(s, t, k, Index(m[k]))
  {
    assert k in m ==> HasAt(s, t, k, Index(m[k]));
    if InTab(s, t, k) {
      var i: nat :| HasAt(s, t, k, i);
    }
  }

  lemma HasAtInside(s: Stream, t: Tab, m: map<Key, RowNumber>, k: Key)
    requires k in m ==> HasAt(s, t, k, Index(m[k]))
    ensures k in m ==> 2 <= m[k] <= |t| && Index(m[k]) == m[k] - 1
  {
  }

  lemma BeatsAsRead(s: Stream, t: Tab, allRows: Tab, isNarrow: bool, row: Row, rowNumber: RowNumber)
    requires ReadAgrees(s, t, allRows, isNarrow) && 2 <= rowNumber <= |t|
    ensures Beats(s, row, ReadRow(allRows, isNarrow, rowNumber)) == Beats(s, row, t[rowNumber - 1])
  {
    if s.newer.Some? {
      var i: nat := rowNumber - 1;
      assert Cell(ReadRow(allRows, isNarrow, i + 1), s.newer.value) == Cell(t[i], s.newer.value);
    }
  }

  method ConvertAppends(s: Stream, ghost t: Tab, appends: seq<Entry>, allRows: Tab, isNarrow: bool,
                        freshMap: map<Key, RowNumber>)
    returns (updates: seq<Update>, remaining: seq<Entry>)
    requires Ready(s, t, appends) && IsRowMap(s, t, freshMap) && ReadAgrees(s, t, allRows, isNarrow)
    ensures Converted(s, t, appends, updates)
    ensures remaining == News(s, t, appends, {})
  {
    hide Converted, News, IsRowMap, ReadAgrees, ReadRow, Beats, Effective, Ready, HasAt, InTab;
    updates, remaining := [], [];
    assert appends[..0] == [];
    NothingConverted(s, t, appends);
    NoNews(s, t, {});
    for x := 0 to |appends|
      invariant Converted(s, t, appends[..x], updates)
      invariant remaining == News(s, t, appends[..x], {})
    {
      var entry := appends[x];
      MappedIff(s, t, freshMap, entry.key);
      NewsStep(s, t, appends, x);
      assert entry.key in freshMap ==> 1 <= Index(freshMap[entry.key]) < |t| by {
        HasAtInside(s, t, freshMap, entry.key);
      }
      if entry.key in freshMap {
        var existing := freshMap[entry.key];
        BeatsAsRead(s, t, allRows, isNarrow, entry.row, existing);
        if Beats(s, entry.row, ReadRow(allRows, isNarrow, existing)) {
          ConvertNewer(s, t, appends, updates, x, Index(existing));
          updates := updates + [Update(existing, entry.row)];
        } else {
          ConvertStale(s, t, appends, updates, x, Index(existing));
        }
      } else {
        SkipStep(s, t, appends, updates, x);
        remaining := remaining + [entry];
      }
    }
    assert appends[..|appends|] == appends;
  }

  lemma NoNews(s: Stream, t: Tab, deletes: set<Key>)
    ensures News(s, t, [], deletes) == []
  {
  }

  // ---- A delete and a pending append of the same key cancel out ----

  function KeySet(keys: seq<Key>): set<Key> {
    set k | k in keys
  }

  function FirstIndex(entries: seq<Entry>, k: Key): (r: Option<nat>)
    ensures r.Some? ==> r.value < |entries| && entries[r.value].key == k
    ensures r.None? ==> forall j :: 0 <= j < |entries| ==> entries[j].key != k
  {
    if entries == [] then None
    else if entries[0].key == k then Some(0)
    else
      match FirstIndex(entries[1..], k)
      case None => None
      case Some(i) => Some(i + 1)
  }

  function WithoutIndex<T>(xs: seq<T>, i: nat): seq<T>
    requires i < |xs|
  {
    xs[..i] + xs[i + 1..]
  }

  function DropKey(entries: seq<Entry>, k: Key): seq<Entry> {
    if entries == [] then []
    else
      var rest, e := DropKey(entries[..|entries| - 1], k), entries[|entries| - 1];
      if e.key == k then rest else rest + [e]
  }

  lemma {:induction false} DropAbsent(entries: seq<Entry>, k: Key)
    requires forall j :: 0 <= j < |entries| ==> entries[j].key != k
    ensures DropKey(entries, k) == entries
  {
    if entries != [] {
      DropAbsent(entries[..|entries| - 1], k);
    }
  }

  lemma {:induction false} DropAt(entries: seq<Entry>, i: nat)
    requires DistinctKeys(entries) && i < |entries|
    ensures DropKey(entries, entries[i].key) == WithoutIndex(entries, i)
  {
    var front := entries[..|entries| - 1];
    if i == |entries| - 1 {
      DropAbsent(front, entries[i].key);
      assert WithoutIndex(entries, i) == front;
    } else {
      DropAt(front, i);
      assert WithoutIndex(entries, i) == WithoutIndex(front, i) + [entries[|entries| - 1]];
    }
  }

  lemma {:induction false} NewsDropKey(s: Stream, t: Tab, appends: seq<Entry>, deletes: set<Key>, k: Key)
    ensures News(s, t, appends, deletes + {k}) == DropKey(News(s, t, appends, deletes), k)
  {
    if appends != [] {
      var front, e := appends[..|appends| - 1], appends[|appends| - 1];
      NewsDropKey(s, t, front, deletes, k);
      var rest := News(s, t, front, deletes);
      assert (rest + [e])[..|rest|] == rest;
    }
  }

  /** Reconciling one delete. */
  lemma CancelStep(s: Stream, t: Tab, appends: seq<Entry>, deletes: set<Key>, k: Key)
    requires DistinctKeys(appends)
    ensures var news := News(s, t, appends, deletes);
            News(s, t, appends, deletes + {k}) ==
            match FirstIndex(news, k)
            case None => news
            case Some(i) => WithoutIndex(news, i)
  {
    var news := News(s, t, appends, deletes);
    NewsDropKey(s, t, appends, deletes, k);
    NewsDistinct(s, t, appends, deletes);
    match FirstIndex(news, k) {
      case None => DropAbsent(news, k);
      case Some(i) => DropAt(news, i);
    }
  }

  /** The deletes left over still name every deleted key of the tab. */
  ghost predicate LeftOver(s: Stream, t: Tab, deletes: seq<Key>, left: seq<Key>) {
    && (forall k :: k in left ==> k in deletes)
    && (forall k :: k in deletes && InTab(s, t, k) ==> k in left)
  }

  lemma LeftOverWithout(s: Stream, t: Tab, deletes: seq<Key>, left: seq<Key>, i: nat)
    requires LeftOver(s, t, deletes, left) && i < |left| && !InTab(s, t, left[i])
    ensures LeftOver(s, t, deletes, WithoutIndex(left, i))
  {
    var rest := WithoutIndex(left, i);
    forall k | k in deletes && InTab(s, t, k) ensures k in rest {
      var j :| 0 <= j < |left| && left[j] == k;
      assert rest[if j < i then j else j - 1] == k;
    }
    forall k | k in rest ensures k in deletes {
      var j :| 0 <= j < |rest| && rest[j] == k;
      assert left[if j < i then j else j + 1] == k;
    }
  }

  lemma KeySetFrom(deletes: seq<Key>, i: nat)
    requires i < |deletes|
    ensures KeySet(deletes[i..]) == KeySet(deletes[i + 1..]) + {deletes[i]}
  {
    assert deletes[i..] == [deletes[i]] + deletes[i + 1..];
  }

  lemma SamePrefix(left: seq<Key>, deletes: seq<Key>, i: nat)
    requires i < |left| && i < |deletes| && left[..i + 1] == deletes[..i + 1]
    ensures left[i] == deletes[i] && left[..i] == deletes[..i]
    ensures i <= |WithoutIndex(left, i)| && WithoutIndex(left, i)[..i] == deletes[..i]
  {
    assert left[..i + 1][i] == left[i] && deletes[..i + 1][i] == deletes[i];
    assert left[..i + 1][..i] == left[..i] && deletes[..i + 1][..i] == deletes[..i];
  }

  method CancelPending(s: Stream, ghost t: Tab, ghost all: seq<Entry>, remaining: seq<Entry>, deletes: seq<Key>)
    returns (appends: seq<Entry>, left: seq<Key>)
    requires DistinctKeys(all) && remaining == News(s, t, all, {})
    ensures appends == News(s, t, all, KeySet(deletes))
    ensures LeftOver(s, t, deletes, left)
  {
    hide News, LeftOver, KeySet, FirstIndex, WithoutIndex, DistinctKeys;
    appends, left := remaining, deletes;
    var i := |deletes|;
    NothingCancelled(s, t, deletes);
    while i > 0
      invariant 0 <= i <= |deletes| && i <= |left| && left[..i] == deletes[..i]
      invariant appends == News(s, t, all, KeySet(deletes[i..]))
      invariant LeftOver(s, t, deletes, left)
    {
      i := i - 1;
      var key := left[i];
      SamePrefix(left, deletes, i);
      KeySetFrom(deletes, i);
      CancelStep(s, t, all, KeySet(deletes[i + 1..]), key);
      var appendIdx := FirstIndex(appends, key);
      if appendIdx.Some? {
        LeftOverWithout(s, t, deletes, left, i);
        appends := WithoutIndex(appends, appendIdx.value);
        left := WithoutIndex(left, i);
      }
    }
    assert deletes[0..] == deletes;
  }

  lemma NothingCancelled(s: Stream, t: Tab, deletes: seq<Key>)
    ensures KeySet(deletes[|deletes|..]) == {}
    ensures LeftOver(s, t, deletes, deletes)
  {
  }

  // ---- The rows to delete, in ascending order ----

  function Numbers(positions: seq<nat>): (r: seq<RowNumber>)
    ensures |r| == |positions|
    ensures forall i :: 0 <= i < |r| ==> r[i] == positions[i] + 1
  {
    seq(|positions|, i requires 0 <= i < |positions| => positions[i] + 1)
  }

  /** The members of a set of row numbers, sorted; none exceeds `upTo`. */
  function Ascending(numbers: set<RowNumber>, upTo: nat): seq<RowNumber> {
    if upTo == 0 then []
    else Ascending(numbers, upTo - 1) + (if upTo in numbers then [upTo] else [])
  }

  lemma {:induction false} AscendingIsPick(numbers: set<RowNumber>, del: seq<bool>, n: nat)
    requires n <= |del| && forall r: RowNumber :: r <= n ==> (r in numbers <==> del[r - 1])
    ensures Ascending(numbers, n) == Numbers(Pick(del, 0, n, true))
  {
    if n > 0 {
      AscendingIsPick(numbers, del, n - 1);
      assert n in numbers <==> del[n - 1];
    }
  }

  ghost predicate MarksRows(s: Stream, t: Tab, deletes: seq<Key>, numbers: set<RowNumber>) {
    forall r: RowNumber :: r in numbers <==> 2 <= r <= |t| && KeyOf(s, t[r - 1]) in deletes
  }

  ghost predicate KeyedBy(s: Stream, t: Tab, keys: seq<Key>, r: RowNumber) {
    2 <= r <= |t| && KeyOf(s, t[r - 1]) in keys
  }

  lemma MappedRow(s: Stream, t: Tab, m: map<Key, RowNumber>, keys: seq<Key>, k: Key, r: RowNumber)
    requires ValidStream(s) && Keyed(s, t) && IsRowMap(s, t, m)
    ensures KeyedBy(s, t, keys + [k], r) <==> KeyedBy(s, t, keys, r) || (k in m && r == m[k])
    ensures k in m ==> 2 <= m[k] <= |t|
  {
    hide Keyed, IsRowMap, KeyOf, InTab;
    MappedIff(s, t, m, k);
    if 2 <= r <= |t| && KeyOf(s, t[r - 1]) == k {
      HasMeansIn(s, t, k, r - 1);
      SameRowForKey(s, t, k, Index(m[k]), r - 1);
    }
  }

  lemma HasMeansIn(s: Stream, t: Tab, k: Key, i: nat)
    requires HasAt(s, t, k, i)
    ensures InTab(s, t, k)
  {
  }

  method DeleteRowNumbers(s: Stream, ghost t: Tab, existingRowCount: nat, freshMap: map<Key, RowNumber>,
                          ghost deletes: seq<Key>, left: seq<Key>)
    returns (numbers: set<RowNumber>)
    requires ValidStream(s) && Keyed(s, t) && existingRowCount == |t| && IsRowMap(s, t, freshMap)
    requires LeftOver(s, t, deletes, left)
    ensures MarksRows(s, t, deletes, numbers)
  {
    hide Keyed, KeyedBy, LeftOver, IsRowMap;
    numbers := {};
    NoneKeyed(s, t, left);
    for x := 0 to |left|
      invariant forall r: RowNumber :: r in numbers <==> KeyedBy(s, t, left[..x], r)
    {
      assert left[..x + 1] == left[..x] + [left[x]];
      forall r: RowNumber
        ensures KeyedBy(s, t, left[..x + 1], r) <==>
          KeyedBy(s, t, left[..x], r) || (left[x] in freshMap && r == freshMap[left[x]])
        ensures left[x] in freshMap ==> 2 <= freshMap[left[x]] <= |t|
      {
        MappedRow(s, t, freshMap, left[..x], left[x], r);
      }
      if left[x] in freshMap {
        var rowNumber := freshMap[left[x]];
        if rowNumber >= 2 && rowNumber <= existingRowCount {
          numbers := numbers + {rowNumber};
        }
      }
    }
    assert left[..|left|] == left;
    MarksByLeft(s, t, deletes, left, numbers);
  }

  lemma NoneKeyed(s: Stream, t: Tab, left: seq<Key>)
    ensures forall r: RowNumber :: !KeyedBy(s, t, left[..0], r)
  {
  }

  lemma MarksByLeft(s: Stream, t: Tab, deletes: seq<Key>, left: seq<Key>, numbers: set<RowNumber>)
    requires LeftOver(s, t, deletes, left)
    requires forall r: RowNumber :: r in numbers <==> KeyedBy(s, t, left, r)
    ensures MarksRows(s, t, deletes, numbers)
  {
    forall r: RowNumber ensures r in numbers <==> 2 <= r <= |t| && KeyOf(s, t[r - 1]) in deletes {
      if 2 <= r <= |t| {
        assert HasAt(s, t, KeyOf(s, t[r - 1]), r - 1);
      }
    }
  }

  lemma DeleteListIsPick(s: Stream, t: Tab, deletes: seq<Key>, numbers: set<RowNumber>)
    requires MarksRows(s, t, deletes, numbers)
    ensures Ascending(numbers, |t|) == Numbers(Pick(Marks(s, t, KeySet(deletes)), 0, |t|, true))
  {
    AscendingIsPick(numbers, Marks(s, t, KeySet(deletes)), |t|);
  }

  // ---- Filling the deleted rows ----

  lemma PushEffect(t: Tab, updates: seq<Update>, u: Update)
    ensures PasteAll(t, PastedUpdates(updates + [u])) ==
            PasteAt(PasteAll(t, PastedUpdates(updates)), u.rowNumber, Pasted(u.values))
  {
    PastedUpdatesSnoc(updates, u);
    PasteAllSnoc(t, PastedUpdates(updates), Update(u.rowNumber, Pasted(u.values)));
  }

  /** The buffered updates have reached stage (`a`, `b`, `c`). */
  ghost predicate Reached(s: Stream, t: Tab, appends: seq<Entry>, deletes: set<Key>, a: nat, b: nat, c: nat,
                          updates: seq<Update>)
    requires t != []
  {
    var l := LayoutOf(s, t, appends, deletes);
    && a <= Donated(l) && b <= |Donors(l)|
    && Staged(s, t, appends, deletes, a, b, c, PasteAll(t, PastedUpdates(updates)))
  }

  lemma FirstRow(s: Stream, t: Tab, appends: seq<Entry>, deletes: set<Key>, p: nat)
    requires t != [] && p < |t|
    ensures StageRow(s, t, appends, deletes, 0, 0, 0, p) == Effective(s, t, appends, p)
  {
  }

  lemma FirstStage(s: Stream, t: Tab, appends: seq<Entry>, deletes: set<Key>, updates: seq<Update>)
    requires t != [] && Converted(s, t, appends, updates)
    ensures Reached(s, t, appends, deletes, 0, 0, 0, updates)
  {
    hide StageRow, Effective, LayoutOf, PasteAll, PastedUpdates, Donors, Donated;
    LayoutIsProper(s, t, appends, deletes);
    var g := PasteAll(t, PastedUpdates(updates));
    forall p: nat | p < |t| ensures RowAt(g, p) == StageRow(s, t, appends, deletes, 0, 0, 0, p) {
      FirstRow(s, t, appends, deletes, p);
      assert RowAt(g, p) == Effective(s, t, appends, p);
    }
  }

  /** The first `count` appends are reported at the rows where they end up. */
  ghost predicate Assigned(s: Stream, t: Tab, appends: seq<Entry>, deletes: set<Key>, count: nat,
                           assignments: map<Key, RowNumber>)
    requires t != [] && count <= |News(s, t, appends, deletes)|
  {
    var l, news := LayoutOf(s, t, appends, deletes), News(s, t, appends, deletes);
    && (forall j: nat :: j < count ==> news[j].key in assignments && Index(assignments[news[j].key]) == FreshHome(l, j))
    && (forall k :: k in assignments ==> exists j: nat :: j < count && news[j].key == k)
  }

  lemma AssignStep(s: Stream, t: Tab, appends: seq<Entry>, deletes: set<Key>, count: nat,
                   assignments: map<Key, RowNumber>, key: Key, row: RowNumber)
    requires t != [] && count < |News(s, t, appends, deletes)| && DistinctKeys(appends)
    requires Assigned(s, t, appends, deletes, count, assignments)
    requires key == News(s, t, appends, deletes)[count].key
    requires Index(row) == FreshHome(LayoutOf(s, t, appends, deletes), count)
    ensures Assigned(s, t, appends, deletes, count + 1, assignments[key := row])
  {
    hide News, LayoutOf, FreshHome;
    NewsDistinct(s, t, appends, deletes);
    LayoutIsProper(s, t, appends, deletes);
    var news, next := News(s, t, appends, deletes), assignments[key := row];
    forall k | k in next ensures exists j: nat :: j < count + 1 && news[j].key == k {
      if k == key {
        assert news[count].key == k;
      }
    }
  }

  /** The list of rows to delete splits into the slots above the tail and the deleted rows in it. */
  lemma DeleteListSplits(l: Layout)
    requires Proper(l)
    ensures Pick(l.del, 0, |l.del|, true) == Slots(l) + Pick(l.del, BodyEnd(l), |l.del|, true)
    ensures Donated(l) <= |Slots(l)| && |Slots(l)| - Donated(l) == |Donors(l)|
    ensures |Pick(l.del, 0, |l.del|, true)| == Deleted(l)
  {
    PickSplit(l.del, 0, BodyEnd(l), |l.del|, true);
    SlotsMatchDonors(l);
  }

  /** Phase 1: pending appends overwrite deleted rows instead of being added at the bottom. */
  method DonateAppends(s: Stream, ghost t: Tab, ghost all: seq<Entry>, ghost deletes: set<Key>,
                       updates: seq<Update>, pending: seq<Entry>, deleteList: seq<RowNumber>)
    returns (next: seq<Update>, appends: seq<Entry>, donated: nat, assignments: map<Key, RowNumber>)
    requires Ready(s, t, all) && t != [] && pending == News(s, t, all, deletes)
    requires deleteList == Numbers(Pick(Marks(s, t, deletes), 0, |t|, true))
    requires Reached(s, t, all, deletes, 0, 0, 0, updates)
    ensures donated == Donated(LayoutOf(s, t, all, deletes))
    ensures appends == Rest(s, t, all, deletes)
    ensures Reached(s, t, all, deletes, donated, 0, 0, next)
    ensures Assigned(s, t, all, deletes, donated, assignments)
  {
    hide Staged, StageRow, News, Ready, Pick, PasteAll, PastedUpdates, PasteAt, Pasted, Assigned, FreshHome;
    ghost var l := LayoutOf(s, t, all, deletes);
    LayoutIsProper(s, t, all, deletes);
    DeleteListSplits(l);
    ReadyIsKeyed(s, t, all);
    next, appends, donated, assignments := updates, pending, 0, map[];
    NothingAssigned(s, t, all, deletes);
    while donated < |deleteList| && |appends| > 0
      invariant donated <= Donated(l)
      invariant appends == pending[donated..]
      invariant Reached(s, t, all, deletes, donated, 0, 0, next)
      invariant Assigned(s, t, all, deletes, donated, assignments)
    {
      var targetRow := deleteList[donated];
      var donor := appends[0];
      DonationTarget(l, donated);
      DonateStep(s, t, all, deletes, donated, PasteAll(t, PastedUpdates(next)), Index(targetRow));
      PushEffect(t, next, Update(targetRow, donor.row));
      AssignStep(s, t, all, deletes, donated, assignments, donor.key, targetRow);
      next := next + [Update(targetRow, donor.row)];
      assignments := assignments[donor.key := targetRow];
      appends := appends[1..];
      donated := donated + 1;
    }
  }

  lemma NothingAssigned(s: Stream, t: Tab, appends: seq<Entry>, deletes: set<Key>)
    requires t != []
    ensures Assigned(s, t, appends, deletes, 0, map[])
  {
  }

  function Below(rows: seq<RowNumber>, limit: int): seq<RowNumber> {
    if rows == [] then []
    else
      var rest, r := Below(rows[..|rows| - 1], limit), rows[|rows| - 1];
      if r < limit then rest + [r] else rest
  }

  function AtOrAbove(rows: seq<RowNumber>, limit: int): seq<RowNumber> {
    if rows == [] then []
    else
      var rest, r := AtOrAbove(rows[..|rows| - 1], limit), rows[|rows| - 1];
      if r >= limit then rest + [r] else rest
  }

  lemma {:induction false} AllBelow(rows: seq<RowNumber>, limit: int)
    requires forall i :: 0 <= i < |rows| ==> rows[i] < limit
    ensures Below(rows, limit) == rows && AtOrAbove(rows, limit) == []
  {
    if rows != [] {
      AllBelow(rows[..|rows| - 1], limit);
    }
  }

  lemma {:induction false} SplitByLimit(a: seq<RowNumber>, b: seq<RowNumber>, limit: int)
    requires forall i :: 0 <= i < |a| ==> a[i] < limit
    requires forall i :: 0 <= i < |b| ==> b[i] >= limit
    ensures Below(a + b, limit) == a && AtOrAbove(a + b, limit) == b
    decreases |b|
  {
    if b == [] {
      assert a + b == a;
      AllBelow(a, limit);
    } else {
      var front := b[..|b| - 1];
      SplitByLimit(a, front, limit);
      assert (a + b)[..|a + b| - 1] == a + front;
      assert (a + b)[|a + b| - 1] == b[|b| - 1];
    }
  }

  /** The deletes that no append took: slots above the tail, then deleted rows of the tail. */
  ghost predicate IsSurplus(l: Layout, surplus: seq<RowNumber>)
    requires Proper(l)
  {
    && |Slots(l)| == Donated(l) + |Donors(l)|
    && |surplus| == Blanked(l)
    && Below(surplus, BodyEnd(l) + 1) == Numbers(Slots(l)[Donated(l)..])
    && AtOrAbove(surplus, BodyEnd(l) + 1) == Numbers(Pick(l.del, BodyEnd(l), |l.del|, true))
  }

  lemma PickedBetween(del: seq<bool>, lo: nat, hi: nat, want: bool, i: nat)
    requires hi <= |del| && i < |Pick(del, lo, hi, want)|
    ensures lo <= Pick(del, lo, hi, want)[i] < hi
  {
    RankOfPicked(del, lo, hi, want, i);
  }

  /** The surplus deletes, split at the start of the tail. */
  lemma SurplusSplits(l: Layout, deleteList: seq<RowNumber>)
    requires Proper(l) && deleteList == Numbers(Pick(l.del, 0, |l.del|, true))
    ensures Donated(l) <= |deleteList| && IsSurplus(l, deleteList[Donated(l)..])
  {
    hide Pick, Below, AtOrAbove;
    DeleteListSplits(l);
    var tail, slots := Pick(l.del, BodyEnd(l), |l.del|, true), Slots(l)[Donated(l)..];
    assert deleteList[Donated(l)..] == Numbers(slots) + Numbers(tail);
    forall i | 0 <= i < |slots| ensures slots[i] < BodyEnd(l) {
      PickedBetween(l.del, 0, BodyEnd(l), true, Donated(l) + i);
    }
    forall i | 0 <= i < |tail| ensures tail[i] >= BodyEnd(l) {
      PickedBetween(l.del, BodyEnd(l), |l.del|, true, i);
    }
    SplitByLimit(Numbers(slots), Numbers(tail), BodyEnd(l) + 1);
  }

  lemma NumbersSnoc(positions: seq<nat>, p: nat)
    ensures Numbers(positions + [p]) == Numbers(positions) + [p + 1]
  {
  }

  /** The tail rows that are not deleted, from the top. */
  method SurvivorDonors(ghost del: seq<bool>, numbers: set<RowNumber>, tailStart: RowNumber, existingRowCount: nat)
    returns (donors: seq<RowNumber>)
    requires existingRowCount == |del| && tailStart <= existingRowCount + 1
    requires forall r: RowNumber :: r <= |del| ==> (r in numbers <==> del[r - 1])
    ensures donors == Numbers(Pick(del, tailStart - 1, |del|, false))
  {
    donors := [];
    var r: RowNumber := tailStart;
    while r <= existingRowCount
      invariant tailStart <= r <= existingRowCount + 1
      invariant donors == Numbers(Pick(del, tailStart - 1, r - 1, false))
    {
      if r !in numbers {
        NumbersSnoc(Pick(del, tailStart - 1, r - 1, false), r - 1);
        donors := donors + [r];
      }
      r := r + 1;
    }
  }

  lemma NoSurplus(s: Stream, t: Tab, appends: seq<Entry>, deletes: set<Key>)
    requires t != [] && Blanked(LayoutOf(s, t, appends, deletes)) == 0
    ensures Donors(LayoutOf(s, t, appends, deletes)) == [] && TailDeletes(s, t, appends, deletes) == []
  {
  }

  /**
   Phase 2: the bottom-most surviving rows, with their values from before the flush, go into the
   remaining deleted rows, and the tail is blanked.
   */
  method SwapTail(s: Stream, ghost t: Tab, ghost all: seq<Entry>, ghost deletes: set<Key>, updates: seq<Update>,
                  allRows: Tab, existingRowCount: nat, numbers: set<RowNumber>, surplus: seq<RowNumber>)
    returns (next: seq<Update>)
    requires Ready(s, t, all) && t != [] && allRows == t && existingRowCount == |t|
    requires forall r: RowNumber :: r <= |t| ==> (r in numbers <==> Marks(s, t, deletes)[r - 1])
    requires surplus != [] && IsSurplus(LayoutOf(s, t, all, deletes), surplus)
    requires Reached(s, t, all, deletes, Donated(LayoutOf(s, t, all, deletes)), 0, 0, updates)
    ensures var l := LayoutOf(s, t, all, deletes);
            Reached(s, t, all, deletes, Donated(l), |Donors(l)|, |TailDeletes(s, t, all, deletes)|, next)
  {
    hide Staged, StageRow, HalfSwapped, News, Ready, Pick, PasteAll, PastedUpdates, PasteAt, Pasted, Keyed, Marks;
    ghost var l := LayoutOf(s, t, all, deletes);
    LayoutIsProper(s, t, all, deletes);
    var blankRow := BlankRow(s);
    next := updates;
    var tailStart := existingRowCount - |surplus| + 1;
    assert tailStart == BodyEnd(l) + 1;
    var survivorDonors := SurvivorDonors(Marks(s, t, deletes), numbers, tailStart, existingRowCount);
    var bodyDeletes := Below(surplus, tailStart);
    var tailDeletes := AtOrAbove(surplus, tailStart);
    for i := 0 to |bodyDeletes|
      invariant Reached(s, t, all, deletes, Donated(l), i, 0, next)
    {
      var deletedRow := bodyDeletes[i];
      var donorRow := survivorDonors[i];
      SwapTarget(l, i);
      var donorValues := allRows[donorRow - 1];
      FillSlot(s, t, all, deletes, i, PasteAll(t, PastedUpdates(next)), Index(deletedRow), Index(donorRow));
      PushEffect(t, next, Update(deletedRow, donorValues));
      next := next + [Update(deletedRow, donorValues)];
      ClearDonor(s, t, all, deletes, i, PasteAll(t, PastedUpdates(next)), Index(donorRow));
      PushEffect(t, next, Update(donorRow, blankRow));
      next := next + [Update(donorRow, blankRow)];
    }
    for i := 0 to |tailDeletes|
      invariant Reached(s, t, all, deletes, Donated(l), |Donors(l)|, i, next)
    {
      ClearTailStep(s, t, all, deletes, i, PasteAll(t, PastedUpdates(next)), Index(tailDeletes[i]));
      PushEffect(t, next, Update(tailDeletes[i], blankRow));
      next := next + [Update(tailDeletes[i], blankRow)];
    }
  }

  // ---- The whole preparation ----

  lemma {:induction false} PickOfNone(del: seq<bool>, hi: nat)
    requires hi <= |del| && forall i :: 0 <= i < |del| ==> !del[i]
    ensures Pick(del, 0, hi, true) == []
    decreases hi
  {
    if hi > 0 {
      PickOfNone(del, hi - 1);
    }
  }

  lemma NoDeletes(s: Stream, t: Tab, appends: seq<Entry>)
    requires t != []
    ensures var l := LayoutOf(s, t, appends, {}); Deleted(l) == 0 && Donated(l) == 0 && Blanked(l) == 0
  {
    var del := Marks(s, t, {});
    PickOfNone(del, |t|);
  }

  /** Deletes: reconcile with pending appends, then fill the deleted rows. */
  method HandleDeletes(s: Stream, ghost t: Tab, ghost all: seq<Entry>, deletes: seq<Key>, updates: seq<Update>,
                       remaining: seq<Entry>, allRows: Tab, existingRowCount: nat, freshMap: map<Key, RowNumber>)
    returns (next: seq<Update>, appends: seq<Entry>, assignments: map<Key, RowNumber>)
    requires Ready(s, t, all) && t != [] && allRows == t && existingRowCount == |t| && IsRowMap(s, t, freshMap)
    requires Converted(s, t, all, updates) && remaining == News(s, t, all, {})
    ensures Compacted(s, t, all, KeySet(deletes), PasteAll(t, PastedUpdates(next)))
    ensures appends == Rest(s, t, all, KeySet(deletes))
    ensures Donated(LayoutOf(s, t, all, KeySet(deletes))) <= |News(s, t, all, KeySet(deletes))|
    ensures Assigned(s, t, all, KeySet(deletes), Donated(LayoutOf(s, t, all, KeySet(deletes))), assignments)
  {
    hide *;
    ReadyIsKeyed(s, t, all);
    GoodIsDistinct(s, all);
    ghost var dels := KeySet(deletes);
    ghost var l := LayoutOf(s, t, all, dels);
    LayoutIsProper(s, t, all, dels);
    SizeWithRest(l);
    var pending, left := CancelPending(s, t, all, remaining, deletes);
    var numbers := DeleteRowNumbers(s, t, existingRowCount, freshMap, deletes, left);
    DeleteListIsPick(s, t, deletes, numbers);
    var deleteList := Ascending(numbers, existingRowCount);
    FirstStage(s, t, all, dels, updates);
    var donated: nat;
    next, appends, donated, assignments := DonateAppends(s, t, all, dels, updates, pending, deleteList);
    LayoutMarks(s, t, all, dels);
    SurplusSplits(l, deleteList);
    var surplus := deleteList[donated..];
    SurplusCount(l, surplus);
    if surplus != [] {
      MarkedNumbers(s, t, deletes, numbers);
      next := SwapTail(s, t, all, dels, next, allRows, existingRowCount, numbers, surplus);
    } else {
      NoSurplus(s, t, all, dels);
    }
    ReachedLast(s, t, all, dels, next);
  }

  lemma GoodIsDistinct(s: Stream, appends: seq<Entry>)
    requires GoodAppends(s, appends)
    ensures DistinctKeys(appends)
  {
  }

  lemma LayoutMarks(s: Stream, t: Tab, appends: seq<Entry>, deletes: set<Key>)
    ensures LayoutOf(s, t, appends, deletes).del == Marks(s, t, deletes)
  {
  }

  lemma SurplusCount(l: Layout, surplus: seq<RowNumber>)
    requires Proper(l) && IsSurplus(l, surplus)
    ensures |surplus| == Blanked(l)
  {
  }

  lemma MarkedNumbers(s: Stream, t: Tab, deletes: seq<Key>, numbers: set<RowNumber>)
    requires MarksRows(s, t, deletes, numbers)
    ensures forall r: RowNumber :: r <= |t| ==> (r in numbers <==> Marks(s, t, KeySet(deletes))[r - 1])
  {
  }

  lemma ReachedLast(s: Stream, t: Tab, appends: seq<Entry>, deletes: set<Key>, updates: seq<Update>)
    requires t != [] && Proper(LayoutOf(s, t, appends, deletes))
    requires var l := LayoutOf(s, t, appends, deletes);
             Reached(s, t, appends, deletes, Donated(l), |Donors(l)|, |TailDeletes(s, t, appends, deletes)|, updates)
    ensures Compacted(s, t, appends, deletes, PasteAll(t, PastedUpdates(updates)))
  {
    hide Staged, StageRow, PasteAll, PastedUpdates, Compacted;
    LastStageIsCompacted(s, t, appends, deletes, PasteAll(t, PastedUpdates(updates)));
  }

  /** Without deletes only the conversions remain. */
  lemma NothingDeleted(s: Stream, t: Tab, appends: seq<Entry>, updates: seq<Update>)
    requires t != [] && Converted(s, t, appends, updates)
    ensures Compacted(s, t, appends, {}, PasteAll(t, PastedUpdates(updates)))
    ensures Rest(s, t, appends, {}) == News(s, t, appends, {})
    ensures Donated(LayoutOf(s, t, appends, {})) == 0
    ensures Assigned(s, t, appends, {}, 0, map[])
  {
    hide StageRow, Staged, PasteAll, PastedUpdates, Compacted, News, Converted;
    FirstStage(s, t, appends, {}, updates);
    NoDeletes(s, t, appends);
    NoSurplus(s, t, appends, {});
    LayoutIsProper(s, t, appends, {});
    ReachedLast(s, t, appends, {}, updates);
  }

  /** From the buffers to the operations handed to the batch update. */
  method PrepareFlush(s: Stream, t: Tab, buffered: seq<Entry>, deletes: seq<Key>)
    returns (updates: seq<Update>, appends: seq<Entry>, existingRowCount: nat, assignments: map<Key, RowNumber>)
    requires Ready(s, t, buffered) && t != []
    ensures existingRowCount == |t|
    ensures Compacted(s, t, buffered, KeySet(deletes), PasteAll(t, PastedUpdates(updates)))
    ensures appends == Rest(s, t, buffered, KeySet(deletes))
    ensures Donated(LayoutOf(s, t, buffered, KeySet(deletes))) <= |News(s, t, buffered, KeySet(deletes))|
    ensures Assigned(s, t, buffered, KeySet(deletes), Donated(LayoutOf(s, t, buffered, KeySet(deletes))), assignments)
  {
    hide Converted, Compacted, News, Rest, Assigned, LayoutOf, Donated, PasteAll, PastedUpdates, IsRowMap, ReadAgrees;
    hide Ready, KeyComesFirst;
    ReadyIsKeyed(s, t, buffered);
    var allRows, isNarrow, freshMap;
    allRows, isNarrow, existingRowCount, freshMap := ReadForFlush(s, t, deletes != []);
    updates, appends := ConvertAppends(s, t, buffered, allRows, isNarrow, freshMap);
    if deletes != [] {
      updates, appends, assignments :=
        HandleDeletes(s, t, buffered, deletes, updates, appends, allRows, existingRowCount, freshMap);
    } else {
      assignments := map[];
      assert KeySet(deletes) == {};
      NothingDeleted(s, t, buffered, updates);
    }
  }

  /** The whole effect of the batch update: updates first, appends at the bottom. */
  lemma BatchUpdateFlushes(s: Stream, t: Tab, buffered: seq<Entry>, deletes: set<Key>, updates: seq<Update>)
    requires Ready(s, t, buffered) && t != []
    requires Compacted(s, t, buffered, deletes, PasteAll(t, PastedUpdates(updates)))
    ensures PasteAll(t, PastedUpdates(updates) + PastedUpdates(Block(|t| + 1, RowsOf(Rest(s, t, buffered,
        deletes))))) ==
            FlushTab(s, t, buffered, deletes)
  {
    hide *;
    var appended := PastedUpdates(Block(|t| + 1, RowsOf(Rest(s, t, buffered, deletes))));
    LayoutIsProper(s, t, buffered, deletes);
    PasteAllAppend(t, PastedUpdates(updates), appended);
    AppendCompletes(s, t, buffered, deletes, PasteAll(t, PastedUpdates(updates)));
  }
}
