/** The tab between the steps of a flush: slots filled by appends, then by tail rows, then the tail blanked. */
module SheetStages {
  import opened Sequences
  import opened SheetGrid
  import opened SheetPaste
  import opened SheetLayout
  import opened SheetRows
  import opened SheetTable

  /** One cell wider than the header, so that the pasted text never ends in nothing. */
  function BlankRow(s: Stream): (r: Row)
    ensures |r| == s.width + 1 && forall i :: 0 <= i < |r| ==> r[i] == ""
  {
    seq(s.width + 1, i requires 0 <= i => "")
  }

  lemma BlankRowClears(s: Stream, prior: Row)
    requires |prior| <= s.width
    ensures Overlay(prior, Pasted(BlankRow(s))) == []
  {
    var r := Overlay(prior, Pasted(BlankRow(s)));
    OverlayCovers(prior, Pasted(BlankRow(s)));
    if r != [] {
      OverlayCell(prior, Pasted(BlankRow(s)), |r| - 1);
    }
  }

  /** What a flush knows when it starts. */
  ghost predicate Ready(s: Stream, t: Tab, appends: seq<Entry>) {
    ValidStream(s) && Keyed(s, t) && t != [] && GoodAppends(s, appends)
  }

  /** Deleted rows inside the tail. */
  ghost function TailDeletes(s: Stream, t: Tab, appends: seq<Entry>, deletes: set<Key>): seq<nat>
    requires t != []
  {
    var l := LayoutOf(s, t, appends, deletes);
    Pick(l.del, BodyEnd(l), |l.del|, true)
  }

  /** Row `p` after `a` donated appends, `b` tail swaps and `c` blanked tail rows. */
  ghost function StageRow(s: Stream, t: Tab, appends: seq<Entry>, deletes: set<Key>,
                          a: nat, b: nat, c: nat, p: nat): Row
    requires t != [] && p < |t|
    requires a <= Donated(LayoutOf(s, t, appends, deletes)) && b <= |Donors(LayoutOf(s, t, appends, deletes))|
  {
    var l := LayoutOf(s, t, appends, deletes);
    var e, d := BodyEnd(l), Donated(l);
    if !l.del[p] then
      if e <= p && |Pick(l.del, e, p, false)| < b then [] else Effective(s, t, appends, p)
    else if p < e then
      if Rank(l, p) < a then Stored(News(s, t, appends, deletes)[Rank(l, p)].row)
      else if d <= Rank(l, p) < d + b then Overlay(Effective(s, t, appends, p), t[DonorAt(l, Rank(l, p) - d)])
      else Effective(s, t, appends, p)
    else if |Pick(l.del, e, p, true)| < c then [] else Effective(s, t, appends, p)
  }

  ghost function DonorAt(l: Layout, b: nat): (i: nat)
    requires Proper(l) && b < |Donors(l)|
    ensures BodyEnd(l) <= i < |l.del| && !l.del[i] && i == Donors(l)[b]
  {
    RankOfPicked(l.del, BodyEnd(l), |l.del|, false, b);
    Donors(l)[b]
  }

  ghost predicate Staged(s: Stream, t: Tab, appends: seq<Entry>, deletes: set<Key>, a: nat, b: nat, c: nat, g: Tab)
    requires t != []
    requires a <= Donated(LayoutOf(s, t, appends, deletes)) && b <= |Donors(LayoutOf(s, t, appends, deletes))|
  {
    && Canonical(g)
    && (forall p: nat {:trigger RowAt(g, p)} :: p < |t| ==> RowAt(g, p) == StageRow(s, t, appends, deletes, a, b, c, p))
    && (forall p: nat {:trigger RowAt(g, p)} :: |t| <= p ==> RowAt(g, p) == [])
  }

  lemma EffectiveFits(s: Stream, t: Tab, appends: seq<Entry>, p: nat)
    requires Ready(s, t, appends) && 1 <= p < |t|
    ensures |Effective(s, t, appends, p)| <= s.width
  {
    EffectiveIsDataRow(s, t, appends, p);
  }

  /** Putting row `r` at position `x` moves from one stage to the next when only that row differs. */
  lemma NextStage(s: Stream, t: Tab, appends: seq<Entry>, deletes: set<Key>,
                  a: nat, b: nat, c: nat, a': nat, b': nat, c': nat, g: Tab, x: nat, cells: Row)
    requires t != [] && x < |t|
    requires var l := LayoutOf(s, t, appends, deletes);
             a <= Donated(l) && b <= |Donors(l)| && a' <= Donated(l) && b' <= |Donors(l)|
    requires Staged(s, t, appends, deletes, a, b, c, g)
    requires forall p: nat | p < |t| && p != x ::
               StageRow(s, t, appends, deletes, a', b', c', p) == StageRow(s, t, appends, deletes, a, b, c, p)
    requires Overlay(StageRow(s, t, appends, deletes, a, b, c, x), cells) ==
        StageRow(s, t, appends, deletes, a', b', c', x)
    ensures Staged(s, t, appends, deletes, a', b', c', PasteAt(g, x + 1, cells))
  {
    hide StageRow, LayoutOf, Donated, Donors, Overlay;
    var g' := PasteAt(g, x + 1, cells);
    PasteKeepsCanonical(g, x + 1, cells);
    forall p: nat | p < |t| ensures RowAt(g', p) == StageRow(s, t, appends, deletes, a', b', c', p) {
      assert RowAt(g, p) == StageRow(s, t, appends, deletes, a, b, c, p);
    }
  }

  lemma DonateSelf(s: Stream, t: Tab, appends: seq<Entry>, deletes: set<Key>, a: nat, x: nat)
    requires Ready(s, t, appends)
    requires var l := LayoutOf(s, t, appends, deletes); a < Donated(l) && a < |Slots(l)| && x == Slots(l)[a]
    ensures 1 <= x < |t|
    ensures Overlay(StageRow(s, t, appends, deletes, a, 0, 0, x), Pasted(News(s, t, appends, deletes)[a].row)) ==
            StageRow(s, t, appends, deletes, a + 1, 0, 0, x)
  {
    DonationTarget(LayoutOf(s, t, appends, deletes), a);
    EffectiveFits(s, t, appends, x);
    PasteReplaces(s, Effective(s, t, appends, x), News(s, t, appends, deletes)[a].row);
  }

  lemma DonateOther(s: Stream, t: Tab, appends: seq<Entry>, deletes: set<Key>, a: nat, x: nat, p: nat)
    requires t != [] && p < |t| && p != x
    requires var l := LayoutOf(s, t, appends, deletes); a < Donated(l) && a < |Slots(l)| && x == Slots(l)[a]
    ensures StageRow(s, t, appends, deletes, a + 1, 0, 0, p) == StageRow(s, t, appends, deletes, a, 0, 0, p)
  {
    var l := LayoutOf(s, t, appends, deletes);
    DonationTarget(l, a);
    if l.del[p] && Rank(l, p) == a {
      RankUnique(l.del, 0, |l.del|, true, p, x);
    }
  }

  /** The next donated append takes the next deleted slot. */
  lemma DonateStep(s: Stream, t: Tab, appends: seq<Entry>, deletes: set<Key>, a: nat, g: Tab, x: nat)
    requires Ready(s, t, appends) && t != []
    requires var l := LayoutOf(s, t, appends, deletes);
             && a < Donated(l) && Staged(s, t, appends, deletes, a, 0, 0, g)
             && a < |Slots(l)| && x == Slots(l)[a] && a < |News(s, t, appends, deletes)|
    ensures Staged(s, t, appends, deletes, a + 1, 0, 0,
                   PasteAt(g, x + 1, Pasted(News(s, t, appends, deletes)[a].row)))
  {
    hide *;
    DonateSelf(s, t, appends, deletes, a, x);
    forall p: nat | p < |t| && p != x
      ensures StageRow(s, t, appends, deletes, a + 1, 0, 0, p) == StageRow(s, t, appends, deletes, a, 0, 0, p)
    {
      DonateOther(s, t, appends, deletes, a, x, p);
    }
    NextStage(s, t, appends, deletes, a, 0, 0, a + 1, 0, 0, g, x, Pasted(News(s, t, appends, deletes)[a].row));
  }

  // ---- Tail swaps: the donor's values go into the slot, then the donor's row is blanked ----

  /** Between the two pastes of swap `b`: the slot is filled, the donor still stands. */
  ghost function HalfRow(s: Stream, t: Tab, appends: seq<Entry>, deletes: set<Key>, b: nat, p: nat): Row
    requires t != [] && p < |t| && b < |Donors(LayoutOf(s, t, appends, deletes))|
  {
    var l := LayoutOf(s, t, appends, deletes);
    if l.del[p] then StageRow(s, t, appends, deletes, Donated(l), b + 1, 0, p)
    else StageRow(s, t, appends, deletes, Donated(l), b, 0, p)
  }

  ghost predicate HalfSwapped(s: Stream, t: Tab, appends: seq<Entry>, deletes: set<Key>, b: nat, g: Tab)
    requires t != [] && b < |Donors(LayoutOf(s, t, appends, deletes))|
  {
    && Canonical(g)
    && (forall p: nat {:trigger RowAt(g, p)} :: p < |t| ==> RowAt(g, p) == HalfRow(s, t, appends, deletes, b, p))
    && (forall p: nat {:trigger RowAt(g, p)} :: |t| <= p ==> RowAt(g, p) == [])
  }

  lemma FillSlotSelf(s: Stream, t: Tab, appends: seq<Entry>, deletes: set<Key>, b: nat, x: nat, y: nat)
    requires Ready(s, t, appends)
    requires var l := LayoutOf(s, t, appends, deletes);
             && b < |Donors(l)| && y == Donors(l)[b]
             && Donated(l) + b < |Slots(l)| && x == Slots(l)[Donated(l) + b]
    ensures 1 <= x < |t| && 1 <= y < |t|
    ensures var l := LayoutOf(s, t, appends, deletes);
            Overlay(StageRow(s, t, appends, deletes, Donated(l), b, 0, x), Pasted(t[y])) ==
            HalfRow(s, t, appends, deletes, b, x)
  {
    SwapTarget(LayoutOf(s, t, appends, deletes), b);
    DataRowPastesAsItself(s, t[y]);
  }

  lemma FillSlotOther(s: Stream, t: Tab, appends: seq<Entry>, deletes: set<Key>, b: nat, x: nat, p: nat)
    requires t != [] && p < |t| && p != x
    requires var l := LayoutOf(s, t, appends, deletes);
             && b < |Donors(l)| && Donated(l) + b < |Slots(l)| && x == Slots(l)[Donated(l) + b]
    ensures var l := LayoutOf(s, t, appends, deletes);
            HalfRow(s, t, appends, deletes, b, p) == StageRow(s, t, appends, deletes, Donated(l), b, 0, p)
  {
    var l := LayoutOf(s, t, appends, deletes);
    SwapTarget(l, b);
    if l.del[p] && Rank(l, p) == Donated(l) + b {
      RankUnique(l.del, 0, |l.del|, true, p, x);
    }
  }

  lemma FillSlot(s: Stream, t: Tab, appends: seq<Entry>, deletes: set<Key>, b: nat, g: Tab, x: nat, y: nat)
    requires Ready(s, t, appends) && t != []
    requires var l := LayoutOf(s, t, appends, deletes);
             && b < |Donors(l)| && y == Donors(l)[b] && y < |t|
             && Donated(l) + b < |Slots(l)| && x == Slots(l)[Donated(l) + b]
             && Staged(s, t, appends, deletes, Donated(l), b, 0, g)
    ensures HalfSwapped(s, t, appends, deletes, b, PasteAt(g, x + 1, Pasted(t[y])))
  {
    hide StageRow, HalfRow, Overlay, Pasted, LayoutOf, Donors, Slots;
    var l, g' := LayoutOf(s, t, appends, deletes), PasteAt(g, x + 1, Pasted(t[y]));
    FillSlotSelf(s, t, appends, deletes, b, x, y);
    PasteKeepsCanonical(g, x + 1, Pasted(t[y]));
    forall p: nat | p < |t| ensures RowAt(g', p) == HalfRow(s, t, appends, deletes, b, p) {
      assert RowAt(g, p) == StageRow(s, t, appends, deletes, Donated(l), b, 0, p);
      if p != x {
        FillSlotOther(s, t, appends, deletes, b, x, p);
      }
    }
  }

  lemma ClearDonorSelf(s: Stream, t: Tab, appends: seq<Entry>, deletes: set<Key>, b: nat, y: nat)
    requires Ready(s, t, appends)
    requires var l := LayoutOf(s, t, appends, deletes); b < |Donors(l)| && y == Donors(l)[b]
    ensures 1 <= y < |t|
    ensures var l := LayoutOf(s, t, appends, deletes);
            Overlay(HalfRow(s, t, appends, deletes, b, y), Pasted(BlankRow(s))) ==
            StageRow(s, t, appends, deletes, Donated(l), b + 1, 0, y)
  {
    SwapTarget(LayoutOf(s, t, appends, deletes), b);
    EffectiveFits(s, t, appends, y);
    BlankRowClears(s, Effective(s, t, appends, y));
  }

  lemma ClearDonorOther(s: Stream, t: Tab, appends: seq<Entry>, deletes: set<Key>, b: nat, y: nat, p: nat)
    requires t != [] && p < |t| && p != y
    requires var l := LayoutOf(s, t, appends, deletes); b < |Donors(l)| && y == Donors(l)[b]
    ensures var l := LayoutOf(s, t, appends, deletes);
            HalfRow(s, t, appends, deletes, b, p) == StageRow(s, t, appends, deletes, Donated(l), b + 1, 0, p)
  {
    var l := LayoutOf(s, t, appends, deletes);
    SwapTarget(l, b);
    if !l.del[p] && BodyEnd(l) <= p && |Pick(l.del, BodyEnd(l), p, false)| == b {
      RankUnique(l.del, BodyEnd(l), |l.del|, false, p, y);
    }
  }

  lemma ClearDonor(s: Stream, t: Tab, appends: seq<Entry>, deletes: set<Key>, b: nat, g: Tab, y: nat)
    requires Ready(s, t, appends) && t != []
    requires var l := LayoutOf(s, t, appends, deletes);
             b < |Donors(l)| && y == Donors(l)[b] && HalfSwapped(s, t, appends, deletes, b, g)
    ensures var l := LayoutOf(s, t, appends, deletes);
            Staged(s, t, appends, deletes, Donated(l), b + 1, 0, PasteAt(g, y + 1, Pasted(BlankRow(s))))
  {
    hide StageRow, HalfRow, Overlay, Pasted, LayoutOf, Donors, BlankRow;
    var l, g' := LayoutOf(s, t, appends, deletes), PasteAt(g, y + 1, Pasted(BlankRow(s)));
    ClearDonorSelf(s, t, appends, deletes, b, y);
    PasteKeepsCanonical(g, y + 1, Pasted(BlankRow(s)));
    forall p: nat | p < |t|
      ensures RowAt(g', p) == StageRow(s, t, appends, deletes, Donated(l), b + 1, 0, p)
    {
      assert RowAt(g, p) == HalfRow(s, t, appends, deletes, b, p);
      if p != y {
        ClearDonorOther(s, t, appends, deletes, b, y, p);
      }
    }
  }

  // ---- Deleted rows of the tail ----

  lemma ClearTailSelf(s: Stream, t: Tab, appends: seq<Entry>, deletes: set<Key>, c: nat, x: nat)
    requires Ready(s, t, appends)
    requires c < |TailDeletes(s, t, appends, deletes)| && x == TailDeletes(s, t, appends, deletes)[c]
    ensures 1 <= x < |t|
    ensures var l := LayoutOf(s, t, appends, deletes);
            Overlay(StageRow(s, t, appends, deletes, Donated(l), |Donors(l)|, c, x), Pasted(BlankRow(s))) ==
            StageRow(s, t, appends, deletes, Donated(l), |Donors(l)|, c + 1, x)
  {
    var l := LayoutOf(s, t, appends, deletes);
    RankOfPicked(l.del, BodyEnd(l), |l.del|, true, c);
    EffectiveFits(s, t, appends, x);
    BlankRowClears(s, Effective(s, t, appends, x));
  }

  lemma ClearTailOther(s: Stream, t: Tab, appends: seq<Entry>, deletes: set<Key>, c: nat, x: nat, p: nat)
    requires t != [] && p < |t| && p != x
    requires c < |TailDeletes(s, t, appends, deletes)| && x == TailDeletes(s, t, appends, deletes)[c]
    ensures var l := LayoutOf(s, t, appends, deletes);
            StageRow(s, t, appends, deletes, Donated(l), |Donors(l)|, c + 1, p) ==
            StageRow(s, t, appends, deletes, Donated(l), |Donors(l)|, c, p)
  {
    var l := LayoutOf(s, t, appends, deletes);
    RankOfPicked(l.del, BodyEnd(l), |l.del|, true, c);
    if l.del[p] && BodyEnd(l) <= p && |Pick(l.del, BodyEnd(l), p, true)| == c {
      RankUnique(l.del, BodyEnd(l), |l.del|, true, p, x);
    }
  }

  lemma ClearTailStep(s: Stream, t: Tab, appends: seq<Entry>, deletes: set<Key>, c: nat, g: Tab, x: nat)
    requires Ready(s, t, appends) && t != []
    requires c < |TailDeletes(s, t, appends, deletes)| && x == TailDeletes(s, t, appends, deletes)[c]
    requires var l := LayoutOf(s, t, appends, deletes); Staged(s, t, appends, deletes, Donated(l), |Donors(l)|, c, g)
    ensures var l := LayoutOf(s, t, appends, deletes);
            Staged(s, t, appends, deletes, Donated(l), |Donors(l)|, c + 1, PasteAt(g, x + 1, Pasted(BlankRow(s))))
  {
    hide *;
    var l := LayoutOf(s, t, appends, deletes);
    LayoutIsProper(s, t, appends, deletes);
    ClearTailSelf(s, t, appends, deletes, c, x);
    forall p: nat | p < |t| && p != x
      ensures StageRow(s, t, appends, deletes, Donated(l), |Donors(l)|, c + 1, p) ==
              StageRow(s, t, appends, deletes, Donated(l), |Donors(l)|, c, p)
    {
      ClearTailOther(s, t, appends, deletes, c, x, p);
    }
    NextStage(s, t, appends, deletes, Donated(l), |Donors(l)|, c, Donated(l), |Donors(l)|, c + 1, g, x,
        Pasted(BlankRow(s)));
  }

  // ---- The last stage ----

  lemma LastStageAbove(s: Stream, t: Tab, appends: seq<Entry>, deletes: set<Key>, p: nat)
    requires t != [] && p < BodyEnd(LayoutOf(s, t, appends, deletes))
    ensures var l := LayoutOf(s, t, appends, deletes);
            StageRow(s, t, appends, deletes, Donated(l), |Donors(l)|, |TailDeletes(s, t, appends, deletes)|, p) ==
            RowOf(s, t, appends, deletes, p)
  {
    hide Pick, Overlay, Effective, News, Stored, KeyOf, TailDeletes, Marks;
    var l := LayoutOf(s, t, appends, deletes);
    PlacedFrom(l, p);
    if l.del[p] {
      SlotsMatchDonors(l);
      PickAtRank(l.del, 0, BodyEnd(l), true, p);
    }
  }

  lemma LastStageTail(s: Stream, t: Tab, appends: seq<Entry>, deletes: set<Key>, p: nat)
    requires t != [] && BodyEnd(LayoutOf(s, t, appends, deletes)) <= p < |t|
    ensures var l := LayoutOf(s, t, appends, deletes);
            StageRow(s, t, appends, deletes, Donated(l), |Donors(l)|, |TailDeletes(s, t, appends, deletes)|, p) == []
  {
    var l := LayoutOf(s, t, appends, deletes);
    PickAtRank(l.del, BodyEnd(l), |l.del|, l.del[p], p);
  }

  /** Rows above the tail are final, and everything below is blank. */
  ghost predicate Compacted(s: Stream, t: Tab, appends: seq<Entry>, deletes: set<Key>, g: Tab)
    requires t != []
  {
    var e := BodyEnd(LayoutOf(s, t, appends, deletes));
    && Canonical(g)
    && (forall p: nat {:trigger RowAt(g, p)} :: p < e ==> RowAt(g, p) == RowOf(s, t, appends, deletes, p))
    && (forall p: nat {:trigger RowAt(g, p)} :: e <= p ==> RowAt(g, p) == [])
  }

  lemma LastStageIsCompacted(s: Stream, t: Tab, appends: seq<Entry>, deletes: set<Key>, g: Tab)
    requires t != []
    requires var l := LayoutOf(s, t, appends, deletes);
             Staged(s, t, appends, deletes, Donated(l), |Donors(l)|, |TailDeletes(s, t, appends, deletes)|, g)
    ensures Compacted(s, t, appends, deletes, g)
  {
    hide StageRow, LayoutOf, TailDeletes, Donors, RowOf;
    var l := LayoutOf(s, t, appends, deletes);
    LayoutIsProper(s, t, appends, deletes);
    forall p: nat | p < BodyEnd(l) ensures RowAt(g, p) == RowOf(s, t, appends, deletes, p) {
      LastStageAbove(s, t, appends, deletes, p);
      assert RowAt(g, p) ==
        StageRow(s, t, appends, deletes, Donated(l), |Donors(l)|, |TailDeletes(s, t, appends, deletes)|, p);
    }
    forall p: nat | BodyEnd(l) <= p ensures RowAt(g, p) == [] {
      if p < |t| {
        LastStageTail(s, t, appends, deletes, p);
        assert RowAt(g, p) ==
          StageRow(s, t, appends, deletes, Donated(l), |Donors(l)|, |TailDeletes(s, t, appends, deletes)|, p);
      }
    }
  }

  // ---- Appends at the bottom ----

  function RowsOf(entries: seq<Entry>): (rows: seq<Row>)
    ensures |rows| == |entries|
    ensures forall i :: 0 <= i < |rows| ==> rows[i] == entries[i].row
  {
    seq(|entries|, i requires 0 <= i < |entries| => entries[i].row)
  }

  lemma PastedBlock(start: RowNumber, rows: seq<Row>)
    ensures PastedUpdates(Block(start, rows)) == Block(start, PastedRows(rows))
  {
  }

  lemma {:induction false} RowAfterBlock(g: Tab, start: RowNumber, rows: seq<Row>, p: nat)
    ensures RowAt(PasteAll(g, Block(start, rows)), p) ==
            if start - 1 <= p < start - 1 + |rows| then Overlay(RowAt(g, p), rows[p - (start - 1)]) else RowAt(g, p)
    decreases |rows|
  {
    if rows != [] {
      var front, last := rows[..|rows| - 1], rows[|rows| - 1];
      RowAfterBlock(g, start, front, p);
      FrontLast(rows);
      hide *;
      RowAfterOneMore(g, start, front, last, p);
    }
  }

  lemma RowAfterOneMore(g: Tab, start: RowNumber, front: seq<Row>, last: Row, p: nat)
    ensures RowAt(PasteAll(g, Block(start, front + [last])), p) ==
            if p == start - 1 + |front| then Overlay(RowAt(PasteAll(g, Block(start, front)), p), last)
            else RowAt(PasteAll(g, Block(start, front)), p)
  {
    hide *;
    BlockSnoc(start, front, last);
    PasteAllSnoc(g, Block(start, front), Update(start + |front|, last));
    RowAfterPaste(PasteAll(g, Block(start, front)), start + |front|, last, p + 1);
  }

  lemma BlockSnoc(start: RowNumber, front: seq<Row>, last: Row)
    ensures Block(start, front + [last]) == Block(start, front) + [Update(start + |front|, last)]
  {
  }

  /** An appended row below the compacted rows. */
  lemma AppendedRow(s: Stream, t: Tab, appends: seq<Entry>, deletes: set<Key>, j: nat)
    requires Ready(s, t, appends) && t != []
    requires Donated(LayoutOf(s, t, appends, deletes)) + j < |News(s, t, appends, deletes)|
    ensures var l, news := LayoutOf(s, t, appends, deletes), News(s, t, appends, deletes);
            && BodyEnd(l) == |t| && |t| + j < Size(l)
            && Overlay([], Pasted(news[Donated(l) + j].row)) == RowOf(s, t, appends, deletes, |t| + j)
  {
    hide News, LayoutOf, Place, Donated, BodyEnd, Size, Pasted, Overlay, Stored, KeyOf, KeysKept, KeyPresent, Keyed,
      GoodAppends;
    var l, news := LayoutOf(s, t, appends, deletes), News(s, t, appends, deletes);
    LayoutIsProper(s, t, appends, deletes);
    BottomPlaced(l, j);
    NewsIsGood(s, t, appends, deletes, Donated(l) + j);
    PasteReplaces(s, [], news[Donated(l) + j].row);
  }

  ghost function Rest(s: Stream, t: Tab, appends: seq<Entry>, deletes: set<Key>): seq<Entry>
    requires t != []
  {
    News(s, t, appends, deletes)[Donated(LayoutOf(s, t, appends, deletes))..]
  }

  lemma FinalRow(s: Stream, t: Tab, appends: seq<Entry>, deletes: set<Key>, g: Tab, p: nat)
    requires Ready(s, t, appends) && t != [] && Compacted(s, t, appends, deletes, g)
    ensures RowAt(PasteAll(g, PastedUpdates(Block(|t| + 1, RowsOf(Rest(s, t, appends, deletes))))), p) ==
            RowAt(FlushTab(s, t, appends, deletes), p)
  {
    hide News, LayoutOf, Place, Donated, BodyEnd, Size, Pasted, Overlay, RowOf, PasteAll, Block, Rest;
    var l, rest := LayoutOf(s, t, appends, deletes), Rest(s, t, appends, deletes);
    LayoutIsProper(s, t, appends, deletes);
    SizeWithRest(l);
    PastedBlock(|t| + 1, RowsOf(rest));
    RowAfterBlock(g, |t| + 1, PastedRows(RowsOf(rest)), p);
    RestIs(s, t, appends, deletes);
    if |t| <= p < |t| + |rest| {
      AppendedRow(s, t, appends, deletes, p - |t|);
    }
  }

  lemma RestIs(s: Stream, t: Tab, appends: seq<Entry>, deletes: set<Key>)
    requires t != []
    ensures var l, rest := LayoutOf(s, t, appends, deletes), Rest(s, t, appends, deletes);
            && |rest| == l.pending - Donated(l)
            && forall j :: 0 <= j < |rest| ==> rest[j] == News(s, t, appends, deletes)[Donated(l) + j]
  {
  }

  /** Appending the remaining rows right below completes the flushed tab. */
  lemma AppendCompletes(s: Stream, t: Tab, appends: seq<Entry>, deletes: set<Key>, g: Tab)
    requires Ready(s, t, appends) && t != [] && Compacted(s, t, appends, deletes, g)
    ensures PasteAll(g, PastedUpdates(Block(|t| + 1, RowsOf(Rest(s, t, appends, deletes))))) ==
            FlushTab(s, t, appends, deletes)
  {
    var appended := PastedUpdates(Block(|t| + 1, RowsOf(Rest(s, t, appends, deletes))));
    FlushKeepsRows(s, t, appends, deletes);
    PasteAllKeepsCanonical(g, appended);
    forall p: nat ensures RowAt(PasteAll(g, appended), p) == RowAt(FlushTab(s, t, appends, deletes), p) {
      FinalRow(s, t, appends, deletes, g, p);
    }
    SameTab(PasteAll(g, appended), FlushTab(s, t, appends, deletes));
  }
}
