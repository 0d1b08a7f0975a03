/**
 A spreadsheet tab as the Sheets values API shows it, and what pasting does to it.

 The API omits trailing blank cells of a row and trailing blank rows of a tab, so a row is
 a sequence that does not end in a blank cell and a tab is a sequence that does not end in
 a blank row.  Everything past the end reads as blank.
 */
module SheetGrid {

  type Row = seq<string>
  type Tab = seq<Row>

  /** Row numbers start at 1; row 1 holds the headers. */
  type RowNumber = n: int | 1 <= n witness 1

  /** The 0-based position of a row. */
  function Index(r: RowNumber): nat {
    r - 1
  }

  /** One buffered write: the values to put at the start of one row. */
  datatype Update = Update(rowNumber: RowNumber, values: Row)

  // ---- Sequences with an implicit blank tail ----

  /** The element at `i`, or the blank beyond the end. */
  function At<T>(s: seq<T>, i: nat, blank: T): T {
    if i < |s| then s[i] else blank
  }

  predicate NoBlankEnd<T(==)>(s: seq<T>, blank: T) {
    s == [] || s[|s| - 1] != blank
  }

  function TrimEnd<T(==)>(s: seq<T>, blank: T): (t: seq<T>)
    ensures NoBlankEnd(t, blank)
    ensures forall i: nat {:trigger At(t, i, blank)} :: At(t, i, blank) == At(s, i, blank)
    ensures |t| <= |s|
  {
    if NoBlankEnd(s, blank) then s else TrimEnd(s[..|s| - 1], blank)
  }

  /** Two sequences without blank ends are equal when they read the same everywhere. */
  lemma SameWhenReadSame<T>(a: seq<T>, b: seq<T>, blank: T)
    requires NoBlankEnd(a, blank) && NoBlankEnd(b, blank)
    requires forall i: nat :: At(a, i, blank) == At(b, i, blank)
    ensures a == b
  {
    if b != [] {
      assert At(a, |b| - 1, blank) == At(b, |b| - 1, blank);
    }
    if a != [] {
      assert At(a, |a| - 1, blank) == At(b, |a| - 1, blank);
    }
    assert |a| == |b|;
    forall i | 0 <= i < |a| ensures a[i] == b[i] {
      assert At(a, i, blank) == At(b, i, blank);
    }
  }

  function RowAt(t: Tab, i: nat): Row {
    At(t, i, [])
  }

  ghost predicate Canonical(t: Tab) {
    && NoBlankEnd(t, [])
    && forall i :: 0 <= i < |t| ==> NoBlankEnd(t[i], "")
  }

  lemma SameTab(a: Tab, b: Tab)
    requires Canonical(a) && Canonical(b)
    requires forall i: nat :: RowAt(a, i) == RowAt(b, i)
    ensures a == b
  {
    forall i: nat ensures At(a, i, []) == At(b, i, []) {
      assert RowAt(a, i) == RowAt(b, i);
    }
    SameWhenReadSame(a, b, []);
  }

  // ---- Pasting ----

  /** Pasting overwrites exactly the listed cells; the cells to their right stay. */
  function Overlay(prior: Row, cells: Row): (r: Row)
    ensures NoBlankEnd(r, "")
  {
    TrimEnd(cells + (if |prior| <= |cells| then [] else prior[|cells|..]), "")
  }

  lemma OverlayCell(prior: Row, cells: Row, c: nat)
    ensures At(Overlay(prior, cells), c, "") == if c < |cells| then cells[c] else At(prior, c, "")
  {
    var whole := cells + (if |prior| <= |cells| then [] else prior[|cells|..]);
    assert At(TrimEnd(whole, ""), c, "") == At(whole, c, "");
  }

  /** A paste at least as wide as the old row replaces it. */
  lemma OverlayCovers(prior: Row, cells: Row)
    requires |prior| <= |cells|
    ensures Overlay(prior, cells) == TrimEnd(cells, "")
  {
    assert cells + [] == cells;
  }

  /**
   Pasting a trimmed row gives exactly that row if and only if the old row is no longer:
   a longer old row keeps its last cell.
   */
  lemma OverlayIsPasteIff(prior: Row, cells: Row)
    requires NoBlankEnd(prior, "") && NoBlankEnd(cells, "")
    ensures Overlay(prior, cells) == cells <==> |prior| <= |cells|
  {
    if |prior| <= |cells| {
      OverlayCovers(prior, cells);
    } else {
      OverlayCell(prior, cells, |prior| - 1);
    }
  }

  function PutRow(t: Tab, i: nat, r: Row): (t': Tab)
    ensures NoBlankEnd(t', [])
    ensures forall j: nat {:trigger RowAt(t', j)} :: RowAt(t', j) == if j == i then r else RowAt(t, j)
  {
    var len := if i < |t| then |t| else i + 1;
    var whole := seq(len, j requires 0 <= j => if j == i then r else RowAt(t, j));
    var t' := TrimEnd(whole, []);
    assert forall j: nat {:trigger RowAt(t', j)} :: At(t', j, []) == At(whole, j, []);
    t'
  }

  function PasteAt(t: Tab, rowNumber: RowNumber, cells: Row): Tab {
    PutRow(t, rowNumber - 1, Overlay(RowAt(t, rowNumber - 1), cells))
  }

  lemma RowAfterPaste(t: Tab, rowNumber: RowNumber, cells: Row, r: RowNumber)
    ensures RowAt(PasteAt(t, rowNumber, cells), r - 1) ==
              if rowNumber == r then Overlay(RowAt(t, r - 1), cells) else RowAt(t, r - 1)
  {
    hide Overlay, At;
  }

  lemma PasteKeepsCanonical(t: Tab, rowNumber: RowNumber, cells: Row)
    requires Canonical(t)
    ensures Canonical(PasteAt(t, rowNumber, cells))
  {
    var t' := PasteAt(t, rowNumber, cells);
    forall i | 0 <= i < |t'| ensures NoBlankEnd(t'[i], "") {
      assert RowAt(t', i) == t'[i];
    }
  }

  /** Pasting a list of rows one by one, in order. */
  function PasteAll(t: Tab, us: seq<Update>): Tab
    decreases |us|
  {
    if us == [] then t
    else
      var u := us[|us| - 1];
      PasteAt(PasteAll(t, us[..|us| - 1]), u.rowNumber, u.values)
  }

  lemma PasteAllSnoc(t: Tab, us: seq<Update>, u: Update)
    ensures PasteAll(t, us + [u]) == PasteAt(PasteAll(t, us), u.rowNumber, u.values)
  {
    assert (us + [u])[..|us|] == us;
  }

  lemma {:induction false} PasteAllAppend(t: Tab, a: seq<Update>, b: seq<Update>)
    ensures PasteAll(t, a + b) == PasteAll(PasteAll(t, a), b)
    decreases |b|
  {
    if b == [] {
      assert a + b == a;
    } else {
      var front, last := b[..|b| - 1], b[|b| - 1];
      assert a + b == (a + front) + [last];
      PasteAllSnoc(t, a + front, last);
      PasteAllAppend(t, a, front);
    }
  }

  lemma {:induction false} PasteAllKeepsCanonical(t: Tab, us: seq<Update>)
    requires Canonical(t)
    ensures Canonical(PasteAll(t, us))
    decreases |us|
  {
    if us != [] {
      var front := us[..|us| - 1];
      PasteAllKeepsCanonical(t, front);
      PasteKeepsCanonical(PasteAll(t, front), us[|us| - 1].rowNumber, us[|us| - 1].values);
    }
  }

  // ---- What one row receives ----

  /** The values meant for row `r`, in order. */
  function For(us: seq<Update>, r: RowNumber): seq<Row>
    decreases |us|
  {
    if us == [] then []
    else
      var rest := For(us[..|us| - 1], r);
      if us[|us| - 1].rowNumber == r then rest + [us[|us| - 1].values] else rest
  }

  function OverlayAll(prior: Row, vs: seq<Row>): Row
    decreases |vs|
  {
    if vs == [] then prior else Overlay(OverlayAll(prior, vs[..|vs| - 1]), vs[|vs| - 1])
  }

  lemma OverlayAllSnoc(prior: Row, vs: seq<Row>, v: Row)
    ensures OverlayAll(prior, vs + [v]) == Overlay(OverlayAll(prior, vs), v)
  {
    assert (vs + [v])[..|vs|] == vs;
  }

  /** A row's final content depends only on the updates addressed to it, in their order. */
  lemma {:induction false} RowAfterPasteAll(t: Tab, us: seq<Update>, r: RowNumber)
    ensures RowAt(PasteAll(t, us), r - 1) == OverlayAll(RowAt(t, r - 1), For(us, r))
    decreases |us|
  {
    if us != [] {
      var front, u := us[..|us| - 1], us[|us| - 1];
      RowAfterPasteAll(t, front, r);
      hide Overlay, OverlayAll, PasteAt, RowAt;
      RowAfterPaste(PasteAll(t, front), u.rowNumber, u.values, r);
      if u.rowNumber == r {
        OverlayAllSnoc(RowAt(t, r - 1), For(front, r), u.values);
      }
    }
  }

  /** Two update lists that send every row the same values in the same order agree. */
  lemma SameForEveryRow(t: Tab, a: seq<Update>, b: seq<Update>)
    requires Canonical(t)
    requires forall r: RowNumber :: For(a, r) == For(b, r)
    ensures PasteAll(t, a) == PasteAll(t, b)
  {
    PasteAllKeepsCanonical(t, a);
    PasteAllKeepsCanonical(t, b);
    forall i: nat ensures RowAt(PasteAll(t, a), i) == RowAt(PasteAll(t, b), i) {
      RowAfterPasteAll(t, a, i + 1);
      RowAfterPasteAll(t, b, i + 1);
      assert For(a, i + 1) == For(b, i + 1);
    }
    SameTab(PasteAll(t, a), PasteAll(t, b));
  }
}
