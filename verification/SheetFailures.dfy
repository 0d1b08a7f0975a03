/** Two small tabs for which a flush does not leave the expected table. */
module SheetFailures {
  import opened Options
  import opened SheetGrid
  import opened SheetPaste
  import opened SheetLayout
  import opened SheetRows
  import opened SheetTable

  /** Three rows, the first data row deleted, nothing to donate: row 2 is the donor of slot 1. */
  lemma LastRowIsDonor(s: Stream, t: Tab, appends: seq<Entry>, deletes: set<Key>)
    requires |t| == 3 && Marks(s, t, deletes) == [false, true, false] && News(s, t, appends, deletes) == []
    ensures IsDonor(s, t, appends, deletes, 2) && SlotFor(s, t, appends, deletes, 2) == 1
  {
    var del := [false, true, false];
    assert Pick(del, 0, 1, true) == [];
    assert Pick(del, 0, 2, true) == [1];
    assert Pick(del, 0, 3, true) == [1];
    assert BodyEnd(LayoutOf(s, t, appends, deletes)) == 2;
    assert SlotFor(s, t, appends, deletes, 2) == 1 by {
      assert forall slot :: 1 <= slot < 3 && KeyOf(s, t[slot]) in deletes ==> Marks(s, t, deletes)[slot];
    }
  }

  const HEADER: Row := ["id", "u"]

  function Stamped(num: string -> Option<real>): Stream {
    Stream(2, [0], Some(1), c => c == "1" || c == "2", num)
  }

  const THREE_ROWS: Tab := [HEADER, ["a", "1"], ["b", "1"]]
  const NEWER_B: Entry := Entry(["b", "2"], ["b"])

  lemma ThreeRowsKeyed(num: string -> Option<real>)
    requires num("") == Some(0.0) && num("1") == Some(1.0) && num("2") == Some(2.0)
    ensures ValidStream(Stamped(num)) && Keyed(Stamped(num), THREE_ROWS) && GoodAppends(Stamped(num), [NEWER_B])
  {
    var s := Stamped(num);
    assert KeyOf(s, THREE_ROWS[1]) == ["a"] && KeyOf(s, THREE_ROWS[2]) == ["b"] && KeyOf(s, NEWER_B.row) == ["b"];
    assert ["a"][0] != ["b"][0];
  }

  lemma RowAMarked(num: string -> Option<real>)
    ensures Marks(Stamped(num), THREE_ROWS, {["a"]}) == [false, true, false]
    ensures News(Stamped(num), THREE_ROWS, [NEWER_B], {["a"]}) == []
  {
    var s := Stamped(num);
    assert KeyOf(s, THREE_ROWS[1]) == ["a"] && KeyOf(s, THREE_ROWS[2]) == ["b"];
    assert ["a"][0] != ["b"][0];
    assert HasAt(s, THREE_ROWS, ["b"], 2);
    assert [NEWER_B][..0] == [];
  }

  /** Donor 2 is found with its old cells, over what stands in slot 1. */
  lemma DonorShows(s: Stream, t: Tab, appends: seq<Entry>, deletes: set<Key>)
    requires ValidStream(s) && Keyed(s, t) && GoodAppends(s, appends) && |t| == 3
    requires Marks(s, t, deletes) == [false, true, false] && News(s, t, appends, deletes) == []
    requires KeyOf(s, t[2]) !in deletes
    ensures Lookup(s, FlushTab(s, t, appends, deletes), KeyOf(s, t[2])) ==
            Some(Overlay(Effective(s, t, appends, 1), t[2]))
  {
    hide Overlay, Effective, Keyed, GoodAppends, FlushTab;
    LastRowIsDonor(s, t, appends, deletes);
    SurvivorLookup(s, t, appends, deletes, 2);
  }

  /** Record b gets newer while a is deleted: b is moved with its old values, and the update is lost. */
  lemma UpdateOfDonorIsLost(num: string -> Option<real>)
    requires num("") == Some(0.0) && num("1") == Some(1.0) && num("2") == Some(2.0)
    ensures ValidStream(Stamped(num)) && Keyed(Stamped(num), THREE_ROWS) && GoodAppends(Stamped(num), [NEWER_B])
    ensures Lookup(Stamped(num), FlushTab(Stamped(num), THREE_ROWS, [NEWER_B], {["a"]}), ["b"]) == Some(["b", "1"])
    ensures ExpectedRow(Stamped(num), THREE_ROWS, [NEWER_B], {["a"]}, ["b"]) == Some(["b", "2"])
  {
    hide Keyed, GoodAppends, Marks, News, IsDonor, Refines, ValidStream, LayoutOf, Lookup, FlushTab, ExpectedRow;
    var s := Stamped(num);
    ThreeRowsKeyed(num);
    RowAMarked(num);
    RowsAre(num);
    DonorShows(s, THREE_ROWS, [NEWER_B], {["a"]});
    OverlayIsPasteIff(["a", "1"], ["b", "1"]);
    ExpectedForSurvivor(s, THREE_ROWS, [NEWER_B], {["a"]}, 2);
  }

  lemma RowsAre(num: string -> Option<real>)
    requires num("") == Some(0.0) && num("1") == Some(1.0) && num("2") == Some(2.0)
    ensures var s := Stamped(num);
      && KeyOf(s, THREE_ROWS[2]) == ["b"] && ["b"] !in {["a"]}
      && Effective(s, THREE_ROWS, [NEWER_B], 1) == ["a", "1"]
      && Effective(s, THREE_ROWS, [NEWER_B], 2) == ["b", "2"]
  {
    hide LexLess;
    var s := Stamped(num);
    assert KeyOf(s, THREE_ROWS[1]) == ["a"] && KeyOf(s, THREE_ROWS[2]) == ["b"];
    assert ["a"][0] != ["b"][0];
    assert [NEWER_B][..0] == [];
    assert Find([NEWER_B], ["a"]) == None && Find([NEWER_B], ["b"]) == Some(["b", "2"]);
    assert SanitizeRow(["b", "2"]) == ["b", "2"];
    assert Stored(["b", "2"]) == ["b", "2"];
    assert Beats(s, ["b", "2"], THREE_ROWS[2]);
  }

  const SHORT_B: Tab := [HEADER, ["a", "1"], ["b"]]

  /** Record b has a blank last cell; moved into a's row unpadded, it shows a's last cell. */
  lemma ShortDonorKeepsOldCells(num: string -> Option<real>)
    ensures var s := Stream(2, [0], None, c => false, num);
            && ValidStream(s) && Keyed(s, SHORT_B)
            && Lookup(s, FlushTab(s, SHORT_B, [], {["a"]}), ["b"]) == Some(["b", "1"])
            && ExpectedRow(s, SHORT_B, [], {["a"]}, ["b"]) == Some(["b"])
  {
    hide Lookup, FlushTab, ExpectedRow, LayoutOf;
    var s := Stream(2, [0], None, c => false, num);
    var t := SHORT_B;
    assert KeyOf(s, t[1]) == ["a"] && KeyOf(s, t[2]) == ["b"];
    assert ["a"][0] != ["b"][0];
    assert Marks(s, t, {["a"]}) == [false, true, false];
    DonorShows(s, t, [], {["a"]});
    assert ["b"] + ["a", "1"][1..] == ["b", "1"];
    ExpectedForSurvivor(s, t, [], {["a"]}, 2);
  }
}
