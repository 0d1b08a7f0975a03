/** From buffered row updates to the paste requests of one batch update. */
module SheetPaste {
  import opened SheetGrid
  import opened Text

  /** Unit Separator: the column delimiter of every paste. */
  const PASTE_COL_DELIMITER: char := '\U{1f}'

  /** A request as sent: the data is text, parsed again by the receiver. */
  datatype PasteRequest = PasteRequest(rowIndex: nat, data: string)

  // ---- Text form of a block of rows ----

  predicate Clean(s: string) {
    forall i :: 0 <= i < |s| ==> s[i] != '\n' && s[i] != '\r' && s[i] != PASTE_COL_DELIMITER
  }

  function SanitizeForPaste(value: string): (s: string)
    ensures Clean(s) && |s| == |value|
    ensures Clean(value) ==> s == value
    ensures s == "" <==> value == ""
    ensures forall i :: 0 <= i < |s| && s[i] != value[i] ==>
      s[i] == ' ' && value[i] in ['\n', '\r', PASTE_COL_DELIMITER]
  {
    seq(|value|, i requires 0 <= i < |value| =>
      if value[i] == '\n' || value[i] == '\r' || value[i] == PASTE_COL_DELIMITER then ' ' else value[i])
  }

  function SanitizeRow(row: Row): (r: Row)
    ensures |r| == |row|
    ensures forall i :: 0 <= i < |r| ==> r[i] == SanitizeForPaste(row[i])
  {
    seq(|row|, i requires 0 <= i < |row| => SanitizeForPaste(row[i]))
  }

  /** The cells a row of values turns into at the receiver: no values still make one blank cell. */
  function Pasted(row: Row): (r: Row)
    ensures r != []
  {
    if row == [] then [""] else SanitizeRow(row)
  }

  function Tsv(rows: seq<Row>): string {
    Join(seq(|rows|, i requires 0 <= i < |rows| => Join(SanitizeRow(rows[i]), PASTE_COL_DELIMITER)), '\n')
  }

  /** How the receiver reads the data of a paste. */
  function ParsePaste(data: string): seq<Row> {
    var lines := Split(data, '\n');
    seq(|lines|, i requires 0 <= i < |lines| => Split(lines[i], PASTE_COL_DELIMITER))
  }

  lemma {:induction false} JoinIsClean(row: Row)
    requires forall i :: 0 <= i < |row| ==> Clean(row[i])
    ensures Without(Join(row, PASTE_COL_DELIMITER), '\n')
  {
    if |row| > 1 {
      JoinIsClean(Front(row));
    }
  }

  lemma RowRoundTrip(row: Row)
    ensures Without(Join(SanitizeRow(row), PASTE_COL_DELIMITER), '\n')
    ensures Split(Join(SanitizeRow(row), PASTE_COL_DELIMITER), PASTE_COL_DELIMITER) == Pasted(row)
  {
    JoinIsClean(SanitizeRow(row));
    if row != [] {
      SplitJoin(SanitizeRow(row), PASTE_COL_DELIMITER);
    }
  }

  /** The receiver gets back the sanitized cells, row by row. */
  lemma TsvRoundTrip(rows: seq<Row>)
    requires rows != []
    ensures ParsePaste(Tsv(rows)) == seq(|rows|, i requires 0 <= i < |rows| => Pasted(rows[i]))
  {
    var lines := seq(|rows|, i requires 0 <= i < |rows| => Join(SanitizeRow(rows[i]), PASTE_COL_DELIMITER));
    forall i | 0 <= i < |rows|
      ensures Without(lines[i], '\n') && Split(lines[i], PASTE_COL_DELIMITER) == Pasted(rows[i])
    {
      RowRoundTrip(rows[i]);
    }
    SplitJoin(lines, '\n');
  }

  method RowsToTsv(rows: seq<Row>) returns (out: string)
    ensures out == Tsv(rows)
  {
    out := "";
    ghost var lines: seq<string> := [];
    for r := 0 to |rows|
      invariant |lines| == r
      invariant forall i :: 0 <= i < r ==> lines[i] == Join(SanitizeRow(rows[i]), PASTE_COL_DELIMITER)
      invariant out == Join(lines, '\n') + (if 0 < r < |rows| then "\n" else "")
    {
      var row := rows[r];
      ghost var before := out;
      for c := 0 to |row|
        invariant out == before + Join(SanitizeRow(row)[..c], PASTE_COL_DELIMITER)
      {
        ghost var cells := SanitizeRow(row);
        assert cells[..c + 1] == cells[..c] + [cells[c]];
        if c > 0 {
          JoinSnoc(cells[..c], cells[c], PASTE_COL_DELIMITER);
          out := out + [PASTE_COL_DELIMITER];
        }
        out := out + SanitizeForPaste(row[c]);
      }
      assert SanitizeRow(row)[..|row|] == SanitizeRow(row);
      ghost var line := Join(SanitizeRow(row), PASTE_COL_DELIMITER);
      if r > 0 {
        JoinSnoc(lines, line, '\n');
      }
      assert out == Join(lines + [line], '\n');
      lines := lines + [line];
      if r < |rows| - 1 {
        out := out + "\n";
      }
    }
    assert lines == seq(|rows|, i requires 0 <= i < |rows| => Join(SanitizeRow(rows[i]), PASTE_COL_DELIMITER));
  }

  // ---- Effect of requests on a tab ----

  function Block(start: RowNumber, rows: seq<Row>): seq<Update> {
    seq(|rows|, i requires 0 <= i < |rows| => Update(start + i, rows[i]))
  }

  function Effects(request: PasteRequest): seq<Update> {
    Block(request.rowIndex + 1, ParsePaste(request.data))
  }

  function AllEffects(requests: seq<PasteRequest>): seq<Update> {
    if requests == [] then []
    else AllEffects(requests[..|requests| - 1]) + Effects(requests[|requests| - 1])
  }

  /** The requests of a batch update are carried out in order. */
  function ApplyRequests(t: Tab, requests: seq<PasteRequest>): Tab {
    PasteAll(t, AllEffects(requests))
  }

  function PastedUpdates(us: seq<Update>): (r: seq<Update>)
    ensures |r| == |us|
    ensures forall i :: 0 <= i < |us| ==> r[i] == Update(us[i].rowNumber, Pasted(us[i].values))
  {
    seq(|us|, i requires 0 <= i < |us| => Update(us[i].rowNumber, Pasted(us[i].values)))
  }

  function PastedRows(vs: seq<Row>): (r: seq<Row>)
    ensures |r| == |vs|
    ensures forall i :: 0 <= i < |vs| ==> r[i] == Pasted(vs[i])
  {
    seq(|vs|, i requires 0 <= i < |vs| => Pasted(vs[i]))
  }

  lemma {:induction false} ForPasted(us: seq<Update>, r: RowNumber)
    ensures For(PastedUpdates(us), r) == PastedRows(For(us, r))
    decreases |us|
  {
    if us != [] {
      var front := us[..|us| - 1];
      assert PastedUpdates(us)[..|us| - 1] == PastedUpdates(front);
      ForPasted(front, r);
    }
  }

  lemma PastedUpdatesSnoc(us: seq<Update>, u: Update)
    ensures PastedUpdates(us + [u]) == PastedUpdates(us) + [Update(u.rowNumber, Pasted(u.values))]
  {
  }

  // ---- Stable sort by row number ----

  predicate SortedByRow(us: seq<Update>) {
    forall i, j :: 0 <= i < j < |us| ==> us[i].rowNumber <= us[j].rowNumber
  }

  function Insert(us: seq<Update>, u: Update): (r: seq<Update>)
    requires SortedByRow(us)
    ensures SortedByRow(r) && |r| == |us| + 1
    ensures forall i :: 0 <= i < |r| ==> r[i] == u || r[i] in us
    decreases |us|
  {
    if us == [] || us[|us| - 1].rowNumber <= u.rowNumber then us + [u]
    else
      var front, last := us[..|us| - 1], us[|us| - 1];
      Insert(front, u) + [last]
  }

  function SortByRow(us: seq<Update>): (r: seq<Update>)
    ensures SortedByRow(r) && |r| == |us|
    decreases |us|
  {
    if us == [] then [] else Insert(SortByRow(us[..|us| - 1]), us[|us| - 1])
  }

  lemma ForSnoc(us: seq<Update>, u: Update, r: RowNumber)
    ensures For(us + [u], r) == For(us, r) + (if u.rowNumber == r then [u.values] else [])
  {
    assert (us + [u])[..|us|] == us;
  }

  lemma {:induction false} ForInsert(us: seq<Update>, u: Update, r: RowNumber)
    requires SortedByRow(us)
    ensures For(Insert(us, u), r) == For(us + [u], r)
    decreases |us|
  {
    if !(us == [] || us[|us| - 1].rowNumber <= u.rowNumber) {
      var front, last := us[..|us| - 1], us[|us| - 1];
      ForInsert(front, u, r);
      ForSnoc(Insert(front, u), last, r);
      ForSnoc(front, u, r);
      ForSnoc(front, last, r);
      ForSnoc(us, u, r);
      assert front + [last] == us;
    }
  }

  /** The sort is stable: each row still receives the same values in the same order. */
  lemma {:induction false} SortKeepsRowOrder(us: seq<Update>, r: RowNumber)
    ensures For(SortByRow(us), r) == For(us, r)
    decreases |us|
  {
    if us != [] {
      var front, last := us[..|us| - 1], us[|us| - 1];
      SortKeepsRowOrder(front, r);
      ForInsert(SortByRow(front), last, r);
      ForSnoc(SortByRow(front), last, r);
    }
  }

  /**
   Carrying out the sorted updates leaves the same tab as carrying out every buffered update
   one by one in buffer order, duplicate row numbers included.
   */
  lemma SortedPastesPreserveMeaning(t: Tab, us: seq<Update>)
    requires Canonical(t)
    ensures PasteAll(t, PastedUpdates(SortByRow(us))) == PasteAll(t, PastedUpdates(us))
  {
    forall r: RowNumber ensures For(PastedUpdates(SortByRow(us)), r) == For(PastedUpdates(us), r) {
      ForPasted(SortByRow(us), r);
      ForPasted(us, r);
      SortKeepsRowOrder(us, r);
    }
    SameForEveryRow(t, PastedUpdates(SortByRow(us)), PastedUpdates(us));
  }

  // ---- Grouping ----

  function LastRow(request: PasteRequest): int {
    request.rowIndex + |ParsePaste(request.data)|
  }

  /** No two neighbouring requests could have been one. */
  ghost predicate MaximalRuns(requests: seq<PasteRequest>) {
    forall i :: 0 < i < |requests| ==> requests[i].rowIndex != LastRow(requests[i - 1])
  }

  lemma AllEffectsSnoc(requests: seq<PasteRequest>, request: PasteRequest)
    ensures AllEffects(requests + [request]) == AllEffects(requests) + Effects(request)
  {
    assert (requests + [request])[..|requests|] == requests;
  }

  /** One request for a block of rows has the effect of its sanitized rows, top to bottom. */
  lemma BlockEffects(rowIndex: nat, rows: seq<Row>)
    requires rows != []
    ensures Effects(PasteRequest(rowIndex, Tsv(rows))) == PastedUpdates(Block(rowIndex + 1, rows))
    ensures |ParsePaste(Tsv(rows))| == |rows|
  {
    TsvRoundTrip(rows);
    var effects, expected := Effects(PasteRequest(rowIndex, Tsv(rows))), PastedUpdates(Block(rowIndex + 1, rows));
    forall i | 0 <= i < |rows| ensures effects[i] == expected[i] {
      assert ParsePaste(Tsv(rows))[i] == Pasted(rows[i]);
    }
    assert effects == expected;
  }

  /** Rows `sorted[lo..hi]` are consecutive. */
  predicate Run(sorted: seq<Update>, lo: nat, hi: nat)
    requires lo < hi <= |sorted|
  {
    forall i :: lo <= i < hi ==> sorted[i].rowNumber == sorted[lo].rowNumber + (i - lo)
  }

  function Values(us: seq<Update>): (rows: seq<Row>)
    ensures |rows| == |us|
  {
    seq(|us|, i requires 0 <= i < |us| => us[i].values)
  }

  lemma RunIsBlock(sorted: seq<Update>, lo: nat, hi: nat)
    requires lo < hi <= |sorted| && Run(sorted, lo, hi)
    ensures Block(sorted[lo].rowNumber, Values(sorted[lo..hi])) == sorted[lo..hi]
  {
  }

  /** The request for one run of consecutive rows. */
  method PasteRun(sorted: seq<Update>, lo: nat, hi: nat) returns (request: PasteRequest)
    requires lo < hi <= |sorted| && Run(sorted, lo, hi)
    ensures Effects(request) == PastedUpdates(sorted[lo..hi])
    ensures request.rowIndex + 1 == sorted[lo].rowNumber
    ensures LastRow(request) == sorted[hi - 1].rowNumber
  {
    hide Effects, PastedUpdates, Tsv, Block;
    var groupRows := Values(sorted[lo..hi]);
    var data := RowsToTsv(groupRows);
    request := PasteRequest(sorted[lo].rowNumber - 1, data);
    RunIsBlock(sorted, lo, hi);
    BlockEffects(sorted[lo].rowNumber - 1, groupRows);
  }

  lemma PastedUpdatesAppend(a: seq<Update>, b: seq<Update>)
    ensures PastedUpdates(a + b) == PastedUpdates(a) + PastedUpdates(b)
  {
  }

  lemma GroupsPreserveMeaning(updates: seq<Update>, requests: seq<PasteRequest>)
    requires AllEffects(requests) == PastedUpdates(SortByRow(updates))
    ensures forall t :: Canonical(t) ==> ApplyRequests(t, requests) == PasteAll(t, PastedUpdates(updates))
  {
    forall t | Canonical(t)
      ensures ApplyRequests(t, requests) == PasteAll(t, PastedUpdates(updates))
    {
      SortedPastesPreserveMeaning(t, updates);
    }
  }

  lemma GroupStep(requests: seq<PasteRequest>, request: PasteRequest, sorted: seq<Update>, start: nat, end: nat)
    requires start <= end <= |sorted|
    requires AllEffects(requests) == PastedUpdates(sorted[..start])
    requires Effects(request) == PastedUpdates(sorted[start..end])
    ensures AllEffects(requests + [request]) == PastedUpdates(sorted[..end])
  {
    AllEffectsSnoc(requests, request);
    PastedUpdatesAppend(sorted[..start], sorted[start..end]);
    assert sorted[..end] == sorted[..start] + sorted[start..end];
  }

  lemma NoGroups(sorted: seq<Update>)
    ensures AllEffects([]) == PastedUpdates(sorted[..0])
    ensures MaximalRuns([])
  {
  }

  lemma MaximalRunsSnoc(requests: seq<PasteRequest>, request: PasteRequest)
    requires MaximalRuns(requests)
    requires requests != [] ==> request.rowIndex != LastRow(requests[|requests| - 1])
    ensures MaximalRuns(requests + [request])
  {
  }

  /** The last index of the longest run of consecutive rows that starts at `groupStart`. */
  method FindGroupEnd(sorted: seq<Update>, groupStart: nat) returns (groupEnd: nat)
    requires groupStart < |sorted|
    ensures groupStart <= groupEnd < |sorted|
    ensures Run(sorted, groupStart, groupEnd + 1)
    ensures groupEnd + 1 < |sorted| ==> sorted[groupEnd + 1].rowNumber != sorted[groupEnd].rowNumber + 1
  {
    groupEnd := groupStart;
    while groupEnd + 1 < |sorted| && sorted[groupEnd + 1].rowNumber == sorted[groupEnd].rowNumber + 1
      invariant groupStart <= groupEnd < |sorted|
      invariant forall i :: groupStart <= i <= groupEnd ==>
        sorted[i].rowNumber == sorted[groupStart].rowNumber + (i - groupStart)
    {
      groupEnd := groupEnd + 1;
    }
  }

  /** One paste per maximal run of consecutive row numbers in the sorted updates. */
  method GroupUpdates(updates: seq<Update>) returns (requests: seq<PasteRequest>)
    ensures AllEffects(requests) == PastedUpdates(SortByRow(updates))
    ensures MaximalRuns(requests)
    ensures forall t :: Canonical(t) ==> ApplyRequests(t, requests) == PasteAll(t, PastedUpdates(updates))
  {
    hide *;
    requests := [];
    var sorted := SortByRow(updates);
    NoGroups(sorted);
    var groupStart := 0;
    while groupStart < |sorted|
      invariant groupStart <= |sorted|
      invariant AllEffects(requests) == PastedUpdates(sorted[..groupStart])
      invariant MaximalRuns(requests)
      invariant requests == [] <==> groupStart == 0
      invariant requests != [] ==> LastRow(requests[|requests| - 1]) == sorted[groupStart - 1].rowNumber
      invariant 0 < groupStart < |sorted| ==> sorted[groupStart].rowNumber != sorted[groupStart - 1].rowNumber + 1
    {
      var groupEnd := FindGroupEnd(sorted, groupStart);
      var request := PasteRun(sorted, groupStart, groupEnd + 1);
      GroupStep(requests, request, sorted, groupStart, groupEnd + 1);
      MaximalRunsSnoc(requests, request);
      requests := requests + [request];
      groupStart := groupEnd + 1;
    }
    assert sorted[..groupStart] == sorted;
    GroupsPreserveMeaning(updates, requests);
  }
}
