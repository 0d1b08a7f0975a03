/** Rows of a keyed stream: their key, their staleness stamp, and how they are stored. */
module SheetRows {
  import opened Options
  import opened SheetGrid
  import opened SheetPaste

  type Key = seq<string>

  /**
   A keyed stream.  `key` and `newer` are header positions; `num` stands for the numeric
   reading of a cell (none when it is not a finite number), and `isStamp` for the stamps that
   the source uses.
   */
  datatype Stream = Stream(
    width: nat,
    key: seq<nat>,
    newer: Option<nat>,
    isStamp: string -> bool,
    num: string -> Option<real>)

  ghost predicate ValidStream(s: Stream) {
    && s.key != []
    && (forall i :: 0 <= i < |s.key| ==> s.key[i] < s.width)
    && (s.newer.Some? ==> s.newer.value < s.width)
    && Orderly(s.num, s.isStamp)
    && BlankIsLeast(s.num, s.isStamp)
  }

  function Cell(row: Row, c: nat): string {
    At(row, c, "")
  }

  function KeyOf(s: Stream, row: Row): (k: Key)
    ensures |k| == |s.key| && forall i :: 0 <= i < |k| ==> k[i] == Cell(row, s.key[i])
  {
    seq(|s.key|, i requires 0 <= i < |s.key| => Cell(row, s.key[i]))
  }

  predicate KeyPresent(s: Stream, row: Row) {
    forall i :: 0 <= i < |s.key| ==> Cell(row, s.key[i]) != ""
  }

  // ---- Staleness ----

  function LexLess(a: string, b: string): bool {
    if b == "" then false
    else if a == "" then true
    else if a[0] != b[0] then a[0] < b[0]
    else LexLess(a[1..], b[1..])
  }

  /** Numeric comparison for two finite numbers, else lexicographic; a blank `existing` always loses. */
  function IsStrictlyNewer(num: string -> Option<real>, incoming: string, existing: string): bool {
    if existing == "" then true
    else
      match (num(incoming), num(existing))
      case (Some(a), Some(b)) => a > b
      case _ => LexLess(existing, incoming)
  }

  /** A stamp of the stream, or none. */
  predicate GoodStamp(s: Stream, cell: string) {
    cell == "" || (Clean(cell) && s.isStamp(cell))
  }

  /** If a blank reads as a number, no stamp is a smaller one. */
  ghost predicate BlankIsLeast(num: string -> Option<real>, isStamp: string -> bool) {
    forall x :: isStamp(x) && num("").Some? && num(x).Some? ==> num("").value <= num(x).value
  }

  /**
   Between two numbers the comparison is numeric, elsewhere it goes by text: the number `x` beats
   the other text `c` and `c` beats the number `y`, though `x` is no greater than `y`.
   */
  predicate Tangled(num: string -> Option<real>, x: string, c: string, y: string) {
    && num(x).Some? && num(c).None? && num(y).Some?
    && LexLess(y, c) && LexLess(c, x)
    && num(x).value <= num(y).value
  }

  /** No three stamps are tangled.  Stamps that are all numbers, or all not, are orderly. */
  ghost predicate Orderly(num: string -> Option<real>, isStamp: string -> bool) {
    forall x, c, y {:trigger Tangled(num, x, c, y)} ::
      isStamp(x) && isStamp(c) && isStamp(y) && x != "" && c != "" && y != "" ==> !Tangled(num, x, c, y)
  }

  /** "Strictly newer" and its negation are both transitive on the stamps: they are in one order, ties included. */
  ghost predicate Ordered(num: string -> Option<real>, isStamp: string -> bool) {
    forall a, b, c {:trigger OrderedAt(num, a, b, c)} ::
      isStamp(a) && isStamp(b) && isStamp(c) && a != "" && b != "" && c != "" ==> OrderedAt(num, a, b, c)
  }

  predicate OrderedAt(num: string -> Option<real>, a: string, b: string, c: string) {
    && (IsStrictlyNewer(num, a, b) && IsStrictlyNewer(num, b, c) ==> IsStrictlyNewer(num, a, c))
    && (!IsStrictlyNewer(num, a, b) && !IsStrictlyNewer(num, b, c) ==> !IsStrictlyNewer(num, a, c))
  }

  /** Whether `incoming` replaces `existing`. */
  predicate Beats(s: Stream, incoming: Row, existing: Row) {
    s.newer.None? || IsStrictlyNewer(s.num, Cell(incoming, s.newer.value), Cell(existing, s.newer.value))
  }

  lemma {:induction false} LexIrreflexive(a: string)
    ensures !LexLess(a, a)
  {
    if a != "" { LexIrreflexive(a[1..]); }
  }

  lemma {:induction false} LexTransitive(a: string, b: string, c: string)
    requires LexLess(a, b) && LexLess(b, c)
    ensures LexLess(a, c)
  {
    if a != "" && b != "" && c != "" && a[0] == b[0] == c[0] {
      LexTransitive(a[1..], b[1..], c[1..]);
    }
  }

  lemma {:induction false} LexTotal(a: string, b: string)
    ensures LexLess(a, b) || LexLess(b, a) || a == b
  {
    if a != "" && b != "" && a[0] == b[0] {
      LexTotal(a[1..], b[1..]);
      assert a == [a[0]] + a[1..] && b == [b[0]] + b[1..];
    }
  }

  /** "Newer" carries over `b` unless one of these three triples is tangled. */
  lemma NewerThrough(num: string -> Option<real>, a: string, b: string, c: string)
    requires a != "" && b != "" && c != ""
    requires !Tangled(num, a, b, c) && !Tangled(num, b, c, a) && !Tangled(num, c, a, b)
    requires IsStrictlyNewer(num, a, b) && IsStrictlyNewer(num, b, c)
    ensures IsStrictlyNewer(num, a, c)
  {
    LexTotal(a, c);
    if LexLess(b, a) && LexLess(c, b) {
      LexTransitive(c, b, a);
    }
  }

  lemma NotNewerThrough(num: string -> Option<real>, a: string, b: string, c: string)
    requires a != "" && b != "" && c != ""
    requires !Tangled(num, a, b, c) && !Tangled(num, b, c, a) && !Tangled(num, c, a, b)
    requires !Tangled(num, c, b, a) && !Tangled(num, b, a, c) && !Tangled(num, a, c, b)
    requires !IsStrictlyNewer(num, a, b) && !IsStrictlyNewer(num, b, c)
    ensures !IsStrictlyNewer(num, a, c)
  {
    if IsStrictlyNewer(num, a, c) {
      LexTotal(a, b);
      LexTotal(b, c);
      if LexLess(c, a) && LexLess(a, b) {
        LexTransitive(c, a, b);
      }
      if LexLess(b, c) && LexLess(c, a) {
        LexTransitive(b, c, a);
      }
    }
  }

  /** The stamps are in one order if and only if no three of them are tangled. */
  lemma OrderedIffOrderly(num: string -> Option<real>, isStamp: string -> bool)
    ensures Ordered(num, isStamp) <==> Orderly(num, isStamp)
  {
    if Ordered(num, isStamp) {
      forall x, c, y | isStamp(x) && isStamp(c) && isStamp(y) && x != "" && c != "" && y != ""
        ensures !Tangled(num, x, c, y)
      {
        assert OrderedAt(num, x, c, y);
      }
    }
    if Orderly(num, isStamp) {
      forall a, b, c | isStamp(a) && isStamp(b) && isStamp(c) && a != "" && b != "" && c != ""
        ensures OrderedAt(num, a, b, c)
      {
        OrderlyAt(num, isStamp, a, b, c);
      }
    }
  }

  lemma OrderlyAt(num: string -> Option<real>, isStamp: string -> bool, a: string, b: string, c: string)
    requires Orderly(num, isStamp) && isStamp(a) && isStamp(b) && isStamp(c) && a != "" && b != "" && c != ""
    ensures OrderedAt(num, a, b, c)
  {
    hide IsStrictlyNewer, LexLess;
    assert !Tangled(num, a, b, c) && !Tangled(num, b, c, a) && !Tangled(num, c, a, b);
    assert !Tangled(num, c, b, a) && !Tangled(num, b, a, c) && !Tangled(num, a, c, b);
    if IsStrictlyNewer(num, a, b) && IsStrictlyNewer(num, b, c) {
      NewerThrough(num, a, b, c);
    }
    if !IsStrictlyNewer(num, a, b) && !IsStrictlyNewer(num, b, c) {
      NotNewerThrough(num, a, b, c);
    }
  }

  /** A blank beats no stamp if and only if it is least among them. */
  lemma BlankIsLeastIff(num: string -> Option<real>, isStamp: string -> bool)
    ensures BlankIsLeast(num, isStamp) <==> forall x :: isStamp(x) && x != "" ==> !IsStrictlyNewer(num, "", x)
  {
    if forall x :: isStamp(x) && x != "" ==> !IsStrictlyNewer(num, "", x) {
      forall x | isStamp(x) && num("").Some? && num(x).Some? ensures num("").value <= num(x).value {
        assert x != "" ==> !IsStrictlyNewer(num, "", x);
      }
    }
  }

  /** On stamps of one stream, "newer" is transitive, and so is its negation; a blank is older than all of them. */
  lemma NewerTransitive(s: Stream, a: string, b: string, c: string)
    requires Orderly(s.num, s.isStamp) && BlankIsLeast(s.num, s.isStamp)
    requires GoodStamp(s, a) && GoodStamp(s, b) && GoodStamp(s, c)
    requires IsStrictlyNewer(s.num, a, b) && IsStrictlyNewer(s.num, b, c)
    ensures IsStrictlyNewer(s.num, a, c)
  {
    if a != "" && b != "" && c != "" {
      OrderlyAt(s.num, s.isStamp, a, b, c);
    }
  }

  lemma NotNewerTransitive(s: Stream, a: string, b: string, c: string)
    requires Orderly(s.num, s.isStamp) && BlankIsLeast(s.num, s.isStamp)
    requires GoodStamp(s, a) && GoodStamp(s, b) && GoodStamp(s, c)
    requires !IsStrictlyNewer(s.num, a, b) && !IsStrictlyNewer(s.num, b, c)
    ensures !IsStrictlyNewer(s.num, a, c)
  {
    if a != "" {
      OrderlyAt(s.num, s.isStamp, a, b, c);
    }
  }

  lemma NewerIrreflexive(s: Stream, a: string)
    requires a != ""
    ensures !IsStrictlyNewer(s.num, a, a)
  {
    LexIrreflexive(a);
  }

  // ---- What "newer" means ----

  /** Text `a` comes before `b`: it is the beginning of `b`, or smaller at the first character that differs. */
  ghost predicate TextBefore(a: string, b: string) {
    exists n: nat :: SplitsAt(a, b, n)
  }

  predicate SplitsAt(a: string, b: string, n: nat) {
    n <= |a| && n < |b| && a[..n] == b[..n] && (n == |a| || a[n] < b[n])
  }

  lemma {:induction false} LexLessIff(a: string, b: string)
    ensures LexLess(a, b) <==> TextBefore(a, b)
  {
    if a == "" && b != "" {
      assert SplitsAt(a, b, 0);
    } else if a != "" && b != "" {
      if a[0] == b[0] {
        LexLessIff(a[1..], b[1..]);
        assert a == [a[0]] + a[1..] && b == [b[0]] + b[1..];
        if n: nat :| SplitsAt(a[1..], b[1..], n) {
          assert a[..n + 1] == [a[0]] + a[1..][..n] && b[..n + 1] == [b[0]] + b[1..][..n];
          assert SplitsAt(a, b, n + 1);
        }
        if n: nat :| SplitsAt(a, b, n) && n > 0 {
          assert a[1..][..n - 1] == a[..n][1..] && b[1..][..n - 1] == b[..n][1..];
          assert SplitsAt(a[1..], b[1..], n - 1);
        }
      } else {
        assert SplitsAt(a, b, 0) <==> a[0] < b[0];
        forall n: nat | n > 0 ensures !SplitsAt(a, b, n) {
          assert n <= |a| && n < |b| ==> a[..n][0] == a[0] && b[..n][0] == b[0];
        }
      }
    }
  }

  /** Any stamp replaces a blank; numbers go by value; everything else goes by text. */
  lemma NewerMeans(num: string -> Option<real>, incoming: string, existing: string)
    ensures existing == "" ==> IsStrictlyNewer(num, incoming, existing)
    ensures existing != "" && num(incoming).Some? && num(existing).Some? ==>
      (IsStrictlyNewer(num, incoming, existing) <==> num(existing).value < num(incoming).value)
    ensures existing != "" && !(num(incoming).Some? && num(existing).Some?) ==>
      (IsStrictlyNewer(num, incoming, existing) <==> TextBefore(existing, incoming))
  {
    LexLessIff(existing, incoming);
  }

  /**
   Mixing numbers and other texts breaks the order: some three cells each beat the next in
   a circle, so "the newest" of them does not exist.
   */
  lemma MixedStampsCycle(num: string -> Option<real>)
    requires num("9") == Some(9.0) && num("10") == Some(10.0) && num("1a") == None
    ensures IsStrictlyNewer(num, "10", "9") && IsStrictlyNewer(num, "1a", "10") && IsStrictlyNewer(num, "9", "1a")
    ensures Tangled(num, "9", "1a", "10")
  {
    assert "10"[1..] == "0" && "1a"[1..] == "a";
  }

  // ---- Rows ----

  /** A row built from a record: header-width, with all key cells, and a proper stamp or none. */
  predicate Buildable(s: Stream, row: Row) {
    && |row| == s.width
    && KeyPresent(s, row)
    && (s.newer.Some? ==> GoodStamp(s, Cell(row, s.newer.value)))
  }

  /** A paste keeps the key. */
  predicate CleanKey(s: Stream, row: Row) {
    forall i :: 0 <= i < |s.key| ==> Clean(Cell(row, s.key[i]))
  }

  /** How the tab shows a row after it was pasted over an older row of the stream. */
  function Stored(row: Row): (r: Row)
    ensures NoBlankEnd(r, "")
  {
    TrimEnd(SanitizeRow(row), "")
  }

  predicate CleanRow(row: Row) {
    forall c :: 0 <= c < |row| ==> Clean(row[c])
  }

  /** A data row of a tab kept by this stream. */
  predicate DataRow(s: Stream, row: Row) {
    && NoBlankEnd(row, "")
    && |row| <= s.width
    && KeyPresent(s, row)
    && CleanRow(row)
    && (s.newer.Some? ==> GoodStamp(s, Cell(row, s.newer.value)))
  }

  lemma StoredCell(row: Row, c: nat)
    ensures Cell(Stored(row), c) == SanitizeForPaste(Cell(row, c))
  {
    assert At(TrimEnd(SanitizeRow(row), ""), c, "") == At(SanitizeRow(row), c, "");
    assert SanitizeForPaste("") == "";
  }

  lemma CleanRowByCell(row: Row)
    requires forall c: nat :: Clean(Cell(row, c))
    ensures CleanRow(row)
  {
    forall c | 0 <= c < |row| ensures Clean(row[c]) {
      assert Clean(Cell(row, c));
    }
  }

  lemma SameKey(s: Stream, a: Row, b: Row)
    requires forall i :: 0 <= i < |s.key| ==> Cell(a, s.key[i]) == Cell(b, s.key[i])
    ensures KeyOf(s, a) == KeyOf(s, b)
  {
  }

  /** Whether a paste keeps a key depends on the key alone, and the keys of a tab are kept. */
  lemma SameKeyIsClean(s: Stream, a: Row, b: Row)
    requires KeyOf(s, a) == KeyOf(s, b) && (CleanKey(s, b) || CleanRow(b))
    ensures CleanKey(s, a)
  {
    forall i | 0 <= i < |s.key| ensures Clean(Cell(a, s.key[i])) {
      assert KeyOf(s, a)[i] == KeyOf(s, b)[i];
    }
  }

  /** A stored row still has its record's key if and only if no key cell holds a delimiter. */
  lemma StoredKeyIff(s: Stream, row: Row)
    ensures KeyOf(s, Stored(row)) == KeyOf(s, row) <==> CleanKey(s, row)
  {
    forall i | 0 <= i < |s.key|
      ensures KeyOf(s, Stored(row))[i] == SanitizeForPaste(KeyOf(s, row)[i])
    {
      StoredCell(row, s.key[i]);
    }
    if KeyOf(s, Stored(row)) == KeyOf(s, row) {
      forall i | 0 <= i < |s.key| ensures Clean(Cell(row, s.key[i])) {
        assert KeyOf(s, row)[i] == SanitizeForPaste(KeyOf(s, row)[i]);
      }
    } else if CleanKey(s, row) {
      forall i | 0 <= i < |s.key| ensures Cell(Stored(row), s.key[i]) == Cell(row, s.key[i]) {
        StoredCell(row, s.key[i]);
      }
      SameKey(s, Stored(row), row);
    }
  }

  /** A pasted cell reads as it was if and only if it holds no delimiter. */
  lemma StoredCellIff(row: Row, c: nat)
    ensures Cell(Stored(row), c) == Cell(row, c) <==> Clean(Cell(row, c))
  {
    StoredCell(row, c);
  }

  /** What a paste leaves of a record's row is a data row with its stamp, and with its key if that is clean. */
  lemma StoredIsDataRow(s: Stream, row: Row)
    requires ValidStream(s) && Buildable(s, row)
    ensures DataRow(s, Stored(row))
    ensures KeyOf(s, Stored(row)) == KeyOf(s, row) <==> CleanKey(s, row)
    ensures s.newer.Some? ==> Cell(Stored(row), s.newer.value) == Cell(row, s.newer.value)
  {
    forall c: nat ensures Clean(Cell(Stored(row), c)) {
      StoredCell(row, c);
    }
    CleanRowByCell(Stored(row));
    forall i | 0 <= i < |s.key| ensures Cell(Stored(row), s.key[i]) != "" {
      StoredCell(row, s.key[i]);
    }
    StoredKeyIff(s, row);
    if s.newer.Some? {
      StoredCell(row, s.newer.value);
    }
  }

  /** Pasting a record's row replaces whatever data row was there. */
  lemma PasteReplaces(s: Stream, prior: Row, row: Row)
    requires ValidStream(s) && |row| == s.width && |prior| <= s.width
    ensures Overlay(prior, Pasted(row)) == Stored(row)
  {
    assert 0 <= s.key[0] < s.width;
    OverlayCovers(prior, Pasted(row));
  }

  /** A data row reaches past its key columns. */
  lemma KeyInside(s: Stream, row: Row, i: nat)
    requires KeyPresent(s, row) && i < |s.key|
    ensures s.key[i] < |row|
  {
    assert Cell(row, s.key[i]) != "";
  }

  /** Pasting one data row over another keeps the pasted row's key, even when a longer old row shows through. */
  lemma OverlayIsDataRow(s: Stream, prior: Row, row: Row)
    requires ValidStream(s) && DataRow(s, prior) && DataRow(s, row)
    ensures DataRow(s, Overlay(prior, row)) && KeyOf(s, Overlay(prior, row)) == KeyOf(s, row)
  {
    var r := Overlay(prior, row);
    forall c: nat ensures Clean(Cell(r, c)) {
      OverlayCell(prior, row, c);
    }
    CleanRowByCell(r);
    forall i | 0 <= i < |s.key| ensures Cell(r, s.key[i]) == Cell(row, s.key[i]) {
      OverlayCell(prior, row, s.key[i]);
      KeyInside(s, row, i);
    }
    SameKey(s, r, row);
    if s.newer.Some? {
      OverlayCell(prior, row, s.newer.value);
    }
    var whole := row + (if |prior| <= |row| then [] else prior[|row|..]);
    assert |r| <= |whole|;
  }

  /** A data row read back from the tab pastes as itself. */
  lemma DataRowPastesAsItself(s: Stream, row: Row)
    requires ValidStream(s) && DataRow(s, row)
    ensures Pasted(row) == row
  {
    KeyInside(s, row, 0);
    assert SanitizeRow(row) == row;
  }
}
