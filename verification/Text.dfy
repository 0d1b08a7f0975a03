/** Splitting text at a separator character, and joining it back. */
module Text {

  predicate Without(s: string, sep: char) {
    sep !in s
  }

  function Last(parts: seq<string>): string
    requires parts != []
  {
    parts[|parts| - 1]
  }

  function Front(parts: seq<string>): seq<string>
    requires parts != []
  {
    parts[..|parts| - 1]
  }

  /** The pieces after one more character. */
  function Extend(parts: seq<string>, c: char, sep: char): seq<string>
    requires parts != []
  {
    if c == sep then parts + [[]] else Front(parts) + [Last(parts) + [c]]
  }

  /** The pieces between separators; a text without any is one piece. */
  function Split(s: string, sep: char): (parts: seq<string>)
    ensures parts != []
  {
    if s == [] then [[]] else Extend(Split(s[..|s| - 1], sep), s[|s| - 1], sep)
  }

  lemma {:induction false} LastPieceWithout(s: string, sep: char)
    ensures Without(Last(Split(s, sep)), sep)
  {
    if s != [] {
      LastPieceWithout(s[..|s| - 1], sep);
    }
  }

  lemma SplitSnoc(s: string, c: char, sep: char)
    ensures Split(s + [c], sep) == Extend(Split(s, sep), c, sep)
  {
    assert (s + [c])[..|s|] == s;
  }

  lemma {:induction false} SplitSinglePiece(s: string, sep: char)
    requires Without(s, sep)
    ensures Split(s, sep) == [s]
  {
    if s != [] {
      SplitSinglePiece(s[..|s| - 1], sep);
      assert s[..|s| - 1] + [s[|s| - 1]] == s;
    }
  }

  lemma ExtendAppend(front: seq<string>, tail: seq<string>, c: char, sep: char)
    requires tail != []
    ensures Extend(front + tail, c, sep) == front + Extend(tail, c, sep)
  {
    assert Front(front + tail) == front + Front(tail);
  }

  /** Only the last, possibly unfinished piece of `a` can still change when `b` follows. */
  lemma {:induction false} SplitAppend(a: string, b: string, sep: char)
    ensures Split(a + b, sep) == Front(Split(a, sep)) + Split(Last(Split(a, sep)) + b, sep)
    decreases |b|
  {
    var front, last := Front(Split(a, sep)), Last(Split(a, sep));
    if b == [] {
      LastPieceWithout(a, sep);
      SplitSinglePiece(last, sep);
      assert a + b == a && last + b == last;
    } else {
      var b', c := b[..|b| - 1], b[|b| - 1];
      calc {
        Split(a + b, sep);
      ==  { assert a + b == (a + b') + [c]; SplitSnoc(a + b', c, sep); }
        Extend(Split(a + b', sep), c, sep);
      ==  { SplitAppend(a, b', sep); }
        Extend(front + Split(last + b', sep), c, sep);
      ==  { ExtendAppend(front, Split(last + b', sep), c, sep); }
        front + Extend(Split(last + b', sep), c, sep);
      ==  { SplitSnoc(last + b', c, sep); assert last + b == (last + b') + [c]; }
        front + Split(last + b, sep);
      }
    }
  }

  function Join(parts: seq<string>, sep: char): string {
    if parts == [] then ""
    else if |parts| == 1 then parts[0]
    else Join(Front(parts), sep) + [sep] + Last(parts)
  }

  lemma JoinSnoc(parts: seq<string>, p: string, sep: char)
    requires parts != []
    ensures Join(parts + [p], sep) == Join(parts, sep) + [sep] + p
  {
    assert Front(parts + [p]) == parts;
  }

  /** Splitting undoes joining when no piece holds the separator. */
  lemma {:induction false} SplitJoin(parts: seq<string>, sep: char)
    requires parts != []
    requires forall i :: 0 <= i < |parts| ==> Without(parts[i], sep)
    ensures Split(Join(parts, sep), sep) == parts
  {
    if |parts| == 1 {
      SplitSinglePiece(parts[0], sep);
    } else {
      var front, last := Front(parts), Last(parts);
      SplitJoin(front, sep);
      var head := Join(front, sep) + [sep];
      SplitSnoc(Join(front, sep), sep, sep);
      SplitAppend(head, last, sep);
      assert Front(Split(head, sep)) == front && Last(Split(head, sep)) + last == last;
      SplitSinglePiece(last, sep);
      assert front + [last] == parts;
    }
  }
}
