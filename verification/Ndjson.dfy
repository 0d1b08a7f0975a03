/**
 * Newline-delimited JSON: parsing a whole text, and parsing it as it arrives in chunks. JSON itself is a
 * parameter: `parse` gives no value for a text on which `JSON.parse` throws.
 */
module Ndjson {
  import opened Options
  import opened Sequences
  import opened Text

  /** The characters that `String.prototype.trim` removes. */
  const SPACES := "\t\n\U{b}\U{c}\r \U{a0}\U{1680}\U{2000}\U{2001}\U{2002}\U{2003}\U{2004}\U{2005}"
    + "\U{2006}\U{2007}\U{2008}\U{2009}\U{200a}\U{2028}\U{2029}\U{202f}\U{205f}\U{3000}\U{feff}"

  predicate IsSpace(c: char) {
    c in SPACES
  }

  function TrimStart(s: string): string {
    if s != [] && IsSpace(s[0]) then TrimStart(s[1..]) else s
  }

  function TrimEnd(s: string): string {
    if s != [] && IsSpace(s[|s| - 1]) then TrimEnd(s[..|s| - 1]) else s
  }

  function Trim(s: string): string {
    TrimEnd(TrimStart(s))
  }

  predicate AllSpace(s: string) {
    forall i :: 0 <= i < |s| ==> IsSpace(s[i])
  }

  lemma {:induction false} TrimStartPadded(pre: string, s: string)
    requires AllSpace(pre)
    ensures TrimStart(pre + s) == TrimStart(s)
    decreases |pre|
  {
    hide IsSpace;
    if pre == [] {
      assert pre + s == s;
    } else {
      assert (pre + s)[0] == pre[0] && (pre + s)[1..] == pre[1..] + s;
      TrimStartPadded(pre[1..], s);
    }
  }

  lemma {:induction false} TrimEndPadded(s: string, post: string)
    requires AllSpace(post)
    ensures TrimEnd(s + post) == TrimEnd(s)
    decreases |post|
  {
    hide IsSpace;
    if post == [] {
      assert s + post == s;
    } else {
      assert (s + post)[|s + post| - 1] == post[|post| - 1];
      assert (s + post)[..|s + post| - 1] == s + post[..|post| - 1];
      TrimEndPadded(s, post[..|post| - 1]);
    }
  }

  lemma {:induction false} TrimSuffix(s: string, post: string)
    requires AllSpace(post)
    ensures Trim(s + post) == Trim(s)
    decreases |s|
  {
    hide IsSpace, TrimEnd;
    if s == [] {
      assert s + post == post && post + [] == post;
      TrimStartPadded(post, []);
    } else if IsSpace(s[0]) {
      assert (s + post)[0] == s[0] && (s + post)[1..] == s[1..] + post;
      TrimSuffix(s[1..], post);
    } else {
      assert (s + post)[0] == s[0];
      TrimEndPadded(s, post);
    }
  }

  /** Spaces around a line, such as the carriage return of another platform, make no difference. */
  lemma PaddingIgnored<J>(parse: string -> Option<J>, p: Parsed<J>, pre: string, line: string, post: string)
    requires AllSpace(pre) && AllSpace(post)
    ensures WithLine(parse, p, pre + line + post) == WithLine(parse, p, line)
  {
    hide IsSpace;
    assert pre + line + post == pre + (line + post);
    TrimStartPadded(pre, line + post);
    TrimSuffix(line, post);
  }

  /** What a generator yielded, and whether it then threw on a line that is not JSON. */
  datatype Parsed<J> = Parsed(items: seq<J>, failed: bool)

  /** One more line; a generator that threw is finished. */
  function WithLine<J>(parse: string -> Option<J>, p: Parsed<J>, line: string): Parsed<J> {
    var trimmed := Trim(line);
    if p.failed || trimmed == [] then p
    else match parse(trimmed)
      case None => Parsed(p.items, true)
      case Some(item) => Parsed(p.items + [item], false)
  }

  function WithLines<J>(parse: string -> Option<J>, p: Parsed<J>, lines: seq<string>): Parsed<J>
    decreases |lines|
  {
    if lines == [] then p
    else WithLine(parse, WithLines(parse, p, lines[..|lines| - 1]), lines[|lines| - 1])
  }

  function Start<J>(): Parsed<J> {
    Parsed([], false)
  }

  /** The whole text, line by line. */
  function ParseText<J>(parse: string -> Option<J>, text: string): Parsed<J> {
    WithLines(parse, Start(), Split(text, '\n'))
  }

  lemma WithLinesSnoc<J>(parse: string -> Option<J>, p: Parsed<J>, lines: seq<string>, line: string)
    ensures WithLines(parse, p, lines + [line]) == WithLine(parse, WithLines(parse, p, lines), line)
  {
    assert (lines + [line])[..|lines|] == lines;
  }

  lemma {:induction false} WithLinesAppend<J>(parse: string -> Option<J>, p: Parsed<J>, a: seq<string>, b: seq<string>)
    ensures WithLines(parse, p, a + b) == WithLines(parse, WithLines(parse, p, a), b)
    decreases |b|
  {
    if b == [] {
      assert a + b == a;
    } else {
      FrontOfAppend(a, b);
      WithLinesAppend(parse, p, a, b[..|b| - 1]);
    }
  }

  lemma {:induction false} FailedIsFinal<J>(parse: string -> Option<J>, p: Parsed<J>, lines: seq<string>)
    requires p.failed
    ensures WithLines(parse, p, lines) == p
    decreases |lines|
  {
    if lines != [] {
      FailedIsFinal(parse, p, lines[..|lines| - 1]);
    }
  }

  /** A blank line, or one that is JSON. */
  predicate Readable<J>(parse: string -> Option<J>, line: string) {
    Trim(line) == [] || parse(Trim(line)).Some?
  }

  predicate AllReadable<J>(parse: string -> Option<J>, lines: seq<string>) {
    forall i :: 0 <= i < |lines| ==> Readable(parse, lines[i])
  }

  /** Parsing fails if and only if some line is neither blank nor JSON, and keeps what came before the first. */
  lemma {:induction false} FailsIff<J>(parse: string -> Option<J>, p: Parsed<J>, lines: seq<string>)
    requires !p.failed
    ensures WithLines(parse, p, lines).failed <==> !AllReadable(parse, lines)
    ensures forall i :: 0 <= i < |lines| && AllReadable(parse, lines[..i]) && !Readable(parse, lines[i]) ==>
      WithLines(parse, p, lines).items == WithLines(parse, p, lines[..i]).items
    decreases |lines|
  {
    hide Trim;
    if lines != [] {
      var front := lines[..|lines| - 1];
      FailsIff(parse, p, front);
      forall i | 0 <= i < |lines| && AllReadable(parse, lines[..i]) && !Readable(parse, lines[i])
        ensures WithLines(parse, p, lines).items == WithLines(parse, p, lines[..i]).items
      {
        if i < |front| {
          assert front[..i] == lines[..i] && front[i] == lines[i];
        }
      }
    }
  }

  lemma {:induction false} ItemsGrow<J>(parse: string -> Option<J>, p: Parsed<J>, lines: seq<string>)
    ensures p.items <= WithLines(parse, p, lines).items
    decreases |lines|
  {
    if lines != [] {
      ItemsGrow(parse, p, lines[..|lines| - 1]);
    }
  }

  lemma NoLines<J>(parse: string -> Option<J>, before: Parsed<J>, lines: seq<string>)
    ensures WithLines(parse, before, lines[..0]) == before
  {
  }

  lemma OneMoreLine<J>(parse: string -> Option<J>, before: Parsed<J>, lines: seq<string>, i: nat)
    requires i < |lines|
    ensures var p := WithLine(parse, WithLines(parse, before, lines[..i]), lines[i]);
      && WithLines(parse, before, lines[..i + 1]) == p
      && (p.failed ==> WithLines(parse, before, lines) == p)
  {
    hide WithLine, WithLines;
    var p := WithLine(parse, WithLines(parse, before, lines[..i]), lines[i]);
    TakeOneMore(lines, i);
    WithLinesSnoc(parse, before, lines[..i], lines[i]);
    if p.failed {
      FailedIsFinal(parse, p, lines[i + 1..]);
      WithLinesAppend(parse, before, lines[..i + 1], lines[i + 1..]);
      TakeDrop(lines, i + 1);
    }
  }

  /** `parseNdjson`: split the text, skip blank lines, parse the others. */
  method ParseNdjson<J>(parse: string -> Option<J>, text: string) returns (p: Parsed<J>)
    ensures p == ParseText(parse, text)
  {
    p := ParseLines(parse, Start(), Split(text, '\n'));
  }

  method ParseLines<J>(parse: string -> Option<J>, before: Parsed<J>, lines: seq<string>) returns (p: Parsed<J>)
    requires !before.failed
    ensures p == WithLines(parse, before, lines)
  {
    hide WithLines, Trim;
    p := before;
    NoLines(parse, before, lines);
    for i := 0 to |lines|
      invariant !p.failed && p == WithLines(parse, before, lines[..i])
    {
      OneMoreLine(parse, before, lines, i);
      var trimmed := Trim(lines[i]);
      if trimmed != [] {
        match parse(trimmed)
        case Some(item) =>
          p := Parsed(p.items + [item], false);
        case None =>
          p := Parsed(p.items, true);
          return;
      }
    }
    assert lines[..|lines|] == lines;
  }

  /** What is yielded once the complete lines of `text` have been parsed. */
  function Complete<J>(parse: string -> Option<J>, text: string): Parsed<J> {
    WithLines(parse, Start(), Front(Split(text, '\n')))
  }

  function Rest(text: string): string {
    Last(Split(text, '\n'))
  }

  /** Splitting the buffer and a new chunk gives the complete lines and the rest of the text so far. */
  lemma ChunkArrives<J>(parse: string -> Option<J>, text: string, chunk: string)
    ensures var lines := Split(Rest(text) + chunk, '\n');
      && Complete(parse, text + chunk) == WithLines(parse, Complete(parse, text), Front(lines))
      && Rest(text + chunk) == Last(lines)
  {
    var front, lines := Front(Split(text, '\n')), Split(Rest(text) + chunk, '\n');
    SplitAppend(text, chunk, '\n');
    assert Front(front + lines) == front + Front(lines);
    WithLinesAppend(parse, Start(), front, Front(lines));
  }

  lemma LastLine<J>(parse: string -> Option<J>, text: string)
    ensures ParseText(parse, text) == WithLine(parse, Complete(parse, text), Rest(text))
  {
  }

  /** A text on whose complete lines the parser fails stays failed, whatever follows. */
  lemma FailsEarly<J>(parse: string -> Option<J>, text: string, more: string)
    requires Complete(parse, text).failed
    ensures ParseText(parse, text + more) == Complete(parse, text)
  {
    ChunkArrives(parse, text, more);
    FailedIsFinal(parse, Complete(parse, text), Front(Split(Rest(text) + more, '\n')));
    LastLine(parse, text + more);
  }

  /** `parseNdjsonChunks`: however the text is cut, the same values, and the same failure. */
  method ParseNdjsonChunks<J>(parse: string -> Option<J>, chunks: seq<string>) returns (p: Parsed<J>)
    ensures p == ParseText(parse, Concat(chunks))
  {
    hide *;
    var buffer := "";
    p := Parsed([], false);
    NothingYet(parse);
    for i := 0 to |chunks|
      invariant !p.failed && p == Complete(parse, Concat(chunks[..i]))
      invariant buffer == Rest(Concat(chunks[..i]))
    {
      ghost var text := Concat(chunks[..i]);
      OneMoreChunk(chunks, i);
      ChunkArrives(parse, text, chunks[i]);
      var lines := Split(buffer + chunks[i], '\n');
      p := ParseLines(parse, p, Front(lines));
      if p.failed {
        FailsEarly(parse, text + chunks[i], Concat(chunks[i + 1..]));
        return;
      }
      buffer := Last(lines);
    }
    assert chunks[..|chunks|] == chunks;
    LastLine(parse, Concat(chunks));
    p := FinalLine(parse, p, buffer);
  }

  method FinalLine<J>(parse: string -> Option<J>, before: Parsed<J>, buffer: string) returns (p: Parsed<J>)
    requires !before.failed
    ensures p == WithLine(parse, before, buffer)
  {
    p := before;
    var trimmed := Trim(buffer);
    if trimmed != [] {
      match parse(trimmed)
      case Some(item) => p := Parsed(before.items + [item], false);
      case None => p := Parsed(before.items, true);
    }
  }

  lemma NothingYet<J>(parse: string -> Option<J>)
    ensures Concat<char>([]) == "" && Rest("") == "" && Complete(parse, "") == Parsed([], false)
  {
  }

  lemma OneMoreChunk(chunks: seq<string>, i: nat)
    requires i < |chunks|
    ensures Concat(chunks[..i + 1]) == Concat(chunks[..i]) + chunks[i]
    ensures Concat(chunks) == Concat(chunks[..i]) + chunks[i] + Concat(chunks[i + 1..])
  {
    hide Concat;
    TakeOneMore(chunks, i);
    ConcatSnoc(chunks[..i], chunks[i]);
    TakeDrop(chunks, i + 1);
    ConcatAppend(chunks[..i + 1], chunks[i + 1..]);
  }

  /** What has been yielded at any point of the stream is a prefix of what the whole text yields. */
  lemma YieldedIsPrefix<J>(parse: string -> Option<J>, text: string, more: string)
    ensures Complete(parse, text).items <= ParseText(parse, text + more).items
  {
    ChunkArrives(parse, text, more);
    ItemsGrow(parse, Complete(parse, text), Front(Split(Rest(text) + more, '\n')));
    LastLine(parse, text + more);
  }

  // ----- Round trip -----

  /** `print` writes a value as one line that `parse` reads back, as `JSON.stringify` does. */
  ghost predicate Prints<J(!new)>(parse: string -> Option<J>, print_: J -> string) {
    forall j :: PrintsOne(parse, print_, j)
  }

  predicate PrintsOne<J(==)>(parse: string -> Option<J>, print_: J -> string, j: J) {
    var s := print_(j);
    Without(s, '\n') && s != [] && Trim(s) == s && parse(s) == Some(j)
  }

  /** What `writeLine`, or the stream writer, sends for a list of values. */
  function Written<J>(print_: J -> string, items: seq<J>): string {
    if items == [] then "" else Written(print_, items[..|items| - 1]) + print_(items[|items| - 1]) + ['\n']
  }

  /** One line and its newline, where a line starts. */
  lemma LineEnds<J>(parse: string -> Option<J>, p: Parsed<J>, line: string)
    requires Without(line, '\n')
    ensures var lines := Split("" + (line + ['\n']), '\n');
      WithLines(parse, p, Front(lines)) == WithLine(parse, p, line) && Last(lines) == ""
  {
    hide Trim, WithLine;
    assert "" + (line + ['\n']) == line + ['\n'];
    SplitSinglePiece(line, '\n');
    SplitSnoc(line, '\n', '\n');
    assert Front([line] + [[]]) == [line];
    assert [] + [line] == [line];
    WithLinesSnoc(parse, p, [], line);
  }

  lemma {:induction false} WrittenIsComplete<J(!new)>(parse: string -> Option<J>, print_: J -> string, items: seq<J>)
    requires Prints(parse, print_)
    ensures Rest(Written(print_, items)) == ""
    ensures Complete(parse, Written(print_, items)) == Parsed(items, false)
  {
    if items == [] {
      NothingYet(parse);
    } else {
      var front, last := items[..|items| - 1], items[|items| - 1];
      var text, line := Written(print_, front), print_(last);
      assert PrintsOne(parse, print_, last);
      WrittenIsComplete(parse, print_, front);
      hide Trim, WithLines, Split, Complete, Rest, Prints, Written;
      ChunkArrives(parse, text, line + ['\n']);
      Associative(text, line, ['\n']);
      LineEnds(parse, Parsed(front, false), line);
      FrontLast(items);
    }
  }

  /** Values written as lines come back as they were, however the text is cut into chunks. */
  lemma WriteThenParse<J(!new)>(parse: string -> Option<J>, print_: J -> string, items: seq<J>, chunks: seq<string>)
    requires Prints(parse, print_) && Concat(chunks) == Written(print_, items)
    ensures ParseText(parse, Concat(chunks)) == Parsed(items, false)
  {
    WrittenIsComplete(parse, print_, items);
    LastLine(parse, Concat(chunks));
  }
}
