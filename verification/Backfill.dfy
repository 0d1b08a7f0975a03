/** Sequential cursor pagination: what it emits, what it saves, and what resuming covers. */
module Backfill {
  import opened Options

  type Cursor = string

  datatype Item = Item(id: string, data: string)

  datatype Request = Request(limit: Option<nat>, startingAfter: Option<Cursor>)

  datatype Response = Response(data: seq<Item>, hasMore: bool, pageCursor: Option<Cursor>)

  /**
   A list endpoint over a fixed listing.  `position` says how much of the listing precedes the
   items after a cursor; page sizes and opaque page cursors are the server's choice.
   */
  datatype Server = Server(
    listing: seq<Item>,
    position: Cursor -> nat,
    pageEnd: nat -> nat,
    pageCursor: nat -> Option<Cursor>)

  /** Pages follow the listing; a page that announces more is not empty. */
  ghost predicate Faithful(s: Server) {
    && (forall c {:trigger s.position(c)} :: s.position(c) <= |s.listing|)
    && (forall p: nat {:trigger s.pageEnd(p)} :: p <= |s.listing| ==> p <= s.pageEnd(p) <= |s.listing|)
    && (forall p: nat {:trigger s.pageEnd(p)} :: p <= |s.listing| && s.pageEnd(p) < |s.listing| ==> p < s.pageEnd(p))
    && (forall i: nat :: i < |s.listing| ==> s.listing[i].id != "" && s.position(s.listing[i].id) == i + 1)
    && (forall e: nat {:trigger s.pageCursor(e)} :: s.pageCursor(e).Some? ==>
          s.pageCursor(e).value != "" && (e <= |s.listing| ==> s.position(s.pageCursor(e).value) == e))
  }

  function PositionOf(s: Server, cursor: Option<Cursor>): nat {
    match cursor
    case None => 0
    case Some(c) => s.position(c)
  }

  function Respond(s: Server, r: Request): Response
    requires Faithful(s)
  {
    var p := PositionOf(s, r.startingAfter);
    var e := s.pageEnd(p);
    Response(s.listing[p..e], e < |s.listing|, s.pageCursor(e))
  }

  /** How the endpoint is used. */
  datatype Mode = Mode(forward: bool, supportsLimit: bool, backfillLimit: Option<nat>)

  /** Without forward pagination a request carries no cursor. */
  function RequestAt(m: Mode, cursor: Option<Cursor>): Request {
    Request(if m.forward && m.supportsLimit then Some(100) else None,
            if m.forward && cursor != Some("") then cursor else None)
  }

  function NextCursor(r: Response): Option<Cursor> {
    if r.pageCursor.Some? && r.pageCursor.value != "" then r.pageCursor
    else if r.data != [] then Some(r.data[|r.data| - 1].id)
    else None
  }

  /** A limit of zero is no limit. */
  predicate LimitReached(m: Mode, total: nat) {
    m.backfillLimit.Some? && m.backfillLimit.value > 0 && total >= m.backfillLimit.value
  }

  predicate GoesOn(m: Mode, r: Response, total: nat) {
    m.forward && r.hasMore && !LimitReached(m, total)
  }

  /** A checkpoint holds what remains: nothing, or the range with its cursor. */
  datatype Output = Emit(item: Item) | Checkpoint(remaining: Remaining) | RangeComplete

  datatype Remaining = Done | From(cursor: Option<Cursor>)

  function Emits(items: seq<Item>): (r: seq<Output>)
    ensures |r| == |items| && forall i :: 0 <= i < |r| ==> r[i] == Emit(items[i])
  {
    seq(|items|, i requires 0 <= i < |items| => Emit(items[i]))
  }

  // ---- The plain form: one request per page, no prefetching ----

  lemma PageAdvances(s: Server, m: Mode, cursor: Option<Cursor>, total: nat)
    requires Faithful(s) && cursor != Some("")
    ensures var r := Respond(s, RequestAt(m, cursor));
            GoesOn(m, r, total) ==>
              && NextCursor(r).Some? && NextCursor(r) != Some("")
              && PositionOf(s, NextCursor(r)) == s.pageEnd(PositionOf(s, cursor))
              && PositionOf(s, cursor) < PositionOf(s, NextCursor(r)) <= |s.listing|
  {
    var r := Respond(s, RequestAt(m, cursor));
    var p := PositionOf(s, cursor);
    if GoesOn(m, r, total) {
      var e := s.pageEnd(p);
      assert r.data[|r.data| - 1] == s.listing[e - 1];
    }
  }

  function Outputs(s: Server, m: Mode, cursor: Option<Cursor>, total: nat): seq<Output>
    requires Faithful(s) && cursor != Some("")
    decreases |s.listing| - PositionOf(s, cursor)
  {
    var r := Respond(s, RequestAt(m, cursor));
    var total' := total + |r.data|;
    PageAdvances(s, m, cursor, total');
    Emits(r.data) +
    if GoesOn(m, r, total') then [Checkpoint(From(NextCursor(r)))] + Outputs(s, m, NextCursor(r), total')
    else [Checkpoint(Done), RangeComplete]
  }

  function Requests(s: Server, m: Mode, cursor: Option<Cursor>, total: nat): seq<Request>
    requires Faithful(s) && cursor != Some("")
    decreases |s.listing| - PositionOf(s, cursor)
  {
    var r := Respond(s, RequestAt(m, cursor));
    var total' := total + |r.data|;
    PageAdvances(s, m, cursor, total');
    [RequestAt(m, cursor)] + if GoesOn(m, r, total') then Requests(s, m, NextCursor(r), total') else []
  }

  // ---- The loop ----

  /** What is still to be emitted. */
  function OutputsLeft(s: Server, m: Mode, goOn: bool, cursor: Option<Cursor>, total: nat): seq<Output>
    requires Faithful(s) && (goOn ==> cursor != Some(""))
  {
    if goOn then Outputs(s, m, cursor, total) else [RangeComplete]
  }

  /** What is still to be requested, when the next page may have been requested already. */
  function RequestsLeft(
    s: Server, m: Mode, goOn: bool, prefetched: bool, cursor: Option<Cursor>, total: nat): seq<Request>
    requires Faithful(s) && (goOn ==> cursor != Some(""))
  {
    if !goOn then []
    else if prefetched then Requests(s, m, cursor, total)[1..]
    else Requests(s, m, cursor, total)
  }

  lemma OutputsStep(s: Server, m: Mode, cursor: Option<Cursor>, total: nat, emitted: seq<Output>)
    requires Faithful(s) && cursor != Some("")
    ensures var r := Respond(s, RequestAt(m, cursor));
            var total' := total + |r.data|;
            var goOn := GoesOn(m, r, total');
            && (goOn ==> NextCursor(r) != Some(""))
            && emitted + Emits(r.data) + [Checkpoint(if goOn then From(NextCursor(r)) else Done)] +
                 OutputsLeft(s, m, goOn, NextCursor(r), total') ==
               emitted + Outputs(s, m, cursor, total)
  {
    hide Respond, RequestAt, GoesOn, NextCursor, Emits, Faithful;
    var r := Respond(s, RequestAt(m, cursor));
    PageAdvances(s, m, cursor, total + |r.data|);
  }

  lemma RequestsStep(
    s: Server, m: Mode, cursor: Option<Cursor>, total: nat, prefetched: bool, ahead: bool, sent: seq<Request>)
    requires Faithful(s) && cursor != Some("")
    ensures var r := Respond(s, RequestAt(m, cursor));
            var total' := total + |r.data|;
            var goOn := GoesOn(m, r, total');
            && (goOn ==> NextCursor(r) != Some(""))
            && ((ahead ==> goOn) ==>
                 sent + (if prefetched then [] else [RequestAt(m, cursor)]) +
                   (if ahead then [RequestAt(m, NextCursor(r))] else []) +
                   RequestsLeft(s, m, goOn, ahead, NextCursor(r), total') ==
                 sent + RequestsLeft(s, m, true, prefetched, cursor, total))
  {
    hide Respond, RequestAt, GoesOn, NextCursor, Faithful, Requests;
    var r := Respond(s, RequestAt(m, cursor));
    PageAdvances(s, m, cursor, total + |r.data|);
    RequestsUnfold(s, m, cursor, total);
    RequestsUnfold(s, m, NextCursor(r), total + |r.data|);
    if GoesOn(m, r, total + |r.data|) {
      var left := Requests(s, m, NextCursor(r), total + |r.data|);
      SentAhead(sent, RequestAt(m, cursor), left, prefetched);
    }
  }

  lemma SentAhead(sent: seq<Request>, request: Request, left: seq<Request>, prefetched: bool)
    requires left != []
    ensures var now := if prefetched then [] else [request];
      && sent + now + left == sent + (if prefetched then ([request] + left)[1..] else [request] + left)
      && sent + now + [left[0]] + left[1..] == sent + now + left
  {
  }

  lemma RequestsUnfold(s: Server, m: Mode, cursor: Option<Cursor>, total: nat)
    requires Faithful(s)
    ensures cursor != Some("") ==>
      var r := Respond(s, RequestAt(m, cursor));
      var total' := total + |r.data|;
      && (GoesOn(m, r, total') ==> NextCursor(r) != Some(""))
      && Requests(s, m, cursor, total) == [RequestAt(m, cursor)] +
           if GoesOn(m, r, total') then Requests(s, m, NextCursor(r), total') else []
  {
    hide Respond, RequestAt, GoesOn, NextCursor, Faithful;
    if cursor != Some("") {
      PageAdvances(s, m, cursor, total + |Respond(s, RequestAt(m, cursor)).data|);
    }
  }

  /**
   The pagination loop.  The next page is requested before the current one is emitted, unless a
   limit may stop the loop; requests and output are those of the plain form.
   */
  method PaginateSequential(s: Server, m: Mode, start: Option<Cursor>)
    returns (outputs: seq<Output>, requests: seq<Request>)
    requires Faithful(s) && start != Some("")
    ensures outputs == Outputs(s, m, start, 0)
    ensures requests == Requests(s, m, start, 0)
  {
    hide Outputs, Requests, RequestsLeft, Respond, RequestAt, NextCursor, Emits, Faithful;
    outputs, requests := [], [];
    EverythingLeft(s, m, start);
    var cursor, hasMore := start, true;
    var totalEmitted: nat := 0;
    var prefetched: Option<Response> := None;
    while hasMore
      invariant hasMore ==> cursor != Some("")
      invariant outputs + OutputsLeft(s, m, hasMore, cursor, totalEmitted) == Outputs(s, m, start, 0)
      invariant requests + RequestsLeft(s, m, hasMore, prefetched.Some?, cursor, totalEmitted) ==
          Requests(s, m, start, 0)
      invariant prefetched.Some? ==> hasMore && prefetched.value == Respond(s, RequestAt(m, cursor))
      decreases hasMore, |s.listing| - PositionOf(s, cursor)
    {
      ghost var r := Respond(s, RequestAt(m, cursor));
      ghost var ahead := m.backfillLimit.None? && m.forward && r.hasMore && NextCursor(r).Some?;
      PageAdvances(s, m, cursor, totalEmitted + |r.data|);
      OutputsStep(s, m, cursor, totalEmitted, outputs);
      RequestsStep(s, m, cursor, totalEmitted, prefetched.Some?, ahead, requests);
      var response;
      assert requests + [] == requests;
      if prefetched.Some? {
        response := prefetched.value;
      } else {
        requests := requests + [RequestAt(m, cursor)];
        response := Respond(s, RequestAt(m, cursor));
      }
      prefetched := None;
      assert requests + [] == requests;
      var responseHasMore := m.forward && response.hasMore;
      var nextCursor := NextCursor(response);
      if m.backfillLimit.None? && responseHasMore && nextCursor.Some? {
        requests := requests + [RequestAt(m, nextCursor)];
        prefetched := Some(Respond(s, RequestAt(m, nextCursor)));
      }
      outputs := outputs + Emits(response.data);
      totalEmitted := totalEmitted + |response.data|;
      hasMore := responseHasMore;
      if LimitReached(m, totalEmitted) {
        hasMore := false;
      }
      cursor := nextCursor;
      outputs := outputs + [Checkpoint(if hasMore then From(cursor) else Done)];
    }
    NothingLeft(s, m, prefetched.Some?, cursor, totalEmitted);
    assert requests + [] == requests;
    outputs := outputs + [RangeComplete];
  }

  lemma EverythingLeft(s: Server, m: Mode, start: Option<Cursor>)
    requires Faithful(s) && start != Some("")
    ensures [] + OutputsLeft(s, m, true, start, 0) == Outputs(s, m, start, 0)
    ensures [] + RequestsLeft(s, m, true, false, start, 0) == Requests(s, m, start, 0)
  {
    hide Outputs, Requests;
  }

  lemma NothingLeft(s: Server, m: Mode, prefetched: bool, cursor: Option<Cursor>, total: nat)
    requires Faithful(s)
    ensures OutputsLeft(s, m, false, cursor, total) == [RangeComplete]
    ensures RequestsLeft(s, m, false, prefetched, cursor, total) == []
  {
  }

  // ---- Saved progress ----

  function ItemsOf(outs: seq<Output>): seq<Item> {
    if outs == [] then []
    else
      var rest, o := ItemsOf(outs[..|outs| - 1]), outs[|outs| - 1];
      if o.Emit? then rest + [o.item] else rest
  }

  lemma {:induction false} ItemsAppend(a: seq<Output>, b: seq<Output>)
    ensures ItemsOf(a + b) == ItemsOf(a) + ItemsOf(b)
    decreases |b|
  {
    if b == [] {
      assert a + b == a;
    } else {
      ItemsAppend(a, b[..|b| - 1]);
      assert (a + b)[..|a + b| - 1] == a + b[..|b| - 1];
    }
  }

  lemma {:induction false} ItemsOfEmits(items: seq<Item>)
    ensures ItemsOf(Emits(items)) == items
  {
    if items != [] {
      ItemsOfEmits(items[..|items| - 1]);
      assert Emits(items)[..|items| - 1] == Emits(items[..|items| - 1]);
    }
  }

  /** No limit, and cursors are honoured. */
  predicate Unlimited(m: Mode) {
    m.forward && (m.backfillLimit.None? || m.backfillLimit.value == 0)
  }

  /** How much of the listing is done when this remains. */
  function DonePosition(s: Server, remaining: Remaining): nat {
    match remaining
    case Done => |s.listing|
    case From(cursor) => PositionOf(s, cursor)
  }

  /** A cursor to start from; without forward pagination there is none. */
  predicate Startable(m: Mode, cursor: Option<Cursor>) {
    cursor != Some("") && (m.forward || cursor == None)
  }

  predicate GoodRemaining(m: Mode, remaining: Remaining) {
    remaining.From? ==> Startable(m, remaining.cursor)
  }

  /** The output of one page. */
  function PageOutput(s: Server, m: Mode, cursor: Option<Cursor>, total: nat): seq<Output>
    requires Faithful(s) && cursor != Some("")
  {
    var r := Respond(s, RequestAt(m, cursor));
    Emits(r.data) + [Checkpoint(if GoesOn(m, r, total + |r.data|) then From(NextCursor(r)) else Done)]
  }

  lemma InListing(s: Server, cursor: Option<Cursor>)
    requires Faithful(s)
    ensures PositionOf(s, cursor) <= |s.listing|
    ensures PositionOf(s, cursor) <= s.pageEnd(PositionOf(s, cursor)) <= |s.listing|
  {
  }

  /** Where the last page of a run from position `p` starts. */
  function LastPage(s: Server, p: nat): (q: nat)
    requires Faithful(s) && p <= |s.listing|
    ensures p <= q <= |s.listing|
    decreases |s.listing| - p
  {
    if s.pageEnd(p) == |s.listing| then p else LastPage(s, s.pageEnd(p))
  }

  /** The first page is the last one, or cursors are honoured and the limit is not reached before it. */
  predicate ReachesLastPage(s: Server, m: Mode, p: nat, total: nat)
    requires Faithful(s) && p <= |s.listing|
  {
    LastPage(s, p) == p || (m.forward && !LimitReached(m, total + (LastPage(s, p) - p)))
  }

  /** The output is that of the first page, followed by the output from the cursor it saved. */
  lemma OutputsByPage(s: Server, m: Mode, cursor: Option<Cursor>, total: nat)
    requires Faithful(s) && cursor != Some("")
    ensures var r := Respond(s, RequestAt(m, cursor));
            var goOn := GoesOn(m, r, total + |r.data|);
            && (goOn ==> NextCursor(r) != Some(""))
            && (goOn ==> PositionOf(s, cursor) < PositionOf(s, NextCursor(r)) <= |s.listing|)
            && Outputs(s, m, cursor, total) ==
                 PageOutput(s, m, cursor, total) + OutputsLeft(s, m, goOn, NextCursor(r), total + |r.data|)
  {
    hide Respond, RequestAt, GoesOn, NextCursor, Emits, Faithful;
    PageAdvances(s, m, cursor, total + |Respond(s, RequestAt(m, cursor)).data|);
  }

  /**
   At every checkpoint the items emitted so far are a part of the listing that begins at the starting cursor.
   It goes exactly up to what remains, unless the checkpoint says that nothing does although the run did not
   get to the last page.
   */
  lemma {:induction false} CheckpointIsPrefix(s: Server, m: Mode, cursor: Option<Cursor>, total: nat, i: nat)
    requires Faithful(s) && Startable(m, cursor)
    requires i < |Outputs(s, m, cursor, total)| && Outputs(s, m, cursor, total)[i].Checkpoint?
    ensures var outs, p := Outputs(s, m, cursor, total), PositionOf(s, cursor);
            && GoodRemaining(m, outs[i].remaining)
            && p <= DonePosition(s, outs[i].remaining) <= |s.listing|
            && (outs[i].remaining.From? ==> DonePosition(s, outs[i].remaining) < |s.listing|)
            && ItemsOf(outs[..i]) <= s.listing[p..]
            && (ItemsOf(outs[..i]) == s.listing[p..DonePosition(s, outs[i].remaining)] <==>
                outs[i].remaining.From? || ReachesLastPage(s, m, p, total))
    decreases |s.listing| - PositionOf(s, cursor)
  {
    hide Respond, RequestAt, NextCursor, Emits, Faithful, PageOutput, PositionOf, ItemsOf, Outputs, ReachesLastPage;
    var outs, page := Outputs(s, m, cursor, total), PageOutput(s, m, cursor, total);
    var r, p := Respond(s, RequestAt(m, cursor)), PositionOf(s, cursor);
    OutputsByPage(s, m, cursor, total);
    FirstCheckpoint(s, m, cursor, total);
    LastPageFrom(s, m, p, total);
    if i < |page| {
      assert outs[..i] == page[..i];
      assert s.listing[p..][..s.pageEnd(p) - p] == s.listing[p..s.pageEnd(p)];
    } else {
      var next, e := NextCursor(r), s.pageEnd(p);
      var rest := OutputsLeft(s, m, GoesOn(m, r, total + |r.data|), next, total + |r.data|);
      assert rest[i - |page|] == outs[i];
      CheckpointIsPrefix(s, m, next, total + |r.data|, i - |page|);
      assert outs[..i] == page + rest[..i - |page|];
      ItemsAppend(page, rest[..i - |page|]);
      SplitAt(s.listing, p, e, DonePosition(s, outs[i].remaining), ItemsOf(rest[..i - |page|]));
    }
  }

  /** The only checkpoint of a page, and what precedes it. */
  lemma FirstCheckpoint(s: Server, m: Mode, cursor: Option<Cursor>, total: nat)
    requires Faithful(s) && Startable(m, cursor)
    ensures var page, r := PageOutput(s, m, cursor, total), Respond(s, RequestAt(m, cursor));
            var p, goOn := PositionOf(s, cursor), GoesOn(m, r, total + |r.data|);
      && p <= s.pageEnd(p) <= |s.listing| && |page| == |r.data| + 1 && |r.data| == s.pageEnd(p) - p
      && page[|page| - 1] == Checkpoint(if goOn then From(NextCursor(r)) else Done)
      && (forall i :: 0 <= i < |page| - 1 ==> page[i].Emit?)
      && ItemsOf(page[..|page| - 1]) == s.listing[p..s.pageEnd(p)]
      && ItemsOf(page) == s.listing[p..s.pageEnd(p)]
      && (goOn <==> m.forward && s.pageEnd(p) < |s.listing| && !LimitReached(m, total + |r.data|))
      && (goOn ==> Startable(m, NextCursor(r)) && PositionOf(s, NextCursor(r)) == s.pageEnd(p))
  {
    hide PositionOf, Emits, NextCursor;
    var r := Respond(s, RequestAt(m, cursor));
    var page := PageOutput(s, m, cursor, total);
    PageOutputItems(s, m, cursor, total);
    PageAdvances(s, m, cursor, total + |r.data|);
    ItemsOfEmits(r.data);
    assert page[..|page| - 1] == Emits(r.data);
  }

  lemma SplitAt(listing: seq<Item>, p: nat, e: nat, q: nat, rest: seq<Item>)
    requires p <= e <= q <= |listing|
    ensures listing[p..e] + rest == listing[p..q] <==> rest == listing[e..q]
    ensures rest <= listing[e..] ==> listing[p..e] + rest <= listing[p..]
  {
    assert listing[p..e] + listing[e..q] == listing[p..q];
    assert listing[p..e] + listing[e..] == listing[p..];
    if listing[p..e] + rest == listing[p..q] {
      assert (listing[p..e] + rest)[e - p..] == rest;
      assert listing[p..q][e - p..] == listing[e..q];
    }
  }

  lemma NoItem(o: Output)
    requires !o.Emit?
    ensures ItemsOf([o]) == []
  {
    assert [o][..0] == [];
  }

  /** A positive limit that these items bring to its end, or pass. */
  predicate Exhausts(limit: Option<nat>, count: nat) {
    limit.Some? && limit.value > 0 && count >= limit.value
  }

  /**
   A checkpoint says that something remains exactly when cursors are honoured, the listing goes on, and the items
   so far are fewer than the limit: the run stops at the first page that brings the count to the limit.
   */
  lemma {:induction false} RemainsIff(s: Server, m: Mode, cursor: Option<Cursor>, total: nat, i: nat)
    requires Faithful(s) && Startable(m, cursor)
    requires i < |Outputs(s, m, cursor, total)| && Outputs(s, m, cursor, total)[i].Checkpoint?
    ensures var outs, p := Outputs(s, m, cursor, total), PositionOf(s, cursor);
            var count := |ItemsOf(outs[..i])|;
      outs[i].remaining.From? <==>
        m.forward && p + count < |s.listing| && !Exhausts(m.backfillLimit, total + count)
    decreases |s.listing| - PositionOf(s, cursor)
  {
    hide Respond, RequestAt, NextCursor, Emits, Faithful, PageOutput, PositionOf, ItemsOf, Outputs;
    var outs, page := Outputs(s, m, cursor, total), PageOutput(s, m, cursor, total);
    var r, p := Respond(s, RequestAt(m, cursor)), PositionOf(s, cursor);
    OutputsByPage(s, m, cursor, total);
    FirstCheckpoint(s, m, cursor, total);
    if i < |page| {
      assert outs[..i] == page[..i];
    } else {
      var next := NextCursor(r);
      var rest := OutputsLeft(s, m, GoesOn(m, r, total + |r.data|), next, total + |r.data|);
      assert rest[i - |page|] == outs[i];
      RemainsIff(s, m, next, total + |r.data|, i - |page|);
      assert outs[..i] == page + rest[..i - |page|];
      ItemsAppend(page, rest[..i - |page|]);
    }
  }

  /** The saved cursor is the page's own cursor if the endpoint gives one, else the id of the last item emitted. */
  lemma {:induction false} SavedCursorIs(s: Server, m: Mode, cursor: Option<Cursor>, total: nat, i: nat)
    requires Faithful(s) && Startable(m, cursor)
    requires i < |Outputs(s, m, cursor, total)| && Outputs(s, m, cursor, total)[i].Checkpoint?
    requires Outputs(s, m, cursor, total)[i].remaining.From?
    ensures var outs := Outputs(s, m, cursor, total);
            var e := PositionOf(s, cursor) + |ItemsOf(outs[..i])|;
      && 0 < e <= |s.listing|
      && outs[i].remaining.cursor == if s.pageCursor(e).Some? then s.pageCursor(e) else Some(s.listing[e - 1].id)
    decreases |s.listing| - PositionOf(s, cursor)
  {
    hide Respond, RequestAt, NextCursor, Emits, Faithful, PageOutput, PositionOf, ItemsOf, Outputs;
    var outs, page := Outputs(s, m, cursor, total), PageOutput(s, m, cursor, total);
    var r, p := Respond(s, RequestAt(m, cursor)), PositionOf(s, cursor);
    OutputsByPage(s, m, cursor, total);
    FirstCheckpoint(s, m, cursor, total);
    if i < |page| {
      assert outs[..i] == page[..i];
      NextCursorIs(s, m, cursor);
    } else {
      var next := NextCursor(r);
      var rest := OutputsLeft(s, m, GoesOn(m, r, total + |r.data|), next, total + |r.data|);
      assert rest[i - |page|] == outs[i];
      SavedCursorIs(s, m, next, total + |r.data|, i - |page|);
      assert outs[..i] == page + rest[..i - |page|];
      ItemsAppend(page, rest[..i - |page|]);
    }
  }

  lemma NextCursorIs(s: Server, m: Mode, cursor: Option<Cursor>)
    requires Faithful(s) && Startable(m, cursor)
    ensures var p := PositionOf(s, cursor);
            var e := s.pageEnd(p);
      && p <= e <= |s.listing|
      && (p < e ==>
           NextCursor(Respond(s, RequestAt(m, cursor))) ==
             (if s.pageCursor(e).Some? then s.pageCursor(e) else Some(s.listing[e - 1].id)))
  {
    InListing(s, cursor);
  }

  /** The cursors saved so far. */
  function SavedCursors(outs: seq<Output>): seq<Option<Cursor>> {
    if outs == [] then []
    else
      var rest, o := SavedCursors(outs[..|outs| - 1]), outs[|outs| - 1];
      if o.Checkpoint? && o.remaining.From? then rest + [o.remaining.cursor] else rest
  }

  lemma {:induction false} SavedCursorsAppend(a: seq<Output>, b: seq<Output>)
    ensures SavedCursors(a + b) == SavedCursors(a) + SavedCursors(b)
    decreases |b|
  {
    if b == [] {
      assert a + b == a;
    } else {
      SavedCursorsAppend(a, b[..|b| - 1]);
      assert (a + b)[..|a + b| - 1] == a + b[..|b| - 1];
    }
  }

  lemma {:induction false} EmitsSaveNothing(outs: seq<Output>)
    requires forall i :: 0 <= i < |outs| ==> !outs[i].Checkpoint?
    ensures SavedCursors(outs) == []
  {
    if outs != [] {
      EmitsSaveNothing(outs[..|outs| - 1]);
    }
  }

  lemma PageSaves(s: Server, m: Mode, cursor: Option<Cursor>, total: nat)
    requires Faithful(s) && Startable(m, cursor)
    ensures var r := Respond(s, RequestAt(m, cursor));
            SavedCursors(PageOutput(s, m, cursor, total)) ==
            if GoesOn(m, r, total + |r.data|) then [NextCursor(r)] else []
  {
    hide Respond, RequestAt, NextCursor, Emits, Faithful, PageOutput, PositionOf, ItemsOf;
    var page := PageOutput(s, m, cursor, total);
    FirstCheckpoint(s, m, cursor, total);
    EmitsSaveNothing(page[..|page| - 1]);
  }

  /** A request after these cursors in turn, for 100 items if the endpoint takes a limit. */
  function RequestsFrom(m: Mode, cursors: seq<Option<Cursor>>): (r: seq<Request>)
    ensures |r| == |cursors|
  {
    seq(|cursors|, i requires 0 <= i < |cursors| =>
      Request(if m.forward && m.supportsLimit then Some(100) else None, cursors[i]))
  }

  lemma OneRequestMore(m: Mode, cursor: Option<Cursor>, rest: seq<Option<Cursor>>)
    requires Startable(m, cursor)
    ensures RequestsFrom(m, [cursor] + rest) == [RequestAt(m, cursor)] + RequestsFrom(m, rest)
    ensures RequestsFrom(m, []) == []
  {
  }

  /** One request from the start, and one from every cursor saved. */
  lemma {:induction false} RequestsFollowCursors(s: Server, m: Mode, cursor: Option<Cursor>, total: nat)
    requires Faithful(s) && Startable(m, cursor)
    ensures Requests(s, m, cursor, total) == RequestsFrom(m, [cursor] + SavedCursors(Outputs(s, m, cursor, total)))
    decreases |s.listing| - PositionOf(s, cursor)
  {
    hide *;
    IsStartable(m, cursor);
    var r := Respond(s, RequestAt(m, cursor));
    OutputsByPage(s, m, cursor, total);
    FirstCheckpoint(s, m, cursor, total);
    PageSaves(s, m, cursor, total);
    var goOn := GoesOn(m, r, total + |r.data|);
    var next, left := NextCursor(r), OutputsLeft(s, m, goOn, NextCursor(r), total + |r.data|);
    SavedCursorsAppend(PageOutput(s, m, cursor, total), left);
    RequestsUnfold(s, m, cursor, total);
    LeftIs(s, m, goOn, next, total + |r.data|);
    if goOn {
      RequestsFollowCursors(s, m, next, total + |r.data|);
      OneRequestMore(m, cursor, [next] + SavedCursors(left));
    } else {
      OneRequestMore(m, cursor, []);
      assert [] + SavedCursors(left) == [];
    }
  }

  lemma IsStartable(m: Mode, cursor: Option<Cursor>)
    requires Startable(m, cursor)
    ensures cursor != Some("")
  {
  }

  lemma LeftIs(s: Server, m: Mode, goOn: bool, cursor: Option<Cursor>, total: nat)
    requires Faithful(s) && (goOn ==> cursor != Some(""))
    ensures goOn ==> OutputsLeft(s, m, goOn, cursor, total) == Outputs(s, m, cursor, total)
    ensures !goOn ==> SavedCursors(OutputsLeft(s, m, goOn, cursor, total)) == []
  {
    EmitsSaveNothing([RangeComplete]);
  }

  /** Without forward pagination there is one request, without a cursor or a limit, whatever cursor was saved. */
  lemma PlainRequest(s: Server, m: Mode, cursor: Option<Cursor>, total: nat)
    requires Faithful(s) && cursor != Some("") && !m.forward
    ensures Requests(s, m, cursor, total) == [Request(None, None)]
  {
  }

  /** After the checkpoint that says that nothing remains, only the completion status follows. */
  lemma {:induction false} DoneIsLast(s: Server, m: Mode, cursor: Option<Cursor>, total: nat, i: nat)
    requires Faithful(s) && Startable(m, cursor)
    requires i < |Outputs(s, m, cursor, total)| && Outputs(s, m, cursor, total)[i] == Checkpoint(Done)
    ensures i == |Outputs(s, m, cursor, total)| - 2
    decreases |s.listing| - PositionOf(s, cursor)
  {
    hide Respond, RequestAt, NextCursor, Emits, Faithful, PageOutput, PositionOf, ItemsOf, Outputs;
    var outs, page := Outputs(s, m, cursor, total), PageOutput(s, m, cursor, total);
    var r := Respond(s, RequestAt(m, cursor));
    OutputsByPage(s, m, cursor, total);
    FirstCheckpoint(s, m, cursor, total);
    if i >= |page| {
      var next := NextCursor(r);
      var rest := OutputsLeft(s, m, GoesOn(m, r, total + |r.data|), next, total + |r.data|);
      assert rest[i - |page|] == outs[i];
      DoneIsLast(s, m, next, total + |r.data|, i - |page|);
    }
  }

  // ---- Interruptions and resumes ----

  /** What is saved after some output: the last checkpoint, or what was there before. */
  function SavedBy(outs: seq<Output>, before: Remaining): Remaining {
    if outs == [] then before
    else if outs[|outs| - 1].Checkpoint? then outs[|outs| - 1].remaining
    else SavedBy(outs[..|outs| - 1], before)
  }

  predicate HasCheckpoint(outs: seq<Output>) {
    outs != [] && (outs[|outs| - 1].Checkpoint? || HasCheckpoint(outs[..|outs| - 1]))
  }

  /** The items emitted up to the last checkpoint. */
  function ConfirmedBy(outs: seq<Output>): seq<Item> {
    if outs == [] then []
    else if outs[|outs| - 1].Checkpoint? then ItemsOf(outs[..|outs| - 1])
    else ConfirmedBy(outs[..|outs| - 1])
  }

  lemma {:induction false} ConfirmedIsEmitted(outs: seq<Output>)
    ensures ConfirmedBy(outs) <= ItemsOf(outs)
  {
    if outs != [] {
      ConfirmedIsEmitted(outs[..|outs| - 1]);
    }
  }

  /** A run that is interrupted after `n` outputs; when nothing remains it emits nothing. */
  function RunOutput(s: Server, m: Mode, remaining: Remaining, n: nat): seq<Output>
    requires Faithful(s) && GoodRemaining(m, remaining)
  {
    if remaining.Done? then []
    else
      var outs := Outputs(s, m, remaining.cursor, 0);
      if n <= |outs| then outs[..n] else outs
  }

  lemma {:induction false} SavedPrefix(s: Server, m: Mode, cursor: Option<Cursor>, n: nat)
    requires Faithful(s) && Startable(m, cursor) && n <= |Outputs(s, m, cursor, 0)|
    ensures var outs, p := Outputs(s, m, cursor, 0)[..n], PositionOf(s, cursor);
            var saved := SavedBy(outs, From(cursor));
            && GoodRemaining(m, saved)
            && p <= DonePosition(s, saved) <= |s.listing|
            && (HasCheckpoint(outs) && saved.From? ==> DonePosition(s, saved) < |s.listing|)
            && (!HasCheckpoint(outs) ==> saved == From(cursor) && ConfirmedBy(outs) == [])
            && ConfirmedBy(outs) <= s.listing[p..]
            && (ConfirmedBy(outs) == s.listing[p..DonePosition(s, saved)] <==>
                saved.From? || ReachesLastPage(s, m, p, 0))
    decreases n
  {
    hide Outputs, ItemsOf, PositionOf, Faithful, ReachesLastPage;
    InListing(s, cursor);
    if n > 0 {
      var all := Outputs(s, m, cursor, 0);
      assert all[..n][..n - 1] == all[..n - 1];
      if all[n - 1].Checkpoint? {
        CheckpointIsPrefix(s, m, cursor, 0, n - 1);
      } else {
        SavedPrefix(s, m, cursor, n - 1);
      }
    }
  }

  /** What a run saves when it is cut off after `n` outputs. */
  function SavedByRun(s: Server, m: Mode, remaining: Remaining, n: nat): Remaining
    requires Faithful(s) && GoodRemaining(m, remaining)
  {
    SavedBy(RunOutput(s, m, remaining, n), remaining)
  }

  /** The run does not declare its range done, or it got to the last page, or there was nothing to do. */
  predicate StopsWell(s: Server, m: Mode, remaining: Remaining, n: nat)
    requires Faithful(s) && GoodRemaining(m, remaining)
  {
    InListing(s, if remaining.From? then remaining.cursor else None);
    remaining.Done? || SavedByRun(s, m, remaining, n).From? ||
    ReachesLastPage(s, m, PositionOf(s, remaining.cursor), 0)
  }

  /**
   A run that is cut off anywhere confirms a part of the listing from where it started.  It goes exactly up to
   what was saved if and only if the run stops well.
   */
  lemma RunIsGood(s: Server, m: Mode, remaining: Remaining, n: nat)
    requires Faithful(s) && GoodRemaining(m, remaining)
    ensures var saved, p := SavedByRun(s, m, remaining, n), DonePosition(s, remaining);
            var confirmed := ConfirmedBy(RunOutput(s, m, remaining, n));
            && GoodRemaining(m, saved) && p <= DonePosition(s, saved) <= |s.listing|
            && (HasCheckpoint(RunOutput(s, m, remaining, n)) && saved.From? ==> DonePosition(s, saved) < |s.listing|)
            && (!HasCheckpoint(RunOutput(s, m, remaining, n)) ==> saved == remaining && confirmed == [])
            && confirmed <= s.listing[p..]
            && (confirmed == s.listing[p..DonePosition(s, saved)] <==> StopsWell(s, m, remaining, n))
  {
    hide Outputs, Faithful, ReachesLastPage;
    if remaining.From? {
      var outs := Outputs(s, m, remaining.cursor, 0);
      SavedPrefix(s, m, remaining.cursor, if n <= |outs| then n else |outs|);
      assert outs[..|outs|] == outs;
    }
  }

  /** What remains after a chain of runs, each cut off anywhere and resumed from what was saved. */
  function RemainsAfter(s: Server, m: Mode, remaining: Remaining, cuts: seq<nat>): Remaining
    requires Faithful(s) && GoodRemaining(m, remaining)
    decreases |cuts|
  {
    if cuts == [] then remaining
    else
      RunIsGood(s, m, remaining, cuts[0]);
      RemainsAfter(s, m, SavedByRun(s, m, remaining, cuts[0]), cuts[1..])
  }

  function ConfirmedByAll(s: Server, m: Mode, remaining: Remaining, cuts: seq<nat>): seq<Item>
    requires Faithful(s) && GoodRemaining(m, remaining)
    decreases |cuts|
  {
    if cuts == [] then []
    else
      RunIsGood(s, m, remaining, cuts[0]);
      ConfirmedBy(RunOutput(s, m, remaining, cuts[0])) +
      ConfirmedByAll(s, m, SavedByRun(s, m, remaining, cuts[0]), cuts[1..])
  }

  predicate AllStopWell(s: Server, m: Mode, remaining: Remaining, cuts: seq<nat>)
    requires Faithful(s) && GoodRemaining(m, remaining)
    decreases |cuts|
  {
    cuts == [] ||
    (RunIsGood(s, m, remaining, cuts[0]);
     StopsWell(s, m, remaining, cuts[0]) && AllStopWell(s, m, SavedByRun(s, m, remaining, cuts[0]), cuts[1..]))
  }

  lemma {:induction false} DoneStaysDone(s: Server, m: Mode, cuts: seq<nat>)
    requires Faithful(s)
    ensures RemainsAfter(s, m, Done, cuts) == Done && ConfirmedByAll(s, m, Done, cuts) == []
    decreases |cuts|
  {
    if cuts != [] {
      DoneStaysDone(s, m, cuts[1..]);
    }
  }

  /**
   Over any chain of interruptions and resumes, whatever the limit, the confirmed items are a part of the
   listing from the start on, without gap or repetition.  They are exactly the listing up to what remains if
   and only if every run stops well.
   */
  lemma {:induction false} ResumesCoverListing(s: Server, m: Mode, remaining: Remaining, cuts: seq<nat>)
    requires Faithful(s) && GoodRemaining(m, remaining)
    ensures var last, p := RemainsAfter(s, m, remaining, cuts), DonePosition(s, remaining);
            var confirmed := ConfirmedByAll(s, m, remaining, cuts);
            && p <= DonePosition(s, last) <= |s.listing|
            && confirmed <= s.listing[p..]
            && (confirmed == s.listing[p..DonePosition(s, last)] <==> AllStopWell(s, m, remaining, cuts))
    decreases |cuts|
  {
    hide Outputs, Faithful, RunOutput, ConfirmedBy, SavedByRun, StopsWell;
    if cuts == [] {
      DoneInListing(s, remaining);
    } else {
      var saved := SavedByRun(s, m, remaining, cuts[0]);
      RunIsGood(s, m, remaining, cuts[0]);
      ResumesCoverListing(s, m, saved, cuts[1..]);
      if StopsWell(s, m, remaining, cuts[0]) {
        SplitAt(s.listing, DonePosition(s, remaining), DonePosition(s, saved),
                DonePosition(s, RemainsAfter(s, m, saved, cuts[1..])), ConfirmedByAll(s, m, saved, cuts[1..]));
      } else {
        StopsBadlyDone(s, m, remaining, cuts[0]);
        DoneStaysDone(s, m, cuts[1..]);
      }
    }
  }

  lemma DoneInListing(s: Server, remaining: Remaining)
    requires Faithful(s)
    ensures DonePosition(s, remaining) <= |s.listing|
  {
  }

  lemma StopsBadlyDone(s: Server, m: Mode, remaining: Remaining, n: nat)
    requires Faithful(s) && GoodRemaining(m, remaining) && !StopsWell(s, m, remaining, n)
    ensures SavedByRun(s, m, remaining, n) == Done
  {
    hide SavedByRun, ReachesLastPage;
  }

  /** So it is without a limit, and as long as something remains. */
  lemma {:induction false} ChainStopsWell(s: Server, m: Mode, remaining: Remaining, cuts: seq<nat>)
    requires Faithful(s) && GoodRemaining(m, remaining)
    requires Unlimited(m) || RemainsAfter(s, m, remaining, cuts).From?
    ensures AllStopWell(s, m, remaining, cuts)
    decreases |cuts|
  {
    hide SavedByRun, Faithful;
    if cuts != [] {
      RunIsGood(s, m, remaining, cuts[0]);
      if SavedByRun(s, m, remaining, cuts[0]).Done? {
        DoneStaysDone(s, m, cuts[1..]);
      }
      ChainStopsWell(s, m, SavedByRun(s, m, remaining, cuts[0]), cuts[1..]);
    }
  }

  lemma {:induction false} EndsDone(s: Server, m: Mode, cursor: Option<Cursor>, total: nat)
    requires Faithful(s) && cursor != Some("")
    ensures var outs := Outputs(s, m, cursor, total);
            |outs| >= 2 && outs[|outs| - 1] == RangeComplete && outs[|outs| - 2] == Checkpoint(Done)
    decreases |s.listing| - PositionOf(s, cursor)
  {
    hide Respond, RequestAt, NextCursor, Emits, Faithful, PositionOf;
    var r := Respond(s, RequestAt(m, cursor));
    PageAdvances(s, m, cursor, total + |r.data|);
    if GoesOn(m, r, total + |r.data|) {
      EndsDone(s, m, NextCursor(r), total + |r.data|);
    }
  }

  /** A chain whose last run is not cut off leaves nothing, and has confirmed all the rest if every run stops well. */
  lemma CompletedChain(s: Server, m: Mode, remaining: Remaining, cuts: seq<nat>, last: nat)
    requires Faithful(s) && GoodRemaining(m, remaining)
    requires var before := RemainsAfter(s, m, remaining, cuts);
             before.From? && before.cursor != Some("") ==> last >= |Outputs(s, m, before.cursor, 0)|
    ensures RemainsAfter(s, m, remaining, cuts + [last]) == Done
    ensures ConfirmedByAll(s, m, remaining, cuts + [last]) == s.listing[DonePosition(s, remaining)..] <==>
            AllStopWell(s, m, remaining, cuts + [last])
  {
    hide *;
    LastRunFinishes(s, m, remaining, cuts, last);
    ResumesCoverListing(s, m, remaining, cuts + [last]);
    DoneIsAll(s);
    assert s.listing[DonePosition(s, remaining)..|s.listing|] == s.listing[DonePosition(s, remaining)..];
  }

  lemma DoneIsAll(s: Server)
    ensures DonePosition(s, Done) == |s.listing|
  {
  }

  lemma {:induction false} LastRunFinishes(s: Server, m: Mode, remaining: Remaining, cuts: seq<nat>, last: nat)
    requires Faithful(s) && GoodRemaining(m, remaining)
    requires var before := RemainsAfter(s, m, remaining, cuts);
             before.From? && before.cursor != Some("") ==> last >= |Outputs(s, m, before.cursor, 0)|
    ensures RemainsAfter(s, m, remaining, cuts + [last]) == Done
    decreases |cuts|
  {
    hide Outputs, Faithful;
    if cuts == [] {
      assert (cuts + [last])[1..] == [];
      if remaining.From? {
        UncutIsDone(s, m, remaining, last);
      }
    } else {
      RunIsGood(s, m, remaining, cuts[0]);
      LastRunFinishes(s, m, SavedByRun(s, m, remaining, cuts[0]), cuts[1..], last);
      assert (cuts + [last])[1..] == cuts[1..] + [last];
    }
  }

  lemma UncutIsDone(s: Server, m: Mode, remaining: Remaining, n: nat)
    requires Faithful(s) && GoodRemaining(m, remaining) && remaining.From?
    requires n >= |Outputs(s, m, remaining.cursor, 0)|
    ensures SavedByRun(s, m, remaining, n) == Done && HasCheckpoint(RunOutput(s, m, remaining, n))
    ensures ConfirmedBy(RunOutput(s, m, remaining, n)) == ItemsOf(Outputs(s, m, remaining.cursor, 0))
  {
    hide Outputs, Faithful;
    EndsDone(s, m, remaining.cursor, 0);
    var outs := Outputs(s, m, remaining.cursor, 0);
    assert outs[..|outs|] == outs;
    var front := outs[..|outs| - 1];
    assert SavedBy(outs, remaining) == SavedBy(front, remaining);
    assert front[..|front| - 1] == outs[..|outs| - 2];
  }

  // ---- With a limit, or without cursors ----

  lemma PageOutputItems(s: Server, m: Mode, cursor: Option<Cursor>, total: nat)
    requires Faithful(s) && Startable(m, cursor)
    ensures var p := PositionOf(s, cursor);
      && p <= s.pageEnd(p) <= |s.listing|
      && Respond(s, RequestAt(m, cursor)).data == s.listing[p..s.pageEnd(p)]
      && Respond(s, RequestAt(m, cursor)).hasMore == (s.pageEnd(p) < |s.listing|)
      && ItemsOf(PageOutput(s, m, cursor, total)) == s.listing[p..s.pageEnd(p)]
  {
    InListing(s, cursor);
    hide ItemsOf, Emits, NextCursor;
    var r := Respond(s, RequestAt(m, cursor));
    var last := [Checkpoint(if GoesOn(m, r, total + |r.data|) then From(NextCursor(r)) else Done)];
    ItemsAppend(Emits(r.data), last);
    ItemsOfEmits(r.data);
    NoItem(last[0]);
    assert r.data + [] == r.data;
  }

  lemma NothingAfter()
    ensures ItemsOf([RangeComplete]) == []
  {
    NoItem(RangeComplete);
  }

  lemma SplitRest(listing: seq<Item>, p: nat, e: nat, rest: seq<Item>)
    requires p <= e <= |listing|
    ensures listing[p..e] + rest == listing[p..] <==> rest == listing[e..]
  {
    SplitAt(listing, p, e, |listing|, rest);
    assert listing[p..|listing|] == listing[p..] && listing[e..|listing|] == listing[e..];
  }

  /**
   A run declares its range done whether or not it got to the end: it covers the rest of the listing if
   and only if it gets to the last page before the limit, or the first page is the last one.
   */
  lemma {:induction false} CoversRestIff(s: Server, m: Mode, cursor: Option<Cursor>, total: nat)
    requires Faithful(s) && Startable(m, cursor)
    requires PositionOf(s, cursor) <= |s.listing|
    ensures ItemsOf(Outputs(s, m, cursor, total)) == s.listing[PositionOf(s, cursor)..] <==>
            ReachesLastPage(s, m, PositionOf(s, cursor), total)
    decreases |s.listing| - PositionOf(s, cursor)
  {
    hide *;
    var p := PositionOf(s, cursor);
    var e := s.pageEnd(p);
    var next, goOn := ItemsByPage(s, m, cursor, total);
    LastPageFrom(s, m, p, total);
    if goOn {
      CoversRestIff(s, m, next, total + (e - p));
      SplitRest(s.listing, p, e, ItemsOf(Outputs(s, m, next, total + (e - p))));
    } else {
      SplitRest(s.listing, p, e, []);
      assert |s.listing[e..]| == |s.listing| - e;
    }
  }

  lemma LastPageFrom(s: Server, m: Mode, p: nat, total: nat)
    requires Faithful(s) && p <= |s.listing|
    ensures var e := s.pageEnd(p);
      && p <= e <= |s.listing|
      && (ReachesLastPage(s, m, p, total) <==>
           e == |s.listing| || (m.forward && !LimitReached(m, total + (e - p)) &&
               ReachesLastPage(s, m, e, total + (e - p))))
  {
    var e := s.pageEnd(p);
    if e < |s.listing| {
      assert LastPage(s, p) == LastPage(s, e) >= e > p;
    }
  }

  /** The items of a run are those of its first page and of the run from there, if it goes on. */
  lemma ItemsByPage(s: Server, m: Mode, cursor: Option<Cursor>, total: nat) returns (next: Option<Cursor>, goOn: bool)
    requires Faithful(s) && Startable(m, cursor)
    ensures var p := PositionOf(s, cursor);
      var e := s.pageEnd(p);
      && p <= e <= |s.listing|
      && (goOn <==> m.forward && e < |s.listing| && !LimitReached(m, total + (e - p)))
      && (goOn ==> next != Some("") && Startable(m, next) && PositionOf(s, next) == e && p < e)
      && ItemsOf(Outputs(s, m, cursor, total)) ==
           s.listing[p..e] + if goOn then ItemsOf(Outputs(s, m, next, total + (e - p))) else []
  {
    hide ItemsOf, Outputs, PageOutput, Faithful, RequestAt, Respond, NextCursor;
    var r := Respond(s, RequestAt(m, cursor));
    PageOutputItems(s, m, cursor, total);
    OutputsByPage(s, m, cursor, total);
    PageAdvances(s, m, cursor, total + |r.data|);
    next, goOn := NextCursor(r), GoesOn(m, r, total + |r.data|);
    ItemsAppend(PageOutput(s, m, cursor, total), OutputsLeft(s, m, goOn, next, total + |r.data|));
    NothingAfter();
  }
}
