/** The two queues between producers and consumers: the logger's async queue and the webhook input queue. */
module Queues {
  import opened Options

  // ----- The async queue, by what happened to it -----

  datatype Event<T> = Push(item: T) | Next | Close

  /** What a call of `next` resolves to. */
  datatype Answer<T> = Item(item: T) | Done

  predicate IsClosed<T(==)>(history: seq<Event<T>>) {
    Close in history
  }

  /** The pushes that came before the queue was closed. */
  function Accepted<T>(history: seq<Event<T>>): seq<T> {
    if history == [] then []
    else if history[0].Close? then []
    else (if history[0].Push? then [history[0].item] else []) + Accepted(history[1..])
  }

  function Calls<T>(history: seq<Event<T>>): nat {
    if history == [] then 0 else (if history[0].Next? then 1 else 0) + Calls(history[1..])
  }

  /** The answer to call `n`: the n-th accepted item, or the end of a closed queue; pending otherwise. */
  function AnswerTo<T(==)>(history: seq<Event<T>>, n: nat): Option<Answer<T>> {
    if n < |Accepted(history)| then Some(Item(Accepted(history)[n]))
    else if IsClosed(history) then Some(Done)
    else None
  }

  lemma {:induction false} AcceptedSnoc<T>(history: seq<Event<T>>, e: Event<T>)
    ensures Accepted(history + [e]) ==
      Accepted(history) + (if e.Push? && !IsClosed(history) then [e.item] else [])
  {
    if history == [] {
      assert history + [e] == [e];
      assert [e][1..] == [];
    } else {
      assert (history + [e])[0] == history[0] && (history + [e])[1..] == history[1..] + [e];
      if !history[0].Close? {
        AcceptedSnoc(history[1..], e);
        assert IsClosed(history) <==> IsClosed(history[1..]) by {
          assert history == [history[0]] + history[1..];
        }
      }
    }
  }

  lemma {:induction false} CallsSnoc<T>(history: seq<Event<T>>, e: Event<T>)
    ensures Calls(history + [e]) == Calls(history) + (if e.Next? then 1 else 0)
  {
    if history == [] {
      assert history + [e] == [e];
      assert [e][1..] == [];
    } else {
      assert (history + [e])[0] == history[0] && (history + [e])[1..] == history[1..] + [e];
      CallsSnoc(history[1..], e);
    }
  }

  lemma ClosedSnoc<T>(history: seq<Event<T>>, e: Event<T>)
    ensures IsClosed(history + [e]) <==> IsClosed(history) || e.Close?
  {
  }

  lemma {:induction false} AcceptedGrows<T>(history: seq<Event<T>>, more: seq<Event<T>>)
    ensures Accepted(history) <= Accepted(history + more)
    ensures IsClosed(history) ==> Accepted(history) == Accepted(history + more)
    decreases |more|
  {
    if more == [] {
      assert history + more == history;
    } else {
      var front, e := more[..|more| - 1], more[|more| - 1];
      AcceptedGrows(history, front);
      assert history + more == (history + front) + [e];
      AcceptedSnoc(history + front, e);
    }
  }

  /** An answer, once given, is never another one, and nothing after closing changes any answer. */
  lemma AnswersAreFinal<T>(history: seq<Event<T>>, more: seq<Event<T>>, n: nat)
    ensures AnswerTo(history, n).Some? ==> AnswerTo(history + more, n) == AnswerTo(history, n)
    ensures IsClosed(history) ==> AnswerTo(history, n).Some?
  {
    AcceptedGrows(history, more);
  }

  /** Items are answered in push order, none twice and none skipped: call `n` gets item `n`. */
  lemma EveryItemOnce<T>(history: seq<Event<T>>, i: nat)
    requires i < |Accepted(history)|
    ensures AnswerTo(history, i) == Some(Item(Accepted(history)[i]))
    ensures forall n: nat :: n >= |Accepted(history)| ==> AnswerTo(history, n) in {None, Some(Done)}
  {
  }

  function From<T>(items: seq<T>, n: nat): seq<T> {
    if n <= |items| then items[n..] else []
  }

  function Range(lo: nat, hi: nat): seq<nat> {
    if lo >= hi then [] else seq(hi - lo, i requires i >= 0 => lo + i)
  }

  ghost function Answers<T>(accepted: seq<T>, closed: bool, calls: nat): map<nat, Answer<T>> {
    map n: nat | 0 <= n < calls && (n < |accepted| || closed) :: if n < |accepted| then Item(accepted[n]) else Done
  }

  /** What the items, the pending calls and the settled calls must be. */
  ghost predicate Fits<T>(
    items: seq<T>, waiters: seq<nat>, settled: map<nat, Answer<T>>, accepted: seq<T>, closed: bool, calls: nat)
  {
    && items == From(accepted, calls)
    && waiters == (if closed then [] else Range(|accepted|, calls))
    && settled == Answers(accepted, closed, calls)
  }

  lemma PushWaited<T>(
    items: seq<T>, waiters: seq<nat>, settled: map<nat, Answer<T>>, accepted: seq<T>, calls: nat, item: T)
    requires Fits(items, waiters, settled, accepted, false, calls) && waiters != []
    ensures Fits(items, waiters[1..], settled[waiters[0] := Item(item)], accepted + [item], false, calls)
  {
  }

  lemma PushQueued<T>(
    items: seq<T>, waiters: seq<nat>, settled: map<nat, Answer<T>>, accepted: seq<T>, calls: nat, item: T)
    requires Fits(items, waiters, settled, accepted, false, calls) && waiters == []
    ensures Fits(items + [item], waiters, settled, accepted + [item], false, calls)
  {
  }

  lemma NextTakes<T>(
    items: seq<T>, waiters: seq<nat>, settled: map<nat, Answer<T>>, accepted: seq<T>, closed: bool, calls: nat)
    requires Fits(items, waiters, settled, accepted, closed, calls) && items != []
    ensures Fits(items[1..], waiters, settled[calls := Item(items[0])], accepted, closed, calls + 1)
  {
  }

  lemma NextFinds<T>(
    items: seq<T>, waiters: seq<nat>, settled: map<nat, Answer<T>>, accepted: seq<T>, closed: bool, calls: nat)
    requires Fits(items, waiters, settled, accepted, closed, calls) && items == []
    ensures closed ==> Fits(items, waiters, settled[calls := Done], accepted, closed, calls + 1)
    ensures !closed ==> Fits(items, waiters + [calls], settled, accepted, closed, calls + 1)
  {
  }

  /** A queue that is closed while its waiters are still being told, first come first. */
  ghost predicate Closing<T>(
    items: seq<T>, waiters: seq<nat>, settled: map<nat, Answer<T>>, accepted: seq<T>, calls: nat) {
    && |waiters| <= calls
    && items == From(accepted, calls)
    && waiters == Range(calls - |waiters|, calls)
    && (waiters != [] ==> |accepted| <= calls - |waiters|)
    && settled == Answers(accepted, true, calls - |waiters|)
  }

  lemma CloseStarts<T>(items: seq<T>, waiters: seq<nat>, settled: map<nat, Answer<T>>, accepted: seq<T>, calls: nat)
    requires Fits(items, waiters, settled, accepted, false, calls)
    ensures Closing(items, waiters, settled, accepted, calls)
  {
  }

  lemma CloseTells<T>(items: seq<T>, waiters: seq<nat>, settled: map<nat, Answer<T>>, accepted: seq<T>, calls: nat)
    requires Closing(items, waiters, settled, accepted, calls) && waiters != []
    ensures Closing(items, waiters[1..], settled[waiters[0] := Done], accepted, calls)
  {
  }

  lemma CloseEnds<T>(items: seq<T>, waiters: seq<nat>, settled: map<nat, Answer<T>>, accepted: seq<T>, calls: nat)
    requires Closing(items, waiters, settled, accepted, calls) && waiters == []
    ensures Fits(items, waiters, settled, accepted, true, calls)
  {
  }

  /**
   * Calls of `next` are numbered; `waiters` are the calls whose promise is still pending and `settled` what
   * the others resolved to.
   */
  class AsyncQueue<T(!new)> {
    var items: seq<T>
    var waiters: seq<nat>
    var closed: bool
    var calls: nat
    var settled: map<nat, Answer<T>>
    ghost var history: seq<Event<T>>

    /** The whole state is determined by what happened, not by how calls and pushes interleaved. */
    ghost predicate Valid()
      reads this
    {
      && calls == Calls(history)
      && closed == IsClosed(history)
      && Fits(items, waiters, settled, Accepted(history), closed, calls)
    }

    constructor ()
      ensures Valid() && history == []
    {
      items, waiters, closed, calls, settled := [], [], false, 0, map[];
      history := [];
    }

    method Push(item: T)
      requires Valid()
      modifies this
      ensures Valid() && history == old(history) + [Event.Push(item)]
    {
      hide Fits, Accepted, Calls, IsClosed;
      ClosedSnoc(history, Event.Push(item));
      AcceptedSnoc(history, Event.Push(item));
      ghost var accepted := Accepted(history);
      assert accepted + [] == accepted;
      CallsSnoc(history, Event.Push(item));
      history := history + [Event.Push(item)];
      if closed {
        return;
      }
      if waiters != [] {
        PushWaited(items, waiters, settled, accepted, calls, item);
        settled := settled[waiters[0] := Item(item)];
        waiters := waiters[1..];
      } else {
        PushQueued(items, waiters, settled, accepted, calls, item);
        items := items + [item];
      }
    }

    method Close()
      requires Valid()
      modifies this
      ensures Valid() && history == old(history) + [Event.Close]
    {
      hide Fits, Accepted, Calls, IsClosed, Closing;
      ClosedSnoc(history, Event.Close);
      AcceptedSnoc(history, Event.Close);
      ghost var accepted := Accepted(history);
      assert accepted + [] == accepted;
      CallsSnoc(history, Event.Close);
      history := history + [Event.Close];
      if closed {
        return;
      }
      closed := true;
      CloseStarts(items, waiters, settled, accepted, calls);
      while waiters != []
        invariant calls == Calls(history) && closed && IsClosed(history)
        invariant history == old(history) + [Event.Close]
        invariant Closing(items, waiters, settled, accepted, calls)
        decreases |waiters|
      {
        CloseTells(items, waiters, settled, accepted, calls);
        settled := settled[waiters[0] := Done];
        waiters := waiters[1..];
      }
      CloseEnds(items, waiters, settled, accepted, calls);
    }

    method Next() returns (n: nat)
      requires Valid()
      modifies this
      ensures Valid() && history == old(history) + [Event.Next]
      ensures n == old(calls)
    {
      hide Fits, Accepted, Calls, IsClosed, Closing;
      ClosedSnoc(history, Event.Next);
      AcceptedSnoc(history, Event.Next);
      ghost var accepted := Accepted(history);
      assert accepted + [] == accepted;
      CallsSnoc(history, Event.Next);
      history := history + [Event.Next];
      n := calls;
      calls := calls + 1;
      if items != [] {
        NextTakes(items, waiters, settled, accepted, closed, n);
        settled := settled[n := Item(items[0])];
        items := items[1..];
      } else if closed {
        NextFinds(items, waiters, settled, accepted, closed, n);
        settled := settled[n := Done];
      } else {
        NextFinds(items, waiters, settled, accepted, closed, n);
        waiters := waiters + [n];
      }
    }

    /** `return` closes the queue for everyone; items already pushed can still be taken. */
    method Return() returns (answer: Answer<T>)
      requires Valid()
      modifies this
      ensures Valid() && history == old(history) + [Event.Close]
      ensures answer == Done
    {
      Close();
      answer := Done;
    }
  }

  /** Items and waiters never coexist, and call `n` was answered exactly as its number says. */
  lemma QueueAnswers<T(!new)>(q: AsyncQueue<T>, n: nat)
    requires q.Valid() && n < q.calls
    ensures q.items == [] || q.waiters == []
    ensures if n in q.settled then AnswerTo(q.history, n) == Some(q.settled[n])
            else AnswerTo(q.history, n) == None && n in q.waiters
  {
    if n !in q.settled {
      var first := |Accepted(q.history)|;
      assert Range(first, q.calls)[n - first] == n;
    }
  }
}
