/** The webhook input queue: pushed inputs wait for one consumer, which may give up waiting. */
module WebhookQueue {
  import opened Options

  datatype Settled<T> = Received(input: T) | Aborted

  /** Who took an input: a call of `wait`, by number, or a drain. */
  datatype Taker = Waiter(call: nat) | Drain

  datatype Taken<T> = Taken(input: T, taker: Taker)

  function Inputs<T>(log: seq<Taken<T>>): seq<T> {
    seq(|log|, i requires 0 <= i < |log| => log[i].input)
  }

  lemma InputsSnoc<T>(log: seq<Taken<T>>, t: Taken<T>)
    ensures Inputs(log + [t]) == Inputs(log) + [t.input]
  {
  }

  /** Call `n` resolved to an input if and only if the log has it taking that input, and then only once. */
  ghost predicate LogFits<T(!new)>(log: seq<Taken<T>>, settled: map<nat, Settled<T>>) {
    && (forall i, j :: 0 <= i < j < |log| && log[i].taker.Waiter? ==> log[i].taker != log[j].taker)
    && (forall i :: 0 <= i < |log| && log[i].taker.Waiter? ==>
         log[i].taker.call in settled && settled[log[i].taker.call] == Received(log[i].input))
    && (forall n :: n in settled && settled[n].Received? ==> Taken(settled[n].input, Waiter(n)) in log)
  }

  lemma LogReceived<T(!new)>(log: seq<Taken<T>>, settled: map<nat, Settled<T>>, n: nat, input: T)
    requires LogFits(log, settled) && n !in settled
    ensures LogFits(log + [Taken(input, Waiter(n))], settled[n := Received(input)])
  {
    var log' := log + [Taken(input, Waiter(n))];
    assert log'[|log|] == Taken(input, Waiter(n));
    forall k | k in settled && settled[k].Received? ensures Taken(settled[k].input, Waiter(k)) in log' {
      assert Taken(settled[k].input, Waiter(k)) in log;
    }
  }

  lemma LogDrained<T(!new)>(log: seq<Taken<T>>, settled: map<nat, Settled<T>>, input: T)
    requires LogFits(log, settled)
    ensures LogFits(log + [Taken(input, Drain)], settled)
  {
    forall k | k in settled && settled[k].Received?
      ensures Taken(settled[k].input, Waiter(k)) in log + [Taken(input, Drain)]
    {
      assert Taken(settled[k].input, Waiter(k)) in log;
    }
  }

  lemma LogAborted<T(!new)>(log: seq<Taken<T>>, settled: map<nat, Settled<T>>, n: nat)
    requires LogFits(log, settled) && n !in settled
    ensures LogFits(log, settled[n := Settled.Aborted])
  {
  }

  class InputQueue<T(!new)> {
    var queue: seq<T>
    var inputWaiter: Option<nat>
    var calls: nat
    var settled: map<nat, Settled<T>>
    ghost var pushed: seq<T>
    ghost var log: seq<Taken<T>>

    /** Every input pushed so far was taken once, in push order, or is still queued. */
    ghost predicate Valid()
      reads this
    {
      && pushed == Inputs(log) + queue
      && LogFits(log, settled)
      && (inputWaiter.Some? ==> queue == [] && inputWaiter.value < calls && inputWaiter.value !in settled)
      && (forall n :: n in settled ==> n < calls)
    }

    /** Every pending call is the one that will get the next input. */
    ghost predicate OneConsumer()
      reads this
    {
      forall n: nat :: n < calls ==> n in settled || inputWaiter == Some(n)
    }

    /** Call `n` has no input, and no push can give it one: it is not the one that waits. */
    ghost predicate NoInputFor(n: nat)
      reads this
    {
      n < calls && inputWaiter != Some(n) && (n in settled ==> settled[n].Aborted?)
    }

    constructor ()
      ensures Valid() && OneConsumer() && pushed == [] && log == [] && calls == 0
    {
      queue, inputWaiter, calls, settled := [], None, 0, map[];
      pushed, log := [], [];
    }

    method Push(input: T)
      requires Valid()
      modifies this
      ensures Valid() && pushed == old(pushed) + [input] && calls == old(calls)
      ensures old(inputWaiter).Some? ==>
        && inputWaiter == None && queue == []
        && settled == old(settled)[old(inputWaiter).value := Received(input)]
      ensures old(inputWaiter).None? ==>
        inputWaiter == None && queue == old(queue) + [input] && settled == old(settled) && log == old(log)
      ensures old(OneConsumer()) ==> OneConsumer()
      ensures forall i: nat :: old(NoInputFor(i)) ==> NoInputFor(i)
    {
      hide LogFits;
      pushed := pushed + [input];
      if inputWaiter.Some? {
        var n := inputWaiter.value;
        inputWaiter := None;
        LogReceived(log, settled, n, input);
        InputsSnoc(log, Taken(input, Waiter(n)));
        settled := settled[n := Received(input)];
        log := log + [Taken(input, Waiter(n))];
      } else {
        assert Inputs(log) + (queue + [input]) == Inputs(log) + queue + [input];
        queue := queue + [input];
      }
    }

    /**
     * A queued input is delivered even on a signal that is already aborted. A call that has to wait takes
     * the place of one that waits already: that one never gets an input.
     */
    method Wait(aborted: bool) returns (n: nat)
      requires Valid()
      modifies this
      ensures Valid() && pushed == old(pushed) && n == old(calls) && calls == n + 1
      ensures old(queue) != [] ==>
        settled == old(settled)[n := Received(old(queue)[0])] && queue == old(queue)[1..] && inputWaiter == None
      ensures old(queue) == [] ==> queue == [] && log == old(log)
      ensures old(queue) == [] && aborted ==>
        settled == old(settled)[n := Settled.Aborted] && inputWaiter == old(inputWaiter)
      ensures old(queue) == [] && !aborted ==> settled == old(settled) && inputWaiter == Some(n)
      ensures old(OneConsumer()) ==> (OneConsumer() <==> old(inputWaiter).None? || aborted)
      ensures old(inputWaiter).Some? && !aborted ==> NoInputFor(old(inputWaiter).value)
      ensures forall i: nat :: old(NoInputFor(i)) ==> NoInputFor(i)
    {
      hide LogFits;
      n := calls;
      calls := calls + 1;
      if queue != [] {
        LogReceived(log, settled, n, queue[0]);
        InputsSnoc(log, Taken(queue[0], Waiter(n)));
        assert Inputs(log) + [queue[0]] + queue[1..] == Inputs(log) + queue;
        settled := settled[n := Received(queue[0])];
        log := log + [Taken(queue[0], Waiter(n))];
        queue := queue[1..];
      } else if aborted {
        LogAborted(log, settled, n);
        settled := settled[n := Settled.Aborted];
      } else {
        inputWaiter := Some(n);
      }
    }

    /** The signal of call `n` fires. A call that has its input no longer listens. */
    method Abort(n: nat)
      requires Valid() && n < calls
      modifies this
      ensures Valid() && pushed == old(pushed) && calls == old(calls)
      ensures queue == old(queue) && log == old(log)
      ensures n in old(settled) ==> settled == old(settled) && inputWaiter == old(inputWaiter)
      ensures n !in old(settled) ==>
        && settled == old(settled)[n := Settled.Aborted]
        && inputWaiter == (if old(inputWaiter) == Some(n) then None else old(inputWaiter))
        && NoInputFor(n)
      ensures old(OneConsumer()) ==> OneConsumer()
      ensures forall i: nat :: old(NoInputFor(i)) ==> NoInputFor(i)
    {
      hide LogFits;
      if n !in settled {
        if inputWaiter == Some(n) {
          inputWaiter := None;
        }
        LogAborted(log, settled, n);
        settled := settled[n := Settled.Aborted];
      }
    }

    /** One step of a drain: the oldest queued input, if there is one. */
    method DrainOne() returns (input: Option<T>)
      requires Valid()
      modifies this
      ensures Valid() && pushed == old(pushed) && calls == old(calls) && settled == old(settled)
      ensures inputWaiter == old(inputWaiter)
      ensures input == if old(queue) == [] then None else Some(old(queue)[0])
      ensures queue == if old(queue) == [] then [] else old(queue)[1..]
      ensures log == old(log) + if old(queue) == [] then [] else [Taken(old(queue)[0], Drain)]
      ensures old(OneConsumer()) ==> OneConsumer()
      ensures forall i: nat :: old(NoInputFor(i)) ==> NoInputFor(i)
    {
      hide LogFits;
      if queue == [] {
        return None;
      }
      input := Some(queue[0]);
      LogDrained(log, settled, queue[0]);
      InputsSnoc(log, Taken(queue[0], Drain));
      assert Inputs(log) + [queue[0]] + queue[1..] == Inputs(log) + queue;
      log := log + [Taken(queue[0], Drain)];
      queue := queue[1..];
    }
  }

  /** With one consumer no input is lost, whichever waits are aborted: none is held back from a pending call. */
  lemma NothingLost<T(!new)>(q: InputQueue<T>, n: nat)
    requires q.Valid() && q.OneConsumer() && n < q.calls && n !in q.settled
    ensures q.queue == [] && Inputs(q.log) == q.pushed && q.inputWaiter == Some(n)
  {
  }

  /** The input of call `n` is the one that was pushed at its place in the log. */
  lemma ReceivedWasPushed<T(!new)>(q: InputQueue<T>, n: nat)
    requires q.Valid() && n in q.settled && q.settled[n].Received?
    ensures exists i :: 0 <= i < |q.log| && q.log[i].taker == Waiter(n) && q.pushed[i] == q.settled[n].input
  {
    assert Taken(q.settled[n].input, Waiter(n)) in q.log;
    var i :| 0 <= i < |q.log| && q.log[i] == Taken(q.settled[n].input, Waiter(n));
    assert q.pushed[i] == Inputs(q.log)[i];
  }
}
