/**
 Which exception `FixedThreadPool::execute` rethrows: that of the thread which, among all steps of the call, reached the
 exchange of the flag first.
 */
module FixedThreadPoolExceptions {
  import opened FixedThreadPool
  import opened FixedThreadPoolSafety
  import opened Wrappers

  /// The index whose exception the step of `a` tries to store: its thread is at the exchange of the flag.
  function AtExchange(s: Sys, a: Actor): Option<nat> {
    match a
    case Caller => if s.caller.CallerRun? && s.caller.run.Exchange? then Some(0) else None
    case Worker(i) =>
      if i < |s.workers| && s.workers[i].WorkerRun? && s.workers[i].run.Exchange? then Some(i + 1) else None
    case _ => None
  }

  /// Step `t` is the first one of call `k` at which a thread is at the exchange, and that thread has index `j`.
  ghost predicate FirstExchange(states: seq<Sys>, actors: seq<Actor>, k: nat, t: nat, j: nat) {
    && t < |actors| < |states|
    && states[t].next == k && AtExchange(states[t], actors[t]) == Some(j)
    && forall u :: 0 <= u < t && states[u].next == k ==> AtExchange(states[u], actors[u]) == None
  }

  /// The index of that thread, if there is one among the first `n` steps.
  function First(states: seq<Sys>, actors: seq<Actor>, k: nat, n: nat): Option<nat>
    requires n <= |actors| && n <= |states|
  {
    if n == 0 then None
    else if First(states, actors, k, n - 1).Some? then First(states, actors, k, n - 1)
    else if states[n - 1].next == k then AtExchange(states[n - 1], actors[n - 1])
    else None
  }

  function Result(k: nat, first: Option<nat>): Outcome {
    if first.Some? then Rethrew(Some(Exn(k, first.value))) else Returned
  }

  // ----- one step

  /// What a step does to the captured exception and to the outcomes.
  ghost predicate Effect(c: Config, s: Sys, a: Actor, t: Sys) {
    if t.next == s.next then
      t.outcomes == s.outcomes && t.winner == if s.winner.Some? then s.winner else AtExchange(s, a)
    else
      && t.next == s.next + 1 && t.winner == None && AtExchange(s, a) == None
      && s.next < |c.calls| && |t.outcomes| == s.next + 1 && t.outcomes[..s.next] == s.outcomes
      && (c.calls[s.next].used >= 2 ==> t.outcomes[s.next] == Result(s.next, s.winner))
  }

  lemma RunEffect(c: Config, s: Sys, j: nat, r: RunPc)
    requires ExcOk(c, s) && Active(s.caller)
    ensures var t := RunStep(c, s, j, r).0;
            t.winner == if s.winner.Some? || !r.Exchange? then s.winner else Some(j)
  {
  }

  lemma CallerEffect(c: Config, s: Sys)
    requires c.Valid() && CallerOk(c, s) && CountOk(c, s) && ExcOk(c, s) && Enabled(c, s, Caller)
    ensures Effect(c, s, Caller, CallerStep(c, s))
  {
    match s.caller
    case CallerRun(r) =>
      RunFrame(c, s, 0, r);
      RunEffect(c, s, 0, r);
    case Ready => ReadyEffect(c, s);
    case TakeExc => RethrowEffect(c, s);
    case _ =>
  }

  lemma ReadyEffect(c: Config, s: Sys)
    requires CallerOk(c, s) && ExcOk(c, s) && s.caller.Ready?
    ensures Effect(c, s, Caller, ReadyStep(c, s))
  {
  }

  lemma RethrowEffect(c: Config, s: Sys)
    requires CallerOk(c, s) && CountOk(c, s) && ExcOk(c, s) && s.caller.TakeExc?
    ensures Effect(c, s, Caller, CallerStep(c, s))
  {
    assert Stage(s, s.winner.value) == 4;
  }

  lemma WorkerEffect(c: Config, s: Sys, i: nat)
    requires CallerOk(c, s) && ExcOk(c, s) && WorkerOk(c, s, i) && Enabled(c, s, Worker(i))
    ensures Effect(c, s, Worker(i), WorkerStep(c, s, i))
  {
    WorkerFrame(c, s, i);
    if s.workers[i].WorkerRun? { RunEffect(c, s, i + 1, s.workers[i].run); } else { RecordsNothing(c, s, i); }
  }

  lemma StepEffect(c: Config, s: Sys, a: Actor)
    requires c.Valid() && Inv(c, s) && Enabled(c, s, a)
    ensures Effect(c, s, a, Apply(c, s, a))
  {
    match a
    case Caller => CallerEffect(c, s);
    case Worker(i) =>
      assert WorkerOk(c, s, i);
      WorkerEffect(c, s, i);
    case _ => SpuriousFrame(c, s, a);
  }

  // ----- every run

  /// After `n` steps, the captured exception is that of the first exchange of the current call, the calls to come have
  /// seen none, and the outcomes of the finished ones are those of their first exchanges.
  ghost predicate History(c: Config, states: seq<Sys>, actors: seq<Actor>, n: nat)
    requires n <= |actors| && n < |states|
  {
    var s := states[n];
    && s.winner == First(states, actors, s.next, n)
    && (forall k: nat :: s.next < k ==> First(states, actors, k, n) == None)
    && s.next <= |s.outcomes| && s.next <= |c.calls|
    && (forall k: nat :: k < s.next && c.calls[k].used >= 2 ==>
          s.outcomes[k] == Result(k, First(states, actors, k, n)))
  }

  lemma HistoryStep(c: Config, states: seq<Sys>, actors: seq<Actor>, n: nat)
    requires n < |actors| && n + 1 < |states| && History(c, states, actors, n)
    requires |states[n].outcomes| == states[n].next && Effect(c, states[n], actors[n], states[n + 1])
    ensures History(c, states, actors, n + 1)
  {
    var m, s, t := n + 1, states[n], states[n + 1];
    assert t.winner == First(states, actors, t.next, m) by {
      if t.next != s.next { assert First(states, actors, t.next, n) == None; }
    }
    forall k: nat | t.next < k ensures First(states, actors, k, m) == None {
      assert First(states, actors, k, n) == None;
    }
    forall k: nat | k < t.next && c.calls[k].used >= 2
      ensures t.outcomes[k] == Result(k, First(states, actors, k, m))
    {
      if k < s.next {
        assert t.outcomes[k] == s.outcomes[k] by {
          if t.next != s.next { assert t.outcomes[..s.next][k] == s.outcomes[k]; }
        }
        assert s.outcomes[k] == Result(k, First(states, actors, k, n));
      }
    }
  }

  /// What step `n` of a run does.
  lemma StepOf(c: Config, states: seq<Sys>, actors: seq<Actor>, n: nat)
    requires c.Valid() && IsRun(c, states, actors) && n < |actors|
    ensures n + 1 < |states| && |states[n].outcomes| == states[n].next
    ensures Effect(c, states[n], actors[n], states[n + 1])
  {
    InvAlways(c, states, actors);
    StepEffect(c, states[n], actors[n]);
  }

  /// Calls are finished one after the other, and what is stored in one of them stays.
  ghost predicate Linked(states: seq<Sys>) {
    forall i, j :: 0 <= i && j == i + 1 < |states| ==>
      && states[i].next <= states[j].next
      && (states[i].exc.Some? && states[j].next == states[i].next ==> states[j].exc == states[i].exc)
  }

  lemma RunIsLinked(c: Config, states: seq<Sys>, actors: seq<Actor>)
    requires c.Valid() && IsRun(c, states, actors)
    ensures Linked(states)
  {
    forall i, j | 0 <= i && j == i + 1 < |states|
      ensures states[i].next <= states[j].next
      ensures states[i].exc.Some? && states[j].next == states[i].next ==> states[j].exc == states[i].exc
    {
      StepOf(c, states, actors, i);
      if states[i].exc.Some? && states[j].next == states[i].next { StoredOf(c, states, actors, i); }
    }
  }

  lemma StoredOf(c: Config, states: seq<Sys>, actors: seq<Actor>, n: nat)
    requires c.Valid() && IsRun(c, states, actors) && n < |actors| && n + 1 < |states|
    requires states[n].exc.Some? && states[n + 1].next == states[n].next
    ensures states[n + 1].exc == states[n].exc
  {
    InvAlways(c, states, actors);
    StoredStep(c, states[n], actors[n]);
  }

  lemma {:induction false} HistoryAlways(c: Config, states: seq<Sys>, actors: seq<Actor>, n: nat)
    requires c.Valid() && IsRun(c, states, actors) && n < |states|
    ensures History(c, states, actors, n)
  {
    if n > 0 {
      HistoryAlways(c, states, actors, n - 1);
      StepOf(c, states, actors, n - 1);
      HistoryStep(c, states, actors, n - 1);
    }
  }

  lemma {:induction false} NextAscends(states: seq<Sys>, m: nat, n: nat)
    requires Linked(states) && m <= n < |states|
    ensures states[m].next <= states[n].next
  {
    if m < n { NextAscends(states, m, n - 1); }
  }

  lemma {:induction false} FirstIs(states: seq<Sys>, actors: seq<Actor>, k: nat, t: nat, j: nat, n: nat)
    requires FirstExchange(states, actors, k, t, j) && n <= |actors|
    ensures First(states, actors, k, n) == if t < n then Some(j) else None
  {
    if n > 0 { FirstIs(states, actors, k, t, j, n - 1); }
  }

  lemma {:induction false} FirstExists(states: seq<Sys>, actors: seq<Actor>, k: nat, n: nat) returns (t: nat)
    requires n <= |actors| < |states| && First(states, actors, k, n).Some?
    ensures t < n && FirstExchange(states, actors, k, t, First(states, actors, k, n).value)
  {
    if First(states, actors, k, n - 1).Some? {
      t := FirstExists(states, actors, k, n - 1);
    } else {
      t := n - 1;
      forall u: nat | u < t && states[u].next == k ensures AtExchange(states[u], actors[u]) == None {
        NoneBefore(states, actors, k, t, u);
      }
    }
  }

  lemma {:induction false} NoneBefore(states: seq<Sys>, actors: seq<Actor>, k: nat, n: nat, u: nat)
    requires u < n <= |actors| < |states| && First(states, actors, k, n) == None && states[u].next == k
    ensures AtExchange(states[u], actors[u]) == None
  {
    if u < n - 1 { NoneBefore(states, actors, k, n - 1, u); }
  }

  /// Of all exceptions thrown in a call, the one whose thread reaches the exchange first is rethrown.
  lemma FirstIsRethrown(c: Config, states: seq<Sys>, actors: seq<Actor>, k: nat, t: nat, j: nat, n: nat)
    requires c.Valid() && IsRun(c, states, actors) && n < |states| && k < states[n].next
    requires FirstExchange(states, actors, k, t, j)
    ensures k < |states[n].outcomes| && states[n].outcomes[k] == Rethrew(Some(Exn(k, j)))
    ensures k < |c.calls| && j in c.calls[k].throws
  {
    HistoryAlways(c, states, actors, n);
    InvAlways(c, states, actors);
    RunIsLinked(c, states, actors);
    if n <= t { NextAscends(states, n, t); }
    FirstIs(states, actors, k, t, j, n);
    ExchangesInRegion(c, states[t], actors[t]);
  }

  /// Only a participant of a region whose task has thrown is at the exchange.
  lemma ExchangesInRegion(c: Config, s: Sys, a: Actor)
    requires Inv(c, s) && AtExchange(s, a).Some?
    ensures Active(s.caller) && s.next < |c.calls| && c.calls[s.next].used >= 2
    ensures AtExchange(s, a).value in c.calls[s.next].throws
  {
    if a.Worker? { assert WorkerOk(c, s, a.i); }
  }

  /// A call on several threads rethrows only what was first at the exchange, and returns if no thread was at it.
  lemma RethrownWasFirst(c: Config, states: seq<Sys>, actors: seq<Actor>, k: nat, n: nat)
    requires c.Valid() && IsRun(c, states, actors) && n < |states| && k < states[n].next
    ensures k < |c.calls| && k < |states[n].outcomes|
    ensures c.calls[k].used >= 2 && states[n].outcomes[k] != Returned ==>
              exists t: nat, j: nat :: t < n && FirstExchange(states, actors, k, t, j)
  {
    HistoryAlways(c, states, actors, n);
    if First(states, actors, k, n).Some? { var t := FirstExists(states, actors, k, n); }
  }

  /// Until the call is finished, no step replaces the exception that was first: nothing else is ever stored, and what
  /// is stored stays.
  lemma FirstIsKept(c: Config, states: seq<Sys>, actors: seq<Actor>, t: nat, j: nat, u: nat, v: nat)
    requires c.Valid() && IsRun(c, states, actors) && t < u <= v < |states|
    requires FirstExchange(states, actors, states[t].next, t, j) && states[v].next == states[t].next
    ensures states[u].exc == None || states[u].exc == Some(Exn(states[t].next, j))
    ensures states[u].exc.Some? ==> states[v].exc == states[u].exc
  {
    InvAlways(c, states, actors);
    RunIsLinked(c, states, actors);
    WinnerIs(c, states, actors, t, j, u, v);
    WinnerIs(c, states, actors, t, j, v, v);
    if states[u].exc.Some? { StoredStays(states, u, v); }
  }

  lemma WinnerIs(c: Config, states: seq<Sys>, actors: seq<Actor>, t: nat, j: nat, u: nat, v: nat)
    requires c.Valid() && IsRun(c, states, actors) && t < u <= v < |states|
    requires FirstExchange(states, actors, states[t].next, t, j) && states[v].next == states[t].next
    ensures states[u].next == states[t].next && states[u].winner == Some(j)
  {
    RunIsLinked(c, states, actors);
    NextAscends(states, t, u);
    NextAscends(states, u, v);
    HistoryAlways(c, states, actors, u);
    FirstIs(states, actors, states[t].next, t, j, u);
  }

  /// While an exception is stored, no thread is about to store one.
  lemma StoredStep(c: Config, s: Sys, a: Actor)
    requires c.Valid() && Inv(c, s) && Enabled(c, s, a) && s.exc.Some? && Apply(c, s, a).next == s.next
    ensures Apply(c, s, a).exc == s.exc
  {
    match a
    case Caller => if s.caller.CallerRun? { StoredRun(c, s, 0, s.caller.run); }
    case Worker(i) => StoredWorker(c, s, i);
    case _ => SpuriousFrame(c, s, a);
  }

  lemma StoredWorker(c: Config, s: Sys, i: nat)
    requires Inv(c, s) && Enabled(c, s, Worker(i)) && s.exc.Some?
    ensures WorkerStep(c, s, i).exc == s.exc
  {
    assert WorkerOk(c, s, i);
    if s.workers[i].WorkerRun? { StoredRun(c, s, i + 1, s.workers[i].run); } else { RecordsNothing(c, s, i); }
  }

  lemma StoredRun(c: Config, s: Sys, j: nat, r: RunPc)
    requires ExcOk(c, s) && s.exc.Some? && Active(s.caller) && s.next < |c.calls| && j < c.calls[s.next].used
    requires Stage(s, j) == RunStage(r)
    ensures RunStep(c, s, j, r).0.exc == s.exc
  {
  }

  lemma {:induction false} StoredStays(states: seq<Sys>, u: nat, v: nat)
    requires Linked(states) && u <= v < |states| && states[u].exc.Some? && states[v].next == states[u].next
    ensures states[v].exc == states[u].exc
  {
    if u < v {
      NextAscends(states, u, v - 1);
      StoredStays(states, u, v - 1);
    }
  }
}
