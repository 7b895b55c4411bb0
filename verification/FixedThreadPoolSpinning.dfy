/**
 `FixedThreadPool` spins before it parks: no thread is ever parked unless it has looked for a change as often as the
 spin count says since it began to wait.
 */
module FixedThreadPoolSpinning {
  import opened FixedThreadPool
  import opened FixedThreadPoolSafety
  import opened FixedThreadPoolProgress

  // ----- workers

  predicate Waits(w: WorkerPc) { w.Spin? || w.Wait? || w.Parked? || w.Reload? }

  /// How often worker `i` has spun, among the first `n` steps, since it last began to wait.
  function Spins(states: seq<Sys>, actors: seq<Actor>, i: nat, n: nat): nat
    requires n <= |actors| && n <= |states|
  {
    if n == 0 then 0
    else if actors[n - 1] != Worker(i) || i >= |states[n - 1].workers| then Spins(states, actors, i, n - 1)
    else
      var w := states[n - 1].workers[i];
      if !Waits(w) then 0 else Spins(states, actors, i, n - 1) + if w.Spin? then 1 else 0
  }

  predicate SpunEnough(c: Config, w: WorkerPc, spins: nat) {
    match w
    case Spin(_, left) => 0 < left && left + spins == c.spinCount
    case Wait(_) => spins == c.spinCount
    case Parked(_) => spins == c.spinCount
    case Reload(_) => spins == c.spinCount
    case _ => true
  }

  lemma OthersLeaveWorker(c: Config, s: Sys, a: Actor, i: nat)
    requires Enabled(c, s, a) && i < |s.workers| && a != Worker(i)
    ensures var t := Apply(c, s, a);
            i < |t.workers| && (t.workers[i] == s.workers[i] || t.workers[i] == Wake(s.workers[i]))
  {
    match a
    case Caller => if !s.caller.NotifyRegion? && !s.caller.StopNotify? { CallerKeepsWorkers(c, s); }
    case Worker(k) => WorkerFrame(c, s, k);
    case _ =>
  }

  lemma OwnStep(c: Config, s: Sys, i: nat, spins: nat)
    requires Enabled(c, s, Worker(i)) && SpunEnough(c, s.workers[i], spins)
    ensures var w, t := s.workers[i], WorkerStep(c, s, i);
            i < |t.workers| &&
            SpunEnough(c, t.workers[i], if !Waits(w) then 0 else spins + if w.Spin? then 1 else 0)
  {
    WorkerFrame(c, s, i);
  }

  lemma WorkerSpins(c: Config, s: Sys, a: Actor, i: nat, spins: nat)
    requires Enabled(c, s, a) && i < |s.workers| && SpunEnough(c, s.workers[i], spins)
    ensures var w, t := s.workers[i], Apply(c, s, a);
            i < |t.workers| &&
            SpunEnough(c, t.workers[i], if a != Worker(i) then spins
                                        else if !Waits(w) then 0 else spins + if w.Spin? then 1 else 0)
  {
    if a == Worker(i) { OwnStep(c, s, i, spins); } else { OthersLeaveWorker(c, s, a, i); }
  }

  lemma {:induction false} WorkersSpin(c: Config, states: seq<Sys>, actors: seq<Actor>, i: nat, n: nat)
    requires IsRun(c, states, actors) && n < |states| && i < c.WorkerNum()
    ensures i < |states[n].workers| && SpunEnough(c, states[n].workers[i], Spins(states, actors, i, n))
  {
    if n > 0 {
      WorkersSpin(c, states, actors, i, n - 1);
      WorkerSpins(c, states[n - 1], actors[n - 1], i, Spins(states, actors, i, n - 1));
    }
  }

  /// A parked worker has loaded the dispatch state exactly as often as the spin count says before it began to park.
  lemma ParksAfterSpinning(c: Config, states: seq<Sys>, actors: seq<Actor>, i: nat, n: nat)
    requires IsRun(c, states, actors) && n < |states| && i < c.WorkerNum()
    ensures i < |states[n].workers|
    ensures states[n].workers[i].Parked? ==> Spins(states, actors, i, n) == c.spinCount
  {
    WorkersSpin(c, states, actors, i, n);
  }

  // ----- the caller

  predicate CallerWaits(p: CallerPc) { p.AwaitSpin? || p.AwaitLoad? || p.AwaitWait? || p.CallerParked? }

  function CallerSpins(states: seq<Sys>, actors: seq<Actor>, n: nat): nat
    requires n <= |actors| && n <= |states|
  {
    if n == 0 then 0
    else if !actors[n - 1].Caller? then CallerSpins(states, actors, n - 1)
    else
      var p := states[n - 1].caller;
      if !CallerWaits(p) then 0 else CallerSpins(states, actors, n - 1) + if p.AwaitSpin? then 1 else 0
  }

  predicate CallerSpunEnough(c: Config, p: CallerPc, spins: nat) {
    match p
    case AwaitSpin(left) => 0 < left && left + spins == c.spinCount
    case AwaitLoad => spins == c.spinCount
    case AwaitWait(_) => spins == c.spinCount
    case CallerParked(_) => spins == c.spinCount
    case _ => true
  }

  lemma CallerOwnStep(c: Config, s: Sys, spins: nat)
    requires Enabled(c, s, Caller) && CallerSpunEnough(c, s.caller, spins)
    ensures CallerSpunEnough(c, CallerStep(c, s).caller,
                             if !CallerWaits(s.caller) then 0 else spins + if s.caller.AwaitSpin? then 1 else 0)
  {
    if s.caller.CallerRun? { RunFrame(c, s, 0, s.caller.run); }
  }

  lemma CallerSpinsStep(c: Config, s: Sys, a: Actor, spins: nat)
    requires Enabled(c, s, a) && CallerSpunEnough(c, s.caller, spins)
    ensures CallerSpunEnough(c, Apply(c, s, a).caller,
                             if !a.Caller? then spins
                             else if !CallerWaits(s.caller) then 0 else spins + if s.caller.AwaitSpin? then 1 else 0)
  {
    match a
    case Caller => CallerOwnStep(c, s, spins);
    case Worker(i) => WorkerFrame(c, s, i);
    case _ =>
  }

  lemma {:induction false} CallerSpinsAlways(c: Config, states: seq<Sys>, actors: seq<Actor>, n: nat)
    requires IsRun(c, states, actors) && n < |states|
    ensures CallerSpunEnough(c, states[n].caller, CallerSpins(states, actors, n))
  {
    if n > 0 {
      CallerSpinsAlways(c, states, actors, n - 1);
      CallerSpinsStep(c, states[n - 1], actors[n - 1], CallerSpins(states, actors, n - 1));
    }
  }

  /// So has the parked caller loaded the counter of unfinished workers.
  lemma CallerParksAfterSpinning(c: Config, states: seq<Sys>, actors: seq<Actor>, n: nat)
    requires IsRun(c, states, actors) && n < |states| && states[n].caller.CallerParked?
    ensures CallerSpins(states, actors, n) == c.spinCount
  {
    CallerSpinsAlways(c, states, actors, n);
  }
}
