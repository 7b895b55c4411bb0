/**
 `FixedStdThreadPool` (include/thesauros/execution/executor/fixed-std-thread-pool.hpp): dispatch with a mutex and two
 condition variables.

 All shared variables are accessed under the mutex only, so a critical section is one step; waiting on a condition
 variable releases the mutex and parks in the same step that has found the predicate false. Notifying is a step of its
 own, outside the mutex, and wakes whoever is parked. Waiters may also wake up spuriously. Tasks return.
 */
module FixedStdThreadPool {
  import opened Wrappers

  /// The client calls `execute` with the given `used_thread_num`s and then destroys the pool.
  datatype Config = Config(threadNum: nat, calls: seq<Option<nat>>) {
    /// Thread `i` takes part in call `k`.
    predicate Takes(k: nat, i: nat) {
      k < |calls| && i < threadNum && match calls[k] case None => true case Some(used) => i < used
    }
  }

  datatype CallerPc = Ready | NotifyStart | AwaitEnd | CallerParked | StopNotify | Join | Gone

  /// `last` is the number of the task the worker has handled, `task` the call whose task it has copied.
  datatype WorkerPc =
    | Check(last: nat)
    | Parked(last: nat)
    | Execute(last: nat, task: nat)
    | Decrement(last: nat)
    | NotifyEnd(last: nat)
    | Exited

  /// `next` is the current call, `runs` the history of invocations `fun(index)`.
  datatype Run = Run(call: nat, index: nat)

  datatype Sys = Sys(
    taskId: nat, task: Option<nat>, unfinished: nat,
    caller: CallerPc, workers: seq<WorkerPc>, next: nat, runs: multiset<Run>)

  function Init(c: Config): Sys { Sys(0, None, 0, Ready, seq(c.threadNum, i => Check(0)), 0, multiset{}) }

  datatype Actor = Caller | Worker(i: nat) | SpuriousCaller | SpuriousWorker(i: nat)

  predicate Spurious(a: Actor) { a.SpuriousCaller? || a.SpuriousWorker? }

  predicate Enabled(s: Sys, a: Actor) {
    match a
    case Caller =>
      !s.caller.CallerParked? && !s.caller.Gone? &&
      (s.caller.Join? ==> forall i :: 0 <= i < |s.workers| ==> s.workers[i].Exited?)
    case Worker(i) => i < |s.workers| && !s.workers[i].Parked? && !s.workers[i].Exited?
    case SpuriousCaller => s.caller.CallerParked?
    case SpuriousWorker(i) => i < |s.workers| && s.workers[i].Parked?
  }

  /// What an unblocked waiter does: check the predicate again.
  function Wake(w: WorkerPc): WorkerPc { if w.Parked? then Check(w.last) else w }

  function WakeAll(ws: seq<WorkerPc>): (r: seq<WorkerPc>)
    ensures |r| == |ws| && forall i :: 0 <= i < |ws| ==> r[i] == Wake(ws[i])
  {
    if |ws| == 0 then [] else WakeAll(ws[..|ws| - 1]) + [Wake(ws[|ws| - 1])]
  }

  function WakeCaller(p: CallerPc): CallerPc { if p.CallerParked? then AwaitEnd else p }

  function CallerStep(c: Config, s: Sys): Sys {
    match s.caller
    case Ready =>
      if s.next < |c.calls|
      then s.(task := Some(s.next), unfinished := |s.workers|, taskId := s.taskId + 1, caller := NotifyStart)
      else s.(taskId := s.taskId + 1, caller := StopNotify)
    case NotifyStart => s.(workers := WakeAll(s.workers), caller := AwaitEnd)
    case AwaitEnd =>
      if s.unfinished == 0 then s.(task := None, next := s.next + 1, caller := Ready) else s.(caller := CallerParked)
    case StopNotify => s.(workers := WakeAll(s.workers), caller := Join)
    case Join => s.(caller := Gone)
    case CallerParked => s
    case Gone => s
  }

  /// The step of worker `i` and what it changes besides its program point.
  function NextPc(s: Sys, w: WorkerPc): WorkerPc {
    match w
    case Check(last) =>
      if s.taskId == last then Parked(last) else if s.task.Some? then Execute(s.taskId, s.task.value) else Exited
    case Execute(last, _) => Decrement(last)
    case Decrement(last) => NotifyEnd(last)
    case NotifyEnd(last) => Check(last)
    case Parked(_) => w
    case Exited => w
  }

  function WorkerStep(c: Config, s: Sys, i: nat): Sys
    requires i < |s.workers|
  {
    var w := s.workers[i];
    s.(workers := s.workers[i := NextPc(s, w)],
       unfinished := if w.Decrement? && s.unfinished > 0 then s.unfinished - 1 else s.unfinished,
       caller := if w.NotifyEnd? then WakeCaller(s.caller) else s.caller,
       runs := if w.Execute? && c.Takes(w.task, i) then s.runs + multiset{Run(w.task, i)} else s.runs)
  }

  function Apply(c: Config, s: Sys, a: Actor): Sys
    requires Enabled(s, a)
  {
    match a
    case Caller => CallerStep(c, s)
    case Worker(i) => WorkerStep(c, s, i)
    case SpuriousCaller => s.(caller := AwaitEnd)
    case SpuriousWorker(i) => s.(workers := s.workers[i := Wake(s.workers[i])])
  }

  ghost predicate IsRun(c: Config, states: seq<Sys>, actors: seq<Actor>) {
    && |states| == |actors| + 1
    && states[0] == Init(c)
    && forall t :: 0 <= t < |actors| ==>
         Enabled(states[t], actors[t]) && states[t + 1] == Apply(c, states[t], actors[t])
  }

  // ----- the invariant

  predicate InRegion(p: CallerPc) { p.NotifyStart? || p.AwaitEnd? || p.CallerParked? }

  predicate Stopping(p: CallerPc) { p.StopNotify? || p.Join? || p.Gone? }

  /// How far a worker is with the current task: 0 not begun, 1 running, 2 about to decrement, 3 done.
  function Stage(taskId: nat, w: WorkerPc): nat {
    match w
    case Execute(_, _) => 1
    case Decrement(_) => 2
    case Exited => 3
    case _ => if w.last == taskId then 3 else 0
  }

  /// The number of workers that have not decremented.
  function Busy(taskId: nat, ws: seq<WorkerPc>): nat {
    if |ws| == 0 then 0 else Busy(taskId, ws[..|ws| - 1]) + if Stage(taskId, ws[|ws| - 1]) < 3 then 1 else 0
  }

  ghost predicate CallerOk(c: Config, s: Sys) {
    && |s.workers| == c.threadNum
    && (InRegion(s.caller) ==> s.next < |c.calls| && s.task == Some(s.next))
    && (!InRegion(s.caller) ==> s.task == None && s.unfinished == 0 && s.next <= |c.calls|)
    && (Stopping(s.caller) ==> s.next == |c.calls|)
    && s.taskId == s.next + if s.caller.Ready? then 0 else 1
  }

  /// What holds of one worker, whatever the others do. A sleeper on an old number is about to be notified.
  ghost predicate WorkerOk(s: Sys, i: nat) {
    i < |s.workers| &&
    match s.workers[i]
    case Execute(last, task) => InRegion(s.caller) && last == s.taskId && task == s.next
    case Decrement(last) => InRegion(s.caller) && last == s.taskId
    case Exited => Stopping(s.caller)
    case w =>
      && w.last <= s.taskId <= w.last + 1
      && (s.caller.Ready? ==> w.last == s.taskId)
      && (Stopping(s.caller) ==> w.last != s.taskId)
      && (w.Parked? && w.last != s.taskId ==> s.caller.NotifyStart? || s.caller.StopNotify?)
  }

  ghost predicate CountOk(s: Sys) {
    && (InRegion(s.caller) ==> s.unfinished == Busy(s.taskId, s.workers))
    && (s.caller.CallerParked? && s.unfinished == 0 ==> exists i :: 0 <= i < |s.workers| && s.workers[i].NotifyEnd?)
  }

  /// How often an invocation must have happened.
  ghost function Expected(c: Config, s: Sys, r: Run): nat {
    if c.Takes(r.call, r.index) &&
       (r.call < s.next ||
        (r.call == s.next && InRegion(s.caller) && r.index < |s.workers| && Stage(s.taskId, s.workers[r.index]) >= 2))
    then 1 else 0
  }

  ghost predicate RunsOk(c: Config, s: Sys) { forall r: Run :: s.runs[r] == Expected(c, s, r) }

  ghost predicate Inv(c: Config, s: Sys) {
    CallerOk(c, s) && (forall i :: 0 <= i < |s.workers| ==> WorkerOk(s, i)) && CountOk(s) && RunsOk(c, s)
  }

  lemma {:induction false} BusyUpdate(taskId: nat, ws: seq<WorkerPc>, i: nat, w: WorkerPc)
    requires i < |ws|
    ensures Busy(taskId, ws[i := w]) ==
            Busy(taskId, ws) - (if Stage(taskId, ws[i]) < 3 then 1 else 0) + if Stage(taskId, w) < 3 then 1 else 0
    decreases |ws|
  {
    var n := |ws| - 1;
    if i < n {
      BusyUpdate(taskId, ws[..n], i, w);
      assert ws[i := w][..n] == ws[..n][i := w];
    } else {
      assert ws[i := w][..n] == ws[..n];
    }
  }

  lemma {:induction false} BusySame(taskId: nat, a: seq<WorkerPc>, b: seq<WorkerPc>)
    requires |a| == |b| && forall i :: 0 <= i < |a| ==> Stage(taskId, a[i]) == Stage(taskId, b[i])
    ensures Busy(taskId, a) == Busy(taskId, b)
  {
    if |a| > 0 { BusySame(taskId, a[..|a| - 1], b[..|b| - 1]); }
  }

  lemma {:induction false} BusyAll(taskId: nat, ws: seq<WorkerPc>)
    requires forall i :: 0 <= i < |ws| ==> Stage(taskId, ws[i]) < 3
    ensures Busy(taskId, ws) == |ws|
  {
    if |ws| > 0 { BusyAll(taskId, ws[..|ws| - 1]); }
  }

  lemma {:induction false} BusyNone(taskId: nat, ws: seq<WorkerPc>, i: nat)
    requires Busy(taskId, ws) == 0 && i < |ws|
    ensures Stage(taskId, ws[i]) == 3
  {
    if i < |ws| - 1 { BusyNone(taskId, ws[..|ws| - 1], i); }
  }

  lemma {:induction false} BusyWitness(taskId: nat, ws: seq<WorkerPc>) returns (i: nat)
    requires Busy(taskId, ws) > 0
    ensures i < |ws| && Stage(taskId, ws[i]) < 3
  {
    i := |ws| - 1;
    if Stage(taskId, ws[i]) == 3 { i := BusyWitness(taskId, ws[..i]); }
  }

  // ----- steps of the caller

  lemma PublishKeepsInv(c: Config, s: Sys)
    requires Inv(c, s) && s.caller.Ready?
    ensures Inv(c, CallerStep(c, s))
  {
    var t := CallerStep(c, s);
    forall i | 0 <= i < |t.workers| ensures WorkerOk(t, i) && Stage(t.taskId, t.workers[i]) == 0 {
      assert WorkerOk(s, i);
    }
    BusyAll(t.taskId, t.workers);
    forall r: Run ensures t.runs[r] == Expected(c, t, r) { assert s.runs[r] == Expected(c, s, r); }
  }

  lemma NotifyKeepsWorker(c: Config, s: Sys, i: nat)
    requires CallerOk(c, s) && (s.caller.NotifyStart? || s.caller.StopNotify?) && WorkerOk(s, i)
    ensures WorkerOk(CallerStep(c, s), i)
    ensures Stage(s.taskId, CallerStep(c, s).workers[i]) == Stage(s.taskId, s.workers[i])
  {
  }

  lemma NotifyKeepsInv(c: Config, s: Sys)
    requires Inv(c, s) && (s.caller.NotifyStart? || s.caller.StopNotify?)
    ensures Inv(c, CallerStep(c, s))
  {
    var t := CallerStep(c, s);
    forall i | 0 <= i < |t.workers|
      ensures WorkerOk(t, i) && Stage(t.taskId, t.workers[i]) == Stage(s.taskId, s.workers[i])
    {
      NotifyKeepsWorker(c, s, i);
    }
    BusySame(s.taskId, s.workers, t.workers);
    forall r: Run ensures Expected(c, t, r) == Expected(c, s, r) {}
  }

  lemma AwaitKeepsInv(c: Config, s: Sys)
    requires Inv(c, s) && s.caller.AwaitEnd?
    ensures Inv(c, CallerStep(c, s))
  {
    var t := CallerStep(c, s);
    forall i | 0 <= i < |t.workers| ensures WorkerOk(t, i) {
      assert WorkerOk(s, i);
      if s.unfinished == 0 { BusyNone(s.taskId, s.workers, i); }
    }
    forall r: Run ensures t.runs[r] == Expected(c, t, r) {
      assert s.runs[r] == Expected(c, s, r);
      if s.unfinished == 0 && r.index < |s.workers| { BusyNone(s.taskId, s.workers, r.index); }
    }
  }

  lemma JoinKeepsInv(c: Config, s: Sys)
    requires Inv(c, s) && s.caller.Join?
    ensures Inv(c, CallerStep(c, s))
  {
    var t := CallerStep(c, s);
    forall i | 0 <= i < |t.workers| ensures WorkerOk(t, i) { assert WorkerOk(s, i); }
    forall r: Run ensures t.runs[r] == Expected(c, t, r) { assert s.runs[r] == Expected(c, s, r); }
  }

  lemma CallerKeepsInv(c: Config, s: Sys)
    requires Inv(c, s) && Enabled(s, Caller)
    ensures Inv(c, CallerStep(c, s))
  {
    match s.caller {
      case Ready => PublishKeepsInv(c, s);
      case NotifyStart => NotifyKeepsInv(c, s);
      case StopNotify => NotifyKeepsInv(c, s);
      case AwaitEnd => AwaitKeepsInv(c, s);
      case Join => JoinKeepsInv(c, s);
      case _ =>
    }
  }

  // ----- steps of a worker

  lemma WorkerKeepsWorkers(c: Config, s: Sys, i: nat, k: nat)
    requires CallerOk(c, s) && WorkerOk(s, i) && WorkerOk(s, k) && Enabled(s, Worker(i))
    ensures WorkerOk(WorkerStep(c, s, i), k)
  {
  }

  lemma WorkerKeepsCount(c: Config, s: Sys, i: nat)
    requires CallerOk(c, s) && WorkerOk(s, i) && CountOk(s) && Enabled(s, Worker(i))
    ensures CountOk(WorkerStep(c, s, i)) && CallerOk(c, WorkerStep(c, s, i))
  {
    var t := WorkerStep(c, s, i);
    BusyUpdate(s.taskId, s.workers, i, t.workers[i]);
    if t.caller.CallerParked? && t.unfinished == 0 {
      if s.unfinished == 0 {
        var j :| 0 <= j < |s.workers| && s.workers[j].NotifyEnd?;
        assert t.workers[j].NotifyEnd?;
      } else {
        assert t.workers[i].NotifyEnd?;
      }
    }
  }

  lemma WorkerKeepsRuns(c: Config, s: Sys, i: nat)
    requires CallerOk(c, s) && WorkerOk(s, i) && RunsOk(c, s) && Enabled(s, Worker(i))
    ensures RunsOk(c, WorkerStep(c, s, i))
  {
    var t := WorkerStep(c, s, i);
    forall r: Run ensures t.runs[r] == Expected(c, t, r) { assert s.runs[r] == Expected(c, s, r); }
  }

  lemma WorkerKeepsInv(c: Config, s: Sys, i: nat)
    requires Inv(c, s) && Enabled(s, Worker(i))
    ensures Inv(c, WorkerStep(c, s, i))
  {
    assert WorkerOk(s, i);
    WorkerKeepsCount(c, s, i);
    WorkerKeepsRuns(c, s, i);
    forall k | 0 <= k < |s.workers| ensures WorkerOk(WorkerStep(c, s, i), k) {
      assert WorkerOk(s, k);
      WorkerKeepsWorkers(c, s, i, k);
    }
  }

  lemma SpuriousKeepsInv(c: Config, s: Sys, a: Actor)
    requires Inv(c, s) && Enabled(s, a) && Spurious(a)
    ensures Inv(c, Apply(c, s, a))
  {
    var t := Apply(c, s, a);
    forall k | 0 <= k < |t.workers| ensures WorkerOk(t, k) { assert WorkerOk(s, k); }
    if a.SpuriousWorker? {
      assert WorkerOk(s, a.i);
      BusyUpdate(s.taskId, s.workers, a.i, t.workers[a.i]);
      if s.caller.CallerParked? && s.unfinished == 0 {
        var j :| 0 <= j < |s.workers| && s.workers[j].NotifyEnd?;
        assert t.workers[j].NotifyEnd?;
      }
    }
    forall r: Run ensures t.runs[r] == Expected(c, t, r) { assert s.runs[r] == Expected(c, s, r); }
  }

  lemma KeepsInv(c: Config, s: Sys, a: Actor)
    requires Inv(c, s) && Enabled(s, a)
    ensures Inv(c, Apply(c, s, a))
  {
    match a {
      case Caller => CallerKeepsInv(c, s);
      case Worker(i) => WorkerKeepsInv(c, s, i);
      case _ => SpuriousKeepsInv(c, s, a);
    }
  }

  /// The invariant holds in every state of every run.
  lemma {:induction false} InvAlways(c: Config, states: seq<Sys>, actors: seq<Actor>, t: nat)
    requires IsRun(c, states, actors) && t < |states|
    ensures Inv(c, states[t])
    decreases t
  {
    if t > 0 {
      InvAlways(c, states, actors, t - 1);
      KeepsInv(c, states[t - 1], actors[t - 1]);
    }
  }

  // ----- what it gives

  /// Every index that takes part in a finished call ran exactly once, no other ever ran.
  lemma ExactlyOnce(c: Config, states: seq<Sys>, actors: seq<Actor>, t: nat, r: Run)
    requires IsRun(c, states, actors) && t < |states|
    ensures r.call < states[t].next ==> states[t].runs[r] == if c.Takes(r.call, r.index) then 1 else 0
    ensures r in states[t].runs ==> states[t].runs[r] == 1 && r.call <= states[t].next && c.Takes(r.call, r.index)
  {
    InvAlways(c, states, actors, t);
    assert states[t].runs[r] == Expected(c, states[t], r);
  }

  /// A copied task is that of the call that is waiting for it, and `execute` returns only after all workers are done.
  lemma ReturnsAfterAll(c: Config, states: seq<Sys>, actors: seq<Actor>, t: nat, i: nat)
    requires IsRun(c, states, actors) && t < |states| && i < |states[t].workers|
    ensures var s := states[t];
            && (s.workers[i].Execute? ==> InRegion(s.caller) && s.task == Some(s.workers[i].task) && 0 < s.unfinished)
            && (s.workers[i].Decrement? ==> InRegion(s.caller) && 0 < s.unfinished)
            && (s.caller.Ready? ==> Stage(s.taskId, s.workers[i]) == 3)
  {
    InvAlways(c, states, actors, t);
    var s := states[t];
    assert WorkerOk(s, i);
    if InRegion(s.caller) && s.unfinished == 0 { BusyNone(s.taskId, s.workers, i); }
  }

  /// In every reachable state before the end some thread can step without a spurious wake-up: none is lost.
  lemma NoDeadlock(c: Config, states: seq<Sys>, actors: seq<Actor>, t: nat)
    requires IsRun(c, states, actors) && t < |states| && !states[t].caller.Gone?
    ensures exists a :: Enabled(states[t], a) && !Spurious(a)
  {
    InvAlways(c, states, actors, t);
    var s := states[t];
    if s.caller.CallerParked? {
      var i;
      if s.unfinished > 0 {
        i := BusyWitness(s.taskId, s.workers);
      } else {
        i :| 0 <= i < |s.workers| && s.workers[i].NotifyEnd?;
      }
      assert WorkerOk(s, i);
      assert Enabled(s, Worker(i));
    } else if s.caller.Join? && exists i :: 0 <= i < |s.workers| && !s.workers[i].Exited? {
      var i :| 0 <= i < |s.workers| && !s.workers[i].Exited?;
      assert WorkerOk(s, i);
      assert Enabled(s, Worker(i));
    } else {
      assert Enabled(s, Caller);
    }
  }

  // ----- every run ends

  function WorkerRank(m: nat, w: WorkerPc): int {
    match w
    case Exited => 0
    case Parked(last) => 7 * (m - last) + 1
    case Check(last) => 7 * (m - last) + 2
    case NotifyEnd(last) => 7 * (m - last) + 4
    case Decrement(last) => 7 * (m - last) + 5
    case Execute(last, _) => 7 * (m - last) + 6
  }

  function Ranks(m: nat, ws: seq<WorkerPc>): int {
    if |ws| == 0 then 0 else Ranks(m, ws[..|ws| - 1]) + WorkerRank(m, ws[|ws| - 1])
  }

  function CallsRank(n: nat, left: nat): nat { if left == 0 then 0 else n + 5 + CallsRank(n, left - 1) }

  function CallerRank(c: Config, s: Sys): nat {
    var n, left := c.threadNum, if s.next < |c.calls| then |c.calls| - s.next else 0;
    match s.caller
    case Ready => CallsRank(n, left) + n + 3
    case NotifyStart => CallsRank(n, if left > 0 then left - 1 else 0) + n + 3 + n + 3
    case AwaitEnd => CallsRank(n, if left > 0 then left - 1 else 0) + n + 3 + 2
    case CallerParked => CallsRank(n, if left > 0 then left - 1 else 0) + n + 3 + 1
    case StopNotify => n + 2
    case Join => 1
    case Gone => 0
  }

  function Measure(c: Config, s: Sys): int { CallerRank(c, s) + Ranks(|c.calls| + 1, s.workers) }

  lemma {:induction false} RanksUpdate(m: nat, ws: seq<WorkerPc>, i: nat, w: WorkerPc)
    requires i < |ws|
    ensures Ranks(m, ws[i := w]) == Ranks(m, ws) - WorkerRank(m, ws[i]) + WorkerRank(m, w)
    decreases |ws|
  {
    var n := |ws| - 1;
    if i < n {
      RanksUpdate(m, ws[..n], i, w);
      assert ws[i := w][..n] == ws[..n][i := w];
    } else {
      assert ws[i := w][..n] == ws[..n];
    }
  }

  lemma {:induction false} RanksWake(m: nat, ws: seq<WorkerPc>)
    ensures Ranks(m, WakeAll(ws)) <= Ranks(m, ws) + |ws|
  {
    if |ws| > 0 {
      RanksWake(m, ws[..|ws| - 1]);
      assert WakeAll(ws)[..|ws| - 1] == WakeAll(ws[..|ws| - 1]);
    }
  }

  lemma {:induction false} RanksPositive(s: Sys, m: nat, n: nat)
    requires n <= |s.workers| && s.taskId <= m && forall i :: 0 <= i < |s.workers| ==> WorkerOk(s, i)
    ensures 0 <= Ranks(m, s.workers[..n])
  {
    if n > 0 {
      RanksPositive(s, m, n - 1);
      assert WorkerOk(s, n - 1);
      assert s.workers[..n][..n - 1] == s.workers[..n - 1];
    }
  }

  /// Going on pays for the workers it wakes.
  lemma CallerRankDrops(c: Config, s: Sys)
    requires CallerOk(c, s) && Enabled(s, Caller)
    ensures CallerRank(c, CallerStep(c, s)) + (if s.caller.NotifyStart? || s.caller.StopNotify? then c.threadNum else 0)
            < CallerRank(c, s)
  {
    var left := if s.next < |c.calls| then |c.calls| - s.next else 0;
    assert left > 0 ==> CallsRank(c.threadNum, left) == c.threadNum + 5 + CallsRank(c.threadNum, left - 1);
  }

  lemma CallerDecreases(c: Config, s: Sys)
    requires CallerOk(c, s) && Enabled(s, Caller)
    ensures Measure(c, CallerStep(c, s)) < Measure(c, s)
  {
    CallerRankDrops(c, s);
    RanksWake(|c.calls| + 1, s.workers);
    assert CallerStep(c, s).workers ==
           if s.caller.NotifyStart? || s.caller.StopNotify? then WakeAll(s.workers) else s.workers;
  }

  lemma WorkerDecreases(c: Config, s: Sys, i: nat)
    requires Inv(c, s) && Enabled(s, Worker(i))
    ensures Measure(c, WorkerStep(c, s, i)) < Measure(c, s)
  {
    assert WorkerOk(s, i);
    RanksUpdate(|c.calls| + 1, s.workers, i, NextPc(s, s.workers[i]));
  }

  lemma SpuriousCosts(c: Config, s: Sys, a: Actor)
    requires Inv(c, s) && Enabled(s, a) && Spurious(a)
    ensures Measure(c, Apply(c, s, a)) <= Measure(c, s) + 1
  {
    if a.SpuriousWorker? { RanksUpdate(|c.calls| + 1, s.workers, a.i, Wake(s.workers[a.i])); }
  }

  function SpuriousIn(actors: seq<Actor>): nat {
    if |actors| == 0 then 0 else SpuriousIn(actors[..|actors| - 1]) + if Spurious(actors[|actors| - 1]) then 1 else 0
  }

  /// A run is no longer than the initial measure plus two steps per spurious wake-up.
  lemma {:induction false} RunsAreBounded(c: Config, states: seq<Sys>, actors: seq<Actor>, t: nat)
    requires IsRun(c, states, actors) && t <= |actors|
    ensures t + Measure(c, states[t]) <= Measure(c, Init(c)) + 2 * SpuriousIn(actors[..t])
    ensures 0 <= Measure(c, states[t])
    decreases t
  {
    InvAlways(c, states, actors, t);
    RanksPositive(states[t], |c.calls| + 1, |states[t].workers|);
    assert states[t].workers[..|states[t].workers|] == states[t].workers;
    if t > 0 {
      var s, a := states[t - 1], actors[t - 1];
      RunsAreBounded(c, states, actors, t - 1);
      InvAlways(c, states, actors, t - 1);
      assert actors[..t][..t - 1] == actors[..t - 1];
      match a {
        case Caller => CallerDecreases(c, s);
        case Worker(i) => WorkerDecreases(c, s, i);
        case _ => SpuriousCosts(c, s, a);
      }
    }
  }

  /// A run that can only go on spuriously has returned from all calls and left no worker behind.
  lemma EndOfRun(c: Config, states: seq<Sys>, actors: seq<Actor>)
    requires IsRun(c, states, actors) && forall a :: Enabled(states[|actors|], a) ==> Spurious(a)
    ensures states[|actors|].caller.Gone? && states[|actors|].next == |c.calls|
    ensures forall k: nat, i: nat :: states[|actors|].runs[Run(k, i)] == if c.Takes(k, i) then 1 else 0
  {
    InvAlways(c, states, actors, |actors|);
    if !states[|actors|].caller.Gone? { NoDeadlock(c, states, actors, |actors|); }
    forall k: nat, i: nat ensures states[|actors|].runs[Run(k, i)] == if c.Takes(k, i) then 1 else 0 {
      assert states[|actors|].runs[Run(k, i)] == Expected(c, states[|actors|], Run(k, i));
    }
  }
}
