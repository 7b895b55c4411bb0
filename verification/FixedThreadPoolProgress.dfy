/**
 `FixedThreadPool` never loses a wake-up: until the pool is destroyed some thread can take a step, and every
 step decreases a measure that a spurious wake-up raises by at most two. So every run comes to an end, all
 calls having returned and all workers having left, as long as the spurious wake-ups do.
 */
module FixedThreadPoolProgress {
  import opened FixedThreadPool
  import opened FixedThreadPoolSafety
  import opened Wrappers

  /// The number of calls among the first `n` that dispatch a region.
  function Regions(c: Config, n: nat): nat
    requires n <= |c.calls|
  {
    if n == 0 then 0 else Regions(c, n - 1) + if c.calls[n - 1].used >= 2 then 1 else 0
  }

  /// Every dispatch state there will ever be: one per region, one for shutdown.
  function Epochs(c: Config): nat { Regions(c, |c.calls|) + 1 }

  ghost predicate EpochOk(c: Config, s: Sys) {
    && s.next <= |c.calls|
    && s.word.epoch == Regions(c, s.next) + (if Live(s.caller) then 1 else 0) + (if Stopping(s.caller) then 1 else 0)
    && (s.caller.Gone? ==> forall i :: 0 <= i < |s.workers| ==> s.workers[i].Exited?)
  }

  ghost predicate ProgressInv(c: Config, s: Sys) { Inv(c, s) && EpochOk(c, s) }

  lemma {:induction false} RegionsMonotone(c: Config, m: nat, n: nat)
    requires m <= n <= |c.calls|
    ensures Regions(c, m) <= Regions(c, n)
  {
    if m < n { RegionsMonotone(c, m, n - 1); }
  }

  lemma EpochBound(c: Config, s: Sys)
    requires CallerOk(c, s) && EpochOk(c, s)
    ensures s.word.epoch <= Epochs(c)
  {
    RegionsMonotone(c, s.next, |c.calls|);
  }

  /// Steps that begin or end a call.
  lemma BoundaryEpoch(c: Config, s: Sys)
    requires CallerOk(c, s) && EpochOk(c, s) && (s.caller.Ready? || Ending(s.caller))
    ensures EpochOk(c, CallerStep(c, s))
  {
    if s.next < |c.calls| { RegionsNext(c, s.next); }
    if s.caller.Ready? { ReadyEpoch(c, s); }
  }

  lemma RegionsNext(c: Config, n: nat)
    requires n < |c.calls|
    ensures Regions(c, n + 1) == Regions(c, n) + if c.calls[n].used >= 2 then 1 else 0
  {
  }

  lemma ReadyEpoch(c: Config, s: Sys)
    requires CallerOk(c, s) && EpochOk(c, s) && s.caller.Ready?
    ensures EpochOk(c, ReadyStep(c, s))
  {
    if s.next < |c.calls| { RegionsNext(c, s.next); }
  }

  lemma CallerEpoch(c: Config, s: Sys)
    requires CallerOk(c, s) && EpochOk(c, s) && Enabled(c, s, Caller)
    ensures EpochOk(c, CallerStep(c, s))
  {
    if s.caller.CallerRun? {
      RunFrame(c, s, 0, s.caller.run);
    } else if s.caller.Ready? || Ending(s.caller) {
      BoundaryEpoch(c, s);
    } else if Preparing(s.caller) || Active(s.caller) {
      RegionEpoch(c, s);
    }
  }

  lemma RegionEpoch(c: Config, s: Sys)
    requires CallerOk(c, s) && EpochOk(c, s) && (Preparing(s.caller) || Active(s.caller)) && !s.caller.CallerRun?
    ensures EpochOk(c, CallerStep(c, s))
  {
  }

  lemma KeepsProgressInv(c: Config, s: Sys, a: Actor)
    requires c.Valid() && ProgressInv(c, s) && Enabled(c, s, a)
    ensures ProgressInv(c, Apply(c, s, a))
  {
    match a
    case Caller => CallerKeepsInv(c, s); CallerEpoch(c, s);
    case Worker(i) => WorkerKeepsInv(c, s, i); WorkerEpoch(c, s, i);
    case _ => SpuriousKeepsInv(c, s, a); SpuriousEpoch(c, s, a);
  }

  lemma WorkerEpoch(c: Config, s: Sys, i: nat)
    requires EpochOk(c, s) && Enabled(c, s, Worker(i))
    ensures EpochOk(c, WorkerStep(c, s, i))
  {
    WorkerFrame(c, s, i);
  }

  lemma SpuriousEpoch(c: Config, s: Sys, a: Actor)
    requires EpochOk(c, s) && Enabled(c, s, a) && Spurious(a)
    ensures EpochOk(c, Apply(c, s, a))
  {
  }

  // ----- deadlock freedom

  /// A worker sleeps on a dispatch state that is out of date only until the caller's next step, which notifies it.
  lemma SleeperIsWoken(c: Config, states: seq<Sys>, actors: seq<Actor>, t: nat, i: nat)
    requires c.Valid() && IsRun(c, states, actors) && t < |states| && i < |states[t].workers|
    requires states[t].workers[i].Parked? && states[t].workers[i].last != states[t].word
    ensures var s := states[t];
            && (s.caller.NotifyRegion? || s.caller.StopNotify?) && Enabled(c, s, Caller)
            && i < |CallerStep(c, s).workers| && CallerStep(c, s).workers[i] == Wait(s.workers[i].last)
  {
    InvAlways(c, states, actors);
    assert WorkerOk(c, states[t], i);
  }

  /// Some participant is not done while the counter is positive.
  lemma {:induction false} BusyWitness(s: Sys, n: nat) returns (j: nat)
    requires Busy(s, n) > 0
    ensures 1 <= j <= n && Stage(s, j) < 4
  {
    if Stage(s, n) < 4 { j := n; } else { j := BusyWitness(s, n - 1); }
  }

  lemma CallerSleeps(c: Config, s: Sys) returns (a: Actor)
    requires Inv(c, s) && s.caller.CallerParked?
    ensures Enabled(c, s, a) && !Spurious(a)
  {
    if s.unfinished == 0 {
      var i :| 0 <= i < |s.workers| && s.workers[i].NotifyDone?;
      a := Worker(i);
    } else {
      var j := BusyWitness(s, s.word.used - 1);
      assert WorkerOk(c, s, j - 1);
      a := Worker(j - 1);
    }
  }

  lemma CallerJoins(c: Config, s: Sys) returns (a: Actor)
    requires Inv(c, s) && s.caller.Join?
    ensures Enabled(c, s, a) && !Spurious(a)
  {
    if forall i :: 0 <= i < |s.workers| ==> s.workers[i].Exited? {
      a := Caller;
    } else {
      var i :| 0 <= i < |s.workers| && !s.workers[i].Exited?;
      assert WorkerOk(c, s, i);
      a := Worker(i);
    }
  }

  /// In every reachable state before the end some thread can take a step, without any spurious wake-up.
  lemma NoDeadlock(c: Config, states: seq<Sys>, actors: seq<Actor>, t: nat)
    requires c.Valid() && IsRun(c, states, actors) && t < |states| && !states[t].caller.Gone?
    ensures exists a :: Enabled(c, states[t], a) && !Spurious(a)
  {
    InvAlways(c, states, actors);
    var s := states[t];
    if s.caller.CallerParked? { var a := CallerSleeps(c, s); }
    else if s.caller.Join? { var a := CallerJoins(c, s); }
    else { assert Enabled(c, s, Caller); }
  }

  // ----- the measure

  function RunRank(r: RunPc): nat {
    match r
    case ReadFun => 5
    case ReadData(_) => 4
    case Invoke(_, _) => 3
    case Exchange(_) => 2
    case WriteExc(_) => 1
  }

  /// The work one dispatch state can still cause at a worker that has only seen `w`.
  function Rounds(c: Config, w: Word): nat {
    (if w.epoch <= Epochs(c) then Epochs(c) - w.epoch else 0) * (c.spinCount + 15)
  }

  /// How much a worker can still do about the dispatch states it has not seen, then about the one at hand.
  function WorkerRank(c: Config, w: WorkerPc): nat {
    match w
    case Exited => 0
    case Parked(last) => Rounds(c, last) + 1
    case Reload(last) => Rounds(c, last) + 2
    case Wait(last) => Rounds(c, last) + 3
    case Spin(last, n) => Rounds(c, last) + 4 + n
    case NotifyDone(v) => Rounds(c, v) + c.spinCount + 7
    case Decrement(v) => Rounds(c, v) + c.spinCount + 8
    case WorkerRun(v, r) => Rounds(c, v) + c.spinCount + 8 + RunRank(r)
    case Got(v) => Rounds(c, v) + c.spinCount + 14
  }

  function CallRank(c: Config, s: Sys): nat {
    var n := c.threadNum;
    match s.caller
    case TakeExc => 1
    case TakeFlag => 2
    case CallerParked(seen) => 4 * seen + 3
    case AwaitWait(seen) => 4 * seen + 4
    case AwaitLoad => 4 * s.unfinished + 5
    case AwaitSpin(left) => 4 * n + 6 + left
    case CallerRun(r) => 4 * n + c.spinCount + 6 + RunRank(r)
    case NotifyRegion => 6 * n + c.spinCount + 12
    case StoreState(_) => 6 * n + c.spinCount + 13
    case LoadState => 6 * n + c.spinCount + 14
    case StoreUnfinished => 6 * n + c.spinCount + 15
    case WriteData => 6 * n + c.spinCount + 16
    case _ => 0
  }

  /// The budget of the calls that have not begun.
  function CallsRank(c: Config, n: nat): nat {
    (if n <= |c.calls| then |c.calls| - n else 0) * (6 * c.threadNum + c.spinCount + 17) + 2 * c.threadNum + 4
  }

  function CallerRank(c: Config, s: Sys): nat {
    match s.caller
    case Gone => 0
    case Join => 1
    case StopNotify => 2 * c.threadNum + 2
    case StopAdd => 2 * c.threadNum + 3
    case Ready => CallsRank(c, s.next)
    case _ => CallsRank(c, s.next + 1) + CallRank(c, s)
  }

  function Sum(c: Config, ws: seq<WorkerPc>): nat {
    if |ws| == 0 then 0 else WorkerRank(c, ws[|ws| - 1]) + Sum(c, ws[..|ws| - 1])
  }

  function Measure(c: Config, s: Sys): nat { CallerRank(c, s) + Sum(c, s.workers) }

  lemma {:induction false} SumUpdate(c: Config, ws: seq<WorkerPc>, i: nat, w: WorkerPc)
    requires i < |ws|
    ensures Sum(c, ws[i := w]) == Sum(c, ws) - WorkerRank(c, ws[i]) + WorkerRank(c, w)
  {
    var n := |ws| - 1;
    if i < n {
      SumUpdate(c, ws[..n], i, w);
      assert ws[i := w][..n] == ws[..n][i := w];
    } else {
      assert ws[i := w][..n] == ws[..n];
    }
  }

  lemma {:induction false} SumWake(c: Config, ws: seq<WorkerPc>)
    ensures Sum(c, WakeAll(ws)) <= Sum(c, ws) + 2 * |ws|
  {
    var n := |ws| - 1;
    if |ws| > 0 {
      SumWake(c, ws[..n]);
      assert WakeAll(ws)[..n] == WakeAll(ws[..n]);
    }
  }

  lemma RoundsStep(c: Config, v: Word, w: Word)
    requires v.epoch < w.epoch <= Epochs(c)
    ensures Rounds(c, v) >= Rounds(c, w) + c.spinCount + 15
  {
    var a, b := Epochs(c) - v.epoch, Epochs(c) - w.epoch;
    assert a * (c.spinCount + 15) >= (b + 1) * (c.spinCount + 15);
  }

  lemma CallsStep(c: Config, n: nat)
    requires n < |c.calls|
    ensures CallsRank(c, n) == CallsRank(c, n + 1) + 6 * c.threadNum + c.spinCount + 17
  {
    var a, b := |c.calls| - n, 6 * c.threadNum + c.spinCount + 17;
    assert a * b == (a - 1) * b + b;
  }

  lemma WorkerRankDrops(c: Config, s: Sys, i: nat)
    requires Enabled(c, s, Worker(i)) && WorkerOk(c, s, i) && s.word.epoch <= Epochs(c)
    ensures WorkerRank(c, WorkerStep(c, s, i).workers[i]) + (if s.workers[i].NotifyDone? then 2 else 0)
            < WorkerRank(c, s.workers[i])
  {
    if s.workers[i].Spin? || s.workers[i].Reload? { SeekerRankDrops(c, s, i); }
  }

  /// A worker that looks for a new dispatch state.
  lemma SeekerRankDrops(c: Config, s: Sys, i: nat)
    requires WorkerOk(c, s, i) && s.word.epoch <= Epochs(c) && (s.workers[i].Spin? || s.workers[i].Reload?)
    ensures WorkerRank(c, WorkerStep(c, s, i).workers[i]) < WorkerRank(c, s.workers[i])
  {
    if s.workers[i].last != s.word { RoundsStep(c, s.workers[i].last, s.word); }
  }

  /// What a worker's step does to the caller's rank: only a notification raises it.
  lemma WorkerMovesCaller(c: Config, s: Sys, i: nat)
    requires i < |s.workers|
    ensures CallerRank(c, WorkerStep(c, s, i)) <= CallerRank(c, s) + if s.workers[i].NotifyDone? then 1 else 0
  {
    WorkerFrame(c, s, i);
    if !s.workers[i].NotifyDone? { OnlyDoneWakes(c, s, i); }
  }

  lemma OnlyDoneWakes(c: Config, s: Sys, i: nat)
    requires i < |s.workers| && !s.workers[i].NotifyDone?
    ensures WorkerStep(c, s, i).caller == s.caller
  {
    if s.workers[i].WorkerRun? { RunFrame(c, s, i + 1, s.workers[i].run); }
  }

  lemma WorkerDecreases(c: Config, s: Sys, i: nat)
    requires ProgressInv(c, s) && Enabled(c, s, Worker(i))
    ensures Measure(c, WorkerStep(c, s, i)) < Measure(c, s)
  {
    assert WorkerOk(c, s, i);
    EpochBound(c, s);
    WorkerRankDrops(c, s, i);
    WorkerMovesCaller(c, s, i);
    WorkerFrame(c, s, i);
    SumUpdate(c, s.workers, i, WorkerStep(c, s, i).workers[i]);
  }

  lemma CallRankDrops(c: Config, s: Sys)
    requires CallerOk(c, s) && Enabled(c, s, Caller) && s.unfinished <= c.threadNum
    requires Active(s.caller) && !s.caller.CallerRun?
    ensures CallerStep(c, s).next == s.next && (Active(CallerStep(c, s).caller) || CallerStep(c, s).caller.TakeFlag?)
    ensures CallRank(c, CallerStep(c, s)) + (if s.caller.NotifyRegion? then 2 * |s.workers| else 0) < CallRank(c, s)
  {
  }

  lemma PrepareRankDrops(c: Config, s: Sys)
    requires CallerOk(c, s) && Preparing(s.caller)
    ensures CallerRank(c, CallerStep(c, s)) < CallerRank(c, s)
  {
  }

  lemma RunRankDrops(c: Config, s: Sys)
    requires s.caller.CallerRun? && s.unfinished <= c.threadNum
    ensures CallerRank(c, CallerStep(c, s)) < CallerRank(c, s)
  {
    RunFrame(c, s, 0, s.caller.run);
  }

  lemma OuterRankDrops(c: Config, s: Sys)
    requires CallerOk(c, s) && Enabled(c, s, Caller) && !Active(s.caller) && !Preparing(s.caller)
    ensures CallerRank(c, CallerStep(c, s)) + (if s.caller.StopNotify? then 2 * |s.workers| else 0) < CallerRank(c, s)
  {
    if s.next < |c.calls| { CallsStep(c, s.next); }
  }

  /// The rank of the caller pays for the workers it wakes.
  lemma CallerRankDrops(c: Config, s: Sys)
    requires CallerOk(c, s) && Enabled(c, s, Caller) && (Active(s.caller) ==> s.unfinished <= c.threadNum)
    ensures CallerRank(c, CallerStep(c, s))
            + (if s.caller.NotifyRegion? || s.caller.StopNotify? then 2 * |s.workers| else 0)
            < CallerRank(c, s)
  {
    if s.caller.CallerRun? { RunRankDrops(c, s); }
    else if Active(s.caller) { CallRankDrops(c, s); }
    else if Preparing(s.caller) { PrepareRankDrops(c, s); }
    else { OuterRankDrops(c, s); }
  }

  lemma CallerKeepsWorkers(c: Config, s: Sys)
    requires !s.caller.NotifyRegion? && !s.caller.StopNotify?
    ensures CallerStep(c, s).workers == s.workers
  {
    if s.caller.CallerRun? { RunFrame(c, s, 0, s.caller.run); }
  }

  lemma CallerDecreases(c: Config, s: Sys)
    requires c.Valid() && Inv(c, s) && Enabled(c, s, Caller)
    ensures Measure(c, CallerStep(c, s)) < Measure(c, s)
  {
    if Active(s.caller) { BusyBound(s, s.word.used - 1); }
    CallerRankDrops(c, s);
    CallerMovesWorkers(c, s);
  }

  lemma CallerMovesWorkers(c: Config, s: Sys)
    ensures Sum(c, CallerStep(c, s).workers) <=
            Sum(c, s.workers) + if s.caller.NotifyRegion? || s.caller.StopNotify? then 2 * |s.workers| else 0
  {
    if s.caller.NotifyRegion? || s.caller.StopNotify? { SumWake(c, s.workers); } else { CallerKeepsWorkers(c, s); }
  }

  lemma SpuriousCosts(c: Config, s: Sys, a: Actor)
    requires Enabled(c, s, a) && Spurious(a)
    ensures Measure(c, Apply(c, s, a)) <= Measure(c, s) + 2
  {
    match a
    case SpuriousWorker(i) => SpuriousWorkerCosts(c, s, i);
    case _ =>
  }

  lemma SpuriousWorkerCosts(c: Config, s: Sys, i: nat)
    requires i < |s.workers| && s.workers[i].Parked?
    ensures Measure(c, SetWorker(s, i, Wake(s.workers[i]))) == Measure(c, s) + 2
  {
    SumUpdate(c, s.workers, i, Wake(s.workers[i]));
  }

  /// Every step but a spurious wake-up lowers the measure.
  lemma StepCosts(c: Config, s: Sys, a: Actor)
    requires c.Valid() && ProgressInv(c, s) && Enabled(c, s, a)
    ensures Measure(c, Apply(c, s, a)) + 1 <= Measure(c, s) + if Spurious(a) then 3 else 0
  {
    match a
    case Caller => CallerDecreases(c, s);
    case Worker(i) => WorkerDecreases(c, s, i);
    case _ => SpuriousCosts(c, s, a);
  }

  // ----- every run ends

  function SpuriousIn(actors: seq<Actor>): nat {
    if |actors| == 0 then 0 else SpuriousIn(actors[..|actors| - 1]) + if Spurious(actors[|actors| - 1]) then 1 else 0
  }

  lemma InitProgress(c: Config)
    requires c.Valid()
    ensures ProgressInv(c, Init(c))
  {
    InitInv(c);
  }

  /// A run is no longer than the initial measure plus three steps per spurious wake-up.
  lemma {:induction false} RunsAreBounded(c: Config, states: seq<Sys>, actors: seq<Actor>)
    requires c.Valid() && IsRun(c, states, actors)
    ensures ProgressInv(c, states[|actors|])
    ensures |actors| + Measure(c, states[|actors|]) <= Measure(c, Init(c)) + 3 * SpuriousIn(actors)
    decreases |actors|
  {
    var n := |actors|;
    if n == 0 {
      InitProgress(c);
    } else {
      RunsAreBounded(c, states[..n], actors[..n - 1]);
      var s, a := states[n - 1], actors[n - 1];
      assert states[n] == Apply(c, s, a);
      KeepsProgressInv(c, s, a);
      StepCosts(c, s, a);
    }
  }

  /// A run that cannot go on has destroyed the pool, after all calls have returned and all workers have left.
  lemma EndOfRun(c: Config, states: seq<Sys>, actors: seq<Actor>)
    requires c.Valid() && IsRun(c, states, actors)
    requires forall a :: Enabled(c, states[|actors|], a) ==> Spurious(a)
    ensures var s := states[|actors|];
            && s.caller.Gone? && s.next == |s.outcomes| == |c.calls|
            && (forall i :: 0 <= i < |s.workers| ==> s.workers[i].Exited?)
            && (forall k :: 0 <= k < |c.calls| ==> OutcomeOk(c.calls[k], k, s.outcomes[k]))
  {
    if !states[|actors|].caller.Gone? { NoDeadlock(c, states, actors, |actors|); }
    RunsAreBounded(c, states, actors);
  }
}
