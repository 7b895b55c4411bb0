/**
 The inductive invariant of `FixedThreadPool` and what it gives for every interleaving: each region runs
 its own task once per index, nobody else looks at the task slot, `execute` returns only after the last
 participant, and a thrown exception surfaces from its own call and from no other.
 */
module FixedThreadPoolSafety {
  import opened FixedThreadPool
  import opened Wrappers

  /// The caller has published the dispatch state of the current call and still waits for its end.
  predicate Active(p: CallerPc) {
    p.NotifyRegion? || p.CallerRun? || p.AwaitSpin? || p.AwaitLoad? || p.AwaitWait? || p.CallerParked?
  }

  predicate Ending(p: CallerPc) { p.TakeFlag? || p.TakeExc? }

  predicate Preparing(p: CallerPc) { p.WriteData? || p.StoreUnfinished? || p.LoadState? || p.StoreState? }

  predicate Stopping(p: CallerPc) { p.StopNotify? || p.Join? || p.Gone? }

  predicate InCall(p: CallerPc) { Preparing(p) || Active(p) || Ending(p) }

  /// How far an index of the current region is: 0 its task has not been invoked, 1 it has thrown,
  /// 2 it stores its exception, 3 it is about to report completion, 4 it is done.
  function RunStage(r: RunPc): nat { if r.Exchange? then 1 else if r.WriteExc? then 2 else 0 }

  function CallerStage(p: CallerPc): nat {
    if p.NotifyRegion? then 0 else if p.CallerRun? then RunStage(p.run) else 4
  }

  function WorkerStage(word: Word, w: WorkerPc): nat {
    match w
    case WorkerRun(_, r) => RunStage(r)
    case Decrement(_) => 3
    case NotifyDone(v) => if v == word then 4 else 0
    case Got(_) => 0
    case Exited => 0
    case Spin(last, _) => if last == word then 4 else 0
    case Wait(last) => if last == word then 4 else 0
    case Parked(last) => if last == word then 4 else 0
    case Reload(last) => if last == word then 4 else 0
  }

  function Stage(s: Sys, j: nat): nat {
    if j == 0 then CallerStage(s.caller)
    else if j - 1 < |s.workers| then WorkerStage(s.word, s.workers[j - 1]) else 0
  }

  /// The number of workers among the indices `[1, n]` that have not reported completion.
  function Busy(s: Sys, n: nat): nat {
    if n == 0 then 0 else Busy(s, n - 1) + if Stage(s, n) < 4 then 1 else 0
  }

  predicate Older(last: Word, word: Word) { last == word || last.epoch < word.epoch }

  predicate RunOk(c: Config, s: Sys, j: nat, r: RunPc) {
    s.next < |c.calls| &&
    match r
    case ReadFun => true
    case ReadData(f) => f == Some(s.next)
    case Invoke(f, d) => f == Some(s.next) && d == Some(s.next)
    case Exchange(e) => e == Exn(s.next, j) && j in c.calls[s.next].throws
    case WriteExc(e) => e == Exn(s.next, j) && j in c.calls[s.next].throws
  }

  /// A region is being prepared: its call, and the code pointer already in the task slot.
  predicate InRegion(c: Config, s: Sys) {
    !s.stop && s.next < |c.calls| && 2 <= c.calls[s.next].used && s.fun == Some(s.next)
  }

  /// The task slot is complete.
  predicate HasTask(c: Config, s: Sys) { InRegion(c, s) && s.data == Some(s.next) }

  /// The region has been published.
  predicate Published(c: Config, s: Sys) { HasTask(c, s) && s.word.used == c.calls[s.next].used }

  predicate PcOk(c: Config, s: Sys) {
    match s.caller
    case Ready => !s.stop
    case WriteData => InRegion(c, s)
    case StoreUnfinished => HasTask(c, s)
    case LoadState => HasTask(c, s) && s.unfinished == c.calls[s.next].used - 1
    case StoreState(w) => HasTask(c, s) && s.unfinished == c.calls[s.next].used - 1 && w == AddStep(s.word)
    case CallerRun(r) => Published(c, s) && RunOk(c, s, 0, r)
    case AwaitWait(seen) => Published(c, s) && 0 < seen && s.unfinished <= seen <= c.threadNum
    case CallerParked(seen) => Published(c, s) && 0 < seen && s.unfinished <= seen <= c.threadNum
    case NotifyRegion => Published(c, s)
    case AwaitSpin(_) => Published(c, s)
    case AwaitLoad => Published(c, s)
    case TakeFlag => Published(c, s)
    case TakeExc => Published(c, s)
    case _ => s.stop && s.next == |c.calls|
  }

  ghost predicate CallerOk(c: Config, s: Sys) {
    && |s.workers| == c.WorkerNum()
    && s.next <= |c.calls|
    && |s.outcomes| == s.next
    && s.word.used <= c.threadNum
    && PcOk(c, s)
  }

  /// What holds of one worker, whatever the others do.
  ghost predicate WorkerOk(c: Config, s: Sys, i: nat) {
    i < |s.workers| &&
    var w := s.workers[i];
    match w
    case WorkerRun(v, r) => v == s.word && Active(s.caller) && i + 1 < v.used && RunOk(c, s, i + 1, r)
    case Decrement(v) => v == s.word && Active(s.caller) && i + 1 < v.used
    case NotifyDone(v) => Older(v, s.word) && (Stopping(s.caller) ==> v != s.word)
    case Got(v) => Older(v, s.word) && (i + 1 < v.used ==> v == s.word && (Active(s.caller) || Stopping(s.caller)))
    case Exited => s.stop
    case _ =>
      && Older(w.last, s.word)
      && (Stopping(s.caller) ==> w.last != s.word)
      && (w.Reload? ==> w.last != s.word)
      && (w.Parked? && w.last != s.word ==> s.caller.NotifyRegion? || s.caller.StopNotify?)
  }

  ghost predicate AllDone(s: Sys, n: nat) { forall j :: 0 <= j < n ==> Stage(s, j) == 4 }

  /// The completion counter counts exactly the participants that have not decremented it.
  ghost predicate CountOk(c: Config, s: Sys) {
    && (Active(s.caller) ==> 0 < s.word.used && s.unfinished == Busy(s, s.word.used - 1))
    && (!Active(s.caller) && !Stopping(s.caller) ==> AllDone(s, s.word.used))
    && (s.caller.CallerParked? && s.unfinished == 0 ==> exists i :: 0 <= i < |s.workers| && s.workers[i].NotifyDone?)
  }

  /// At most one thread stores its exception, and what is stored was thrown in the current region.
  ghost predicate ExcOk(c: Config, s: Sys) {
    && (InCall(s.caller) ==> s.next < |c.calls|)
    && (s.winner.Some? <==> s.stored || s.caller.TakeExc?)
    && (s.caller.TakeExc? ==> !s.stored)
    && (s.winner.Some? ==>
          && (Active(s.caller) || Ending(s.caller))
          && s.winner.value < c.calls[s.next].used
          && s.winner.value in c.calls[s.next].throws
          && s.exc == if Stage(s, s.winner.value) == 2 then None else Some(Exn(s.next, s.winner.value)))
    && (s.winner.None? ==> s.exc == None)
    && (Active(s.caller) || Ending(s.caller) ==>
          && (forall j :: 0 <= j < c.calls[s.next].used && Stage(s, j) == 2 ==> s.winner == Some(j))
          && (!s.caller.TakeExc? ==>
                forall j :: 0 <= j < c.calls[s.next].used && j in c.calls[s.next].throws && 2 <= Stage(s, j) ==>
                  s.stored))
  }

  /// How often an invocation must have happened: once per index of a finished call, once per index of the
  /// current region whose stage says so, and never with the code or the data of another call.
  ghost function Expected(c: Config, s: Sys, r: Run): nat {
    if r.fun == r.data && r.fun.Some? && r.fun.value < |c.calls| && r.index < c.calls[r.fun.value].used &&
       (r.fun.value < s.next ||
        (r.fun.value == s.next && (Active(s.caller) || Ending(s.caller)) && 1 <= Stage(s, r.index)))
    then 1 else 0
  }

  ghost predicate RunsOk(c: Config, s: Sys) { forall r: Run :: s.runs[r] == Expected(c, s, r) }

  /// A call rethrows one of the exceptions of its own task iff that task threw any.
  ghost predicate OutcomeOk(call: Call, k: nat, o: Outcome) {
    if forall i :: 0 <= i < call.used ==> i !in call.throws then o == Returned
    else o.Rethrew? && o.e.Some? && o.e.value.call == k && o.e.value.index < call.used && o.e.value.index in call.throws
  }

  ghost predicate OutcomesOk(c: Config, s: Sys) {
    |s.outcomes| <= |c.calls| && forall k :: 0 <= k < |s.outcomes| ==> OutcomeOk(c.calls[k], k, s.outcomes[k])
  }

  ghost predicate Inv(c: Config, s: Sys) {
    && CallerOk(c, s)
    && (forall i :: 0 <= i < |s.workers| ==> WorkerOk(c, s, i))
    && CountOk(c, s)
    && ExcOk(c, s)
    && RunsOk(c, s)
    && OutcomesOk(c, s)
  }

  // ----- control

  lemma BusyBound(s: Sys, n: nat)
    ensures Busy(s, n) <= n
  {
  }

  lemma {:induction false} BusyZero(s: Sys, n: nat, j: nat)
    requires Busy(s, n) == 0 && 1 <= j <= n
    ensures Stage(s, j) >= 4
  {
    if j < n { BusyZero(s, n - 1, j); }
  }

  lemma StageBound(s: Sys, j: nat)
    ensures Stage(s, j) <= 4
  {
  }

  /// When the caller sees the counter at zero, every participant is done.
  lemma AwaitEnds(c: Config, s: Sys)
    requires CallerOk(c, s) && CountOk(c, s) && Active(s.caller) && CallerStage(s.caller) == 4
    ensures s.unfinished == 0 ==> AllDone(s, s.word.used)
  {
    if s.unfinished == 0 {
      forall j | 1 <= j < s.word.used ensures Stage(s, j) == 4 { BusyZero(s, s.word.used - 1, j); StageBound(s, j); }
    }
  }

  /// `run` changes only what it records about itself.
  lemma RunFrame(c: Config, s: Sys, j: nat, r: RunPc)
    ensures var (t, r') := RunStep(c, s, j, r);
            t == s.(runs := t.runs, stored := t.stored, winner := t.winner, exc := t.exc)
  {
  }

  /// `run` stays with the task of the region.
  lemma RunControl(c: Config, s: Sys, j: nat, r: RunPc)
    requires Published(c, s) && RunOk(c, s, j, r)
    ensures var (t, r') := RunStep(c, s, j, r);
            && Published(c, t)
            && (r'.Some? ==> RunOk(c, t, j, r'.value))
  {
  }

  lemma CallerControlReady(c: Config, s: Sys)
    requires c.Valid() && CallerOk(c, s) && s.caller.Ready?
    ensures CallerOk(c, ReadyStep(c, s))
  {
    if s.next < |c.calls| { assert c.calls[s.next].used <= c.threadNum; }
  }

  lemma CallerControlRun(c: Config, s: Sys)
    requires CallerOk(c, s) && s.caller.CallerRun?
    ensures CallerOk(c, CallerStep(c, s))
  {
    RunFrame(c, s, 0, s.caller.run);
    RunControl(c, s, 0, s.caller.run);
  }

  lemma CallerControlPrepare(c: Config, s: Sys)
    requires c.Valid() && CallerOk(c, s) && Preparing(s.caller)
    ensures CallerOk(c, CallerStep(c, s))
  {
    assert c.calls[s.next].used <= c.threadNum;
  }

  lemma CallerControlActive(c: Config, s: Sys)
    requires c.Valid() && CallerOk(c, s) && Active(s.caller) && !s.caller.CallerRun?
    requires s.unfinished < c.calls[s.next].used
    ensures CallerOk(c, CallerStep(c, s))
  {
    assert c.calls[s.next].used <= c.threadNum;
  }

  lemma CallerControl(c: Config, s: Sys)
    requires c.Valid() && CallerOk(c, s) && Enabled(c, s, Caller)
    requires Active(s.caller) ==> s.unfinished < c.calls[s.next].used
    ensures CallerOk(c, CallerStep(c, s))
  {
    if s.caller.Ready? {
      CallerControlReady(c, s);
    } else if s.caller.CallerRun? {
      CallerControlRun(c, s);
    } else if Active(s.caller) {
      CallerControlActive(c, s);
    } else if Preparing(s.caller) {
      CallerControlPrepare(c, s);
    }
  }

  lemma CallerRunKeepsWorker(c: Config, s: Sys, i: nat)
    requires CallerOk(c, s) && s.caller.CallerRun? && i < |s.workers| && WorkerOk(c, s, i)
    ensures WorkerOk(c, CallerStep(c, s), i)
  {
    RunFrame(c, s, 0, s.caller.run);
    RunControl(c, s, 0, s.caller.run);
  }

  /// A participant that has not handled the dispatch state is at work only in an active region.
  lemma NoneAtWork(c: Config, s: Sys, i: nat)
    requires CallerOk(c, s) && CountOk(c, s) && WorkerOk(c, s, i) && !Active(s.caller) && !Stopping(s.caller)
    ensures var w := s.workers[i];
            !w.WorkerRun? && !w.Decrement? && (w.Got? && w.word == s.word ==> s.word.used <= i + 1)
  {
    assert i + 1 < s.word.used ==> Stage(s, i + 1) == 4;
  }

  /// Steps that leave the workers, their dispatch state and the stop flag alone.
  lemma QuietKeepsWorker(c: Config, s: Sys, t: Sys, i: nat)
    requires WorkerOk(c, s, i) && !s.workers[i].WorkerRun? && !s.workers[i].Decrement?
    requires s.workers[i].Got? && i + 1 < s.workers[i].word.used ==> s.workers[i].word != s.word
    requires t.workers == s.workers && t.word == s.word && (s.stop ==> t.stop) && !Stopping(t.caller)
    requires !s.caller.NotifyRegion? && !s.caller.StopNotify?
    ensures WorkerOk(c, t, i)
  {
  }

  /// A new dispatch state.
  lemma NewStateKeepsWorker(c: Config, s: Sys, t: Sys, i: nat)
    requires WorkerOk(c, s, i) && !s.workers[i].WorkerRun? && !s.workers[i].Decrement?
    requires s.workers[i].Got? && i + 1 < s.workers[i].word.used ==> s.workers[i].word != s.word
    requires t.workers == s.workers && t.word.epoch == s.word.epoch + 1 && (s.stop ==> t.stop)
    requires t.caller.NotifyRegion? || t.caller.StopNotify?
    requires !s.caller.NotifyRegion? && !s.caller.StopNotify?
    ensures WorkerOk(c, t, i)
  {
  }

  /// Steps at which no participant can be at work, because all of them are done.
  lemma SettledKeepsWorker(c: Config, s: Sys, i: nat)
    requires c.Valid() && CallerOk(c, s) && CountOk(c, s) && Enabled(c, s, Caller) && WorkerOk(c, s, i)
    requires !Active(s.caller) && !Stopping(s.caller)
    ensures WorkerOk(c, CallerStep(c, s), i)
  {
    NoneAtWork(c, s, i);
    SettledStep(c, s);
    if s.caller.StoreState? || s.caller.StopAdd? {
      NewStateKeepsWorker(c, s, CallerStep(c, s), i);
    } else {
      QuietKeepsWorker(c, s, CallerStep(c, s), i);
    }
  }

  lemma SettledStep(c: Config, s: Sys)
    requires CallerOk(c, s) && !Active(s.caller) && !Stopping(s.caller)
    ensures var t := CallerStep(c, s);
            && t.workers == s.workers && (s.stop ==> t.stop)
            && if s.caller.StoreState? || s.caller.StopAdd?
               then t.word.epoch == s.word.epoch + 1 && (t.caller.NotifyRegion? || t.caller.StopNotify?)
               else t.word == s.word && !Stopping(t.caller)
  {
  }

  lemma WakeKeepsWorker(c: Config, s: Sys, i: nat)
    requires CallerOk(c, s) && WorkerOk(c, s, i) && (s.caller.NotifyRegion? || s.caller.StopNotify?)
    ensures WorkerOk(c, CallerStep(c, s), i)
  {
  }

  lemma AwaitKeepsWorker(c: Config, s: Sys, i: nat)
    requires CallerOk(c, s) && CountOk(c, s) && WorkerOk(c, s, i) && (s.caller.AwaitSpin? || s.caller.AwaitLoad?)
    ensures WorkerOk(c, CallerStep(c, s), i)
  {
    AwaitEnds(c, s);
    assert s.unfinished == 0 && i + 1 < s.word.used ==> Stage(s, i + 1) == 4;
  }

  lemma CallerKeepsWorker(c: Config, s: Sys, i: nat)
    requires c.Valid() && CallerOk(c, s) && CountOk(c, s) && Enabled(c, s, Caller) && WorkerOk(c, s, i)
    ensures WorkerOk(c, CallerStep(c, s), i)
  {
    match s.caller
    case CallerRun(_) => CallerRunKeepsWorker(c, s, i);
    case NotifyRegion => WakeKeepsWorker(c, s, i);
    case StopNotify => WakeKeepsWorker(c, s, i);
    case AwaitSpin(_) => AwaitKeepsWorker(c, s, i);
    case AwaitLoad => AwaitKeepsWorker(c, s, i);
    case AwaitWait(_) =>
    case Join =>
    case _ => SettledKeepsWorker(c, s, i);
  }

  /// What a step of a worker leaves as it was.
  lemma WorkerFrame(c: Config, s: Sys, i: nat)
    requires i < |s.workers|
    ensures Framed(s, WorkerStep(c, s, i), i)
  {
    if s.workers[i].WorkerRun? { RunFramed(c, s, i); } else { OtherFramed(c, s, i); }
  }

  predicate Framed(s: Sys, t: Sys, i: nat) {
    && t.word == s.word && t.next == s.next && t.stop == s.stop && t.fun == s.fun && t.data == s.data
    && t.outcomes == s.outcomes && t.unfinished <= s.unfinished
    && i < |s.workers| && i < |t.workers| && t.workers == s.workers[i := t.workers[i]]
    && (t.caller == s.caller || (s.caller.CallerParked? && t.caller == AwaitWait(s.caller.seen)))
  }

  lemma RunFramed(c: Config, s: Sys, i: nat)
    requires i < |s.workers| && s.workers[i].WorkerRun?
    ensures Framed(s, WorkerStep(c, s, i), i)
  {
    RunFrame(c, s, i + 1, s.workers[i].run);
  }

  lemma OtherFramed(c: Config, s: Sys, i: nat)
    requires i < |s.workers| && !s.workers[i].WorkerRun?
    ensures Framed(s, WorkerStep(c, s, i), i)
  {
  }

  lemma WorkerControl(c: Config, s: Sys, i: nat)
    requires CallerOk(c, s) && Enabled(c, s, Worker(i)) && WorkerOk(c, s, i)
    ensures CallerOk(c, WorkerStep(c, s, i))
  {
    WorkerFrame(c, s, i);
    if Active(s.caller) || Preparing(s.caller) { WorkerCounts(c, s, i); }
  }

  /// Only a participant touches the completion counter, and only while its region is published.
  lemma WorkerCounts(c: Config, s: Sys, i: nat)
    requires WorkerOk(c, s, i)
    ensures WorkerStep(c, s, i).unfinished != s.unfinished ==> Active(s.caller)
  {
  }

  lemma RunningKeepsItself(c: Config, s: Sys, i: nat)
    requires CallerOk(c, s) && WorkerOk(c, s, i) && s.workers[i].WorkerRun?
    ensures WorkerOk(c, WorkerStep(c, s, i), i)
  {
    RunFrame(c, s, i + 1, s.workers[i].run);
    RunControl(c, s, i + 1, s.workers[i].run);
  }

  lemma ActiveKeepsItself(c: Config, s: Sys, i: nat)
    requires CallerOk(c, s) && Enabled(c, s, Worker(i)) && WorkerOk(c, s, i) && !s.workers[i].WorkerRun?
    requires Active(s.caller) || Stopping(s.caller)
    ensures WorkerOk(c, WorkerStep(c, s, i), i)
  {
  }

  lemma SettledKeepsItself(c: Config, s: Sys, i: nat)
    requires CallerOk(c, s) && CountOk(c, s) && Enabled(c, s, Worker(i)) && WorkerOk(c, s, i)
    requires !Active(s.caller) && !Stopping(s.caller)
    ensures WorkerOk(c, WorkerStep(c, s, i), i)
  {
    assert i + 1 < s.word.used ==> Stage(s, i + 1) == 4;
  }

  lemma WorkerKeepsItself(c: Config, s: Sys, i: nat)
    requires CallerOk(c, s) && CountOk(c, s) && Enabled(c, s, Worker(i)) && WorkerOk(c, s, i)
    ensures WorkerOk(c, WorkerStep(c, s, i), i)
  {
    if s.workers[i].WorkerRun? { RunningKeepsItself(c, s, i); }
    else if Active(s.caller) || Stopping(s.caller) { ActiveKeepsItself(c, s, i); }
    else { SettledKeepsItself(c, s, i); }
  }

  lemma WorkerKeepsOther(c: Config, s: Sys, i: nat, k: nat)
    requires CallerOk(c, s) && i < |s.workers| && k < |s.workers| && k != i && WorkerOk(c, s, k)
    ensures WorkerOk(c, WorkerStep(c, s, i), k)
  {
    WorkerFrame(c, s, i);
  }

  // ----- stages and the completion counter

  /// The caller's steps move no stage but its own, except that a new dispatch state resets all of them.
  lemma CallerStages(c: Config, s: Sys, j: nat)
    requires CallerOk(c, s) && Enabled(c, s, Caller) && j <= |s.workers| && (0 < j ==> WorkerOk(c, s, j - 1))
    ensures !s.caller.StoreState? && !s.caller.StopAdd? && 0 < j ==> Stage(CallerStep(c, s), j) == Stage(s, j)
    ensures s.caller.StoreState? ==> Stage(CallerStep(c, s), j) == 0
  {
    if s.caller.CallerRun? { RunFrame(c, s, 0, s.caller.run); }
  }

  /// A worker's step moves no stage but its own. That of a participant is 4 after its decrement and not before.
  lemma WorkerStages(c: Config, s: Sys, i: nat, j: nat)
    requires CallerOk(c, s) && Enabled(c, s, Worker(i)) && WorkerOk(c, s, i)
    ensures j != i + 1 ==> Stage(WorkerStep(c, s, i), j) == Stage(s, j)
    ensures j == i + 1 && Active(s.caller) && j < s.word.used ==>
              (Stage(WorkerStep(c, s, i), j) == 4 <==> s.workers[i].Decrement? || Stage(s, j) == 4)
    ensures j == i + 1 && !Active(s.caller) && Stage(s, j) == 4 ==> Stage(WorkerStep(c, s, i), j) == 4
    ensures j == i + 1 && (Active(s.caller) && j < s.word.used) && !s.workers[i].WorkerRun? ==>
              Stage(WorkerStep(c, s, i), j) == Stage(s, j) || 3 <= Stage(s, j) < Stage(WorkerStep(c, s, i), j)
  {
    WorkerFrame(c, s, i);
  }

  lemma {:induction false} BusySame(s: Sys, t: Sys, n: nat)
    requires forall j :: 1 <= j <= n ==> (Stage(t, j) < 4 <==> Stage(s, j) < 4)
    ensures Busy(t, n) == Busy(s, n)
  {
    if n > 0 { BusySame(s, t, n - 1); }
  }

  lemma {:induction false} BusyAll(s: Sys, n: nat)
    requires forall j :: 1 <= j <= n ==> Stage(s, j) == 0
    ensures Busy(s, n) == n
  {
    if n > 0 { BusyAll(s, n - 1); }
  }

  lemma {:induction false} BusyOneLess(s: Sys, t: Sys, n: nat, k: nat)
    requires 1 <= k <= n && Stage(s, k) < 4 && Stage(t, k) == 4
    requires forall j :: 1 <= j <= n && j != k ==> Stage(t, j) == Stage(s, j)
    ensures Busy(s, n) == Busy(t, n) + 1
  {
    if k < n { BusyOneLess(s, t, n - 1, k); } else { BusySame(s, t, n - 1); }
  }

  ghost predicate WorkersOk(c: Config, s: Sys) { forall i :: 0 <= i < |s.workers| ==> WorkerOk(c, s, i) }

  lemma PublishCount(c: Config, s: Sys)
    requires c.Valid() && CallerOk(c, s) && WorkersOk(c, s) && s.caller.StoreState?
    ensures CountOk(c, CallerStep(c, s))
    ensures forall j: nat :: 0 <= j < c.calls[s.next].used ==> Stage(CallerStep(c, s), j) == 0
  {
    var t := CallerStep(c, s);
    forall j: nat | 0 <= j < t.word.used ensures Stage(t, j) == 0 {
      if 0 < j { assert WorkerOk(c, s, j - 1); }
      CallerStages(c, s, j);
    }
    BusyAll(t, t.word.used - 1);
  }

  /// What the other steps of the caller leave of the participants' stages.
  lemma CallerKeepsStages(c: Config, s: Sys)
    requires CallerOk(c, s) && WorkersOk(c, s) && Enabled(c, s, Caller) && !s.caller.StoreState? && !s.caller.StopAdd?
    ensures CallerStep(c, s).word == s.word
    ensures forall j: nat :: 1 <= j < s.word.used ==> Stage(CallerStep(c, s), j) == Stage(s, j)
  {
    if s.caller.CallerRun? { RunFrame(c, s, 0, s.caller.run); }
    forall j: nat | 1 <= j < s.word.used ensures Stage(CallerStep(c, s), j) == Stage(s, j) {
      assert WorkerOk(c, s, j - 1);
      CallerStages(c, s, j);
    }
  }

  lemma AwaitCount(c: Config, s: Sys)
    requires CallerOk(c, s) && WorkersOk(c, s) && CountOk(c, s) && Enabled(c, s, Caller) && Active(s.caller)
    ensures CountOk(c, CallerStep(c, s))
  {
    var t := CallerStep(c, s);
    CallerKeepsStages(c, s);
    BusySame(s, t, s.word.used - 1);
    if s.caller.CallerRun? { RunFrame(c, s, 0, s.caller.run); }
    if s.caller.AwaitSpin? || s.caller.AwaitLoad? { AwaitEnds(c, s); }
  }

  lemma CallerCount(c: Config, s: Sys)
    requires c.Valid() && CallerOk(c, s) && WorkersOk(c, s) && CountOk(c, s) && Enabled(c, s, Caller)
    ensures CountOk(c, CallerStep(c, s))
  {
    if s.caller.StoreState? { PublishCount(c, s); }
    else if Active(s.caller) { AwaitCount(c, s); }
    else if !s.caller.StopAdd? { CallerKeepsStages(c, s); }
  }

  lemma DecrementCount(c: Config, s: Sys, i: nat)
    requires CallerOk(c, s) && WorkerOk(c, s, i) && CountOk(c, s) && s.workers[i].Decrement?
    ensures CountOk(c, WorkerStep(c, s, i))
  {
    var t := WorkerStep(c, s, i);
    OthersKeepStages(c, s, i);
    WorkerStages(c, s, i, i + 1);
    BusyOneLess(s, t, s.word.used - 1, i + 1);
    if t.unfinished == 0 { assert t.workers[i].NotifyDone?; }
  }

  lemma WorkerCount(c: Config, s: Sys, i: nat)
    requires CallerOk(c, s) && WorkerOk(c, s, i) && CountOk(c, s)
    requires Enabled(c, s, Worker(i)) && !s.workers[i].Decrement?
    ensures CountOk(c, WorkerStep(c, s, i))
  {
    var t := WorkerStep(c, s, i);
    WorkerFrame(c, s, i);
    OthersKeepStages(c, s, i);
    WorkerStages(c, s, i, i + 1);
    NoCount(c, s, i);
    if Active(s.caller) { BusySame(s, t, s.word.used - 1); }
    if t.caller.CallerParked? && t.unfinished == 0 { NotifierStays(c, s, i); }
  }

  lemma OthersKeepStages(c: Config, s: Sys, i: nat)
    requires CallerOk(c, s) && WorkerOk(c, s, i) && Enabled(c, s, Worker(i))
    ensures forall j: nat :: j != i + 1 ==> Stage(WorkerStep(c, s, i), j) == Stage(s, j)
  {
    forall j: nat ensures j != i + 1 ==> Stage(WorkerStep(c, s, i), j) == Stage(s, j) { WorkerStages(c, s, i, j); }
  }

  /// While the caller stays parked, whoever was about to notify it still is.
  lemma NotifierStays(c: Config, s: Sys, i: nat)
    requires CountOk(c, s) && Enabled(c, s, Worker(i)) && WorkerStep(c, s, i).caller.CallerParked?
    requires s.unfinished == 0
    ensures var t := WorkerStep(c, s, i); exists k :: 0 <= k < |t.workers| && t.workers[k].NotifyDone?
  {
    var t := WorkerStep(c, s, i);
    WorkerFrame(c, s, i);
    var k :| 0 <= k < |s.workers| && s.workers[k].NotifyDone?;
    assert t.workers[k].NotifyDone?;
  }

  lemma NoCount(c: Config, s: Sys, i: nat)
    requires i < |s.workers| && !s.workers[i].Decrement?
    ensures WorkerStep(c, s, i).unfinished == s.unfinished
    ensures s.workers[i].NotifyDone? ==> !WorkerStep(c, s, i).caller.CallerParked?
  {
    if s.workers[i].WorkerRun? { RunFrame(c, s, i + 1, s.workers[i].run); }
  }

  // ----- invocations and exceptions

  predicate Live(p: CallerPc) { Active(p) || Ending(p) }

  /// Steps that neither invoke a task nor touch the stored exception.
  lemma RecordsKept(c: Config, s: Sys, t: Sys)
    requires ExcOk(c, s) && RunsOk(c, s)
    requires t.stored == s.stored && t.exc == s.exc && t.winner == s.winner && t.runs == s.runs && t.next == s.next
    requires Live(t.caller) == Live(s.caller) && t.caller.TakeExc? == s.caller.TakeExc?
    requires InCall(t.caller) ==> t.next < |c.calls|
    requires Live(s.caller) ==> forall j :: 0 <= j < c.calls[s.next].used ==>
                                  Stage(t, j) == Stage(s, j) || (Stage(t, j) >= 3 && Stage(s, j) >= 3)
    ensures ExcOk(c, t) && RunsOk(c, t)
  {
  }

  /// One step of `run(j)`, by whichever thread executes index `j`.
  lemma RunRecords(c: Config, s: Sys, j: nat, r: RunPc, t: Sys)
    requires ExcOk(c, s) && RunsOk(c, s) && Published(c, s) && j < c.calls[s.next].used
    requires RunOk(c, s, j, r) && Stage(s, j) == RunStage(r) && Active(s.caller) && Active(t.caller)
    requires var (u, r') := RunStep(c, s, j, r);
             && t.stored == u.stored && t.exc == u.exc && t.winner == u.winner && t.runs == u.runs && t.next == s.next
             && if r'.Some? then Stage(t, j) == RunStage(r'.value) else Stage(t, j) >= 3
    requires forall k :: 0 <= k < c.calls[s.next].used && k != j ==> Stage(t, k) == Stage(s, k)
    ensures ExcOk(c, t) && RunsOk(c, t)
  {
  }

  lemma CallerRunRecords(c: Config, s: Sys)
    requires c.Valid() && CallerOk(c, s) && WorkersOk(c, s) && ExcOk(c, s) && RunsOk(c, s) && s.caller.CallerRun?
    ensures ExcOk(c, CallerStep(c, s)) && RunsOk(c, CallerStep(c, s))
  {
    CallerKeepsStages(c, s);
    RunRecords(c, s, 0, s.caller.run, CallerStep(c, s));
  }

  /// A call on one index, executed by the caller alone.
  lemma SingleRecords(c: Config, s: Sys)
    requires CallerOk(c, s) && ExcOk(c, s) && RunsOk(c, s) && OutcomesOk(c, s) && s.caller.Ready?
    requires s.next < |c.calls| && c.calls[s.next].used == 1
    ensures ExcOk(c, ReadyStep(c, s)) && RunsOk(c, ReadyStep(c, s)) && OutcomesOk(c, ReadyStep(c, s))
  {
    assert OutcomeOk(c.calls[s.next], s.next, ReadyStep(c, s).outcomes[s.next]);
  }

  lemma ReadyRecords(c: Config, s: Sys)
    requires CallerOk(c, s) && ExcOk(c, s) && RunsOk(c, s) && OutcomesOk(c, s) && s.caller.Ready?
    ensures ExcOk(c, ReadyStep(c, s)) && RunsOk(c, ReadyStep(c, s)) && OutcomesOk(c, ReadyStep(c, s))
  {
    if s.next < |c.calls| && c.calls[s.next].used == 1 { SingleRecords(c, s); }
  }

  /// The end of a region in which no task threw.
  lemma ReturnRecords(c: Config, s: Sys)
    requires CallerOk(c, s) && CountOk(c, s) && ExcOk(c, s) && RunsOk(c, s) && OutcomesOk(c, s)
    requires s.caller.TakeFlag? && !s.stored
    ensures ExcOk(c, CallerStep(c, s)) && RunsOk(c, CallerStep(c, s)) && OutcomesOk(c, CallerStep(c, s))
  {
    var t := CallerStep(c, s);
    forall j: nat | j < s.word.used ensures Stage(s, j) == 4 && j !in c.calls[s.next].throws {}
    assert OutcomeOk(c.calls[s.next], s.next, t.outcomes[s.next]);
  }

  /// The end of a region whose captured exception is rethrown.
  lemma RethrowRecords(c: Config, s: Sys)
    requires CallerOk(c, s) && CountOk(c, s) && ExcOk(c, s) && RunsOk(c, s) && OutcomesOk(c, s) && s.caller.TakeExc?
    ensures ExcOk(c, CallerStep(c, s)) && RunsOk(c, CallerStep(c, s)) && OutcomesOk(c, CallerStep(c, s))
  {
    var t := CallerStep(c, s);
    forall j: nat | j < s.word.used ensures Stage(s, j) == 4 {}
    assert OutcomeOk(c.calls[s.next], s.next, t.outcomes[s.next]);
  }

  lemma FlagRecords(c: Config, s: Sys)
    requires CallerOk(c, s) && CountOk(c, s) && ExcOk(c, s) && RunsOk(c, s) && s.caller.TakeFlag? && s.stored
    ensures ExcOk(c, CallerStep(c, s)) && RunsOk(c, CallerStep(c, s))
  {
    var t := CallerStep(c, s);
    forall j: nat | j < s.word.used ensures Stage(s, j) == 4 && Stage(t, j) == 4 {}
  }

  /// The caller's steps that record nothing.
  lemma PlainRecords(c: Config, s: Sys)
    requires CallerOk(c, s) && WorkersOk(c, s) && Enabled(c, s, Caller) && ExcOk(c, s) && RunsOk(c, s)
    requires !s.caller.Ready? && !s.caller.CallerRun? && !Ending(s.caller) && !s.caller.StoreState?
    ensures ExcOk(c, CallerStep(c, s)) && RunsOk(c, CallerStep(c, s))
  {
    if Active(s.caller) { CallerKeepsStages(c, s); }
    RecordsKept(c, s, CallerStep(c, s));
  }

  lemma CallerRecords(c: Config, s: Sys)
    requires c.Valid() && Enabled(c, s, Caller)
    requires CallerOk(c, s) && WorkersOk(c, s) && CountOk(c, s) && ExcOk(c, s) && RunsOk(c, s) && OutcomesOk(c, s)
    ensures ExcOk(c, CallerStep(c, s)) && RunsOk(c, CallerStep(c, s))
  {
    match s.caller
    case Ready => ReadyRecords(c, s);
    case CallerRun(_) => CallerRunRecords(c, s);
    case TakeFlag => if s.stored { FlagRecords(c, s); } else { ReturnRecords(c, s); }
    case TakeExc => RethrowRecords(c, s);
    case StoreState(_) => PublishCount(c, s); PublishRecords(c, s);
    case _ => PlainRecords(c, s);
  }

  lemma CallerOutcomes(c: Config, s: Sys)
    requires c.Valid() && Enabled(c, s, Caller)
    requires CallerOk(c, s) && CountOk(c, s) && ExcOk(c, s) && RunsOk(c, s) && OutcomesOk(c, s)
    ensures OutcomesOk(c, CallerStep(c, s))
  {
    match s.caller
    case Ready => ReadyRecords(c, s);
    case CallerRun(r) => RunFrame(c, s, 0, r);
    case TakeFlag => if !s.stored { ReturnRecords(c, s); }
    case TakeExc => RethrowRecords(c, s);
    case _ =>
  }

  lemma PublishRecords(c: Config, s: Sys)
    requires CallerOk(c, s) && ExcOk(c, s) && RunsOk(c, s) && s.caller.StoreState?
    requires forall j: nat :: 0 <= j < c.calls[s.next].used ==> Stage(CallerStep(c, s), j) == 0
    ensures ExcOk(c, CallerStep(c, s)) && RunsOk(c, CallerStep(c, s))
  {
  }

  lemma WorkerRunRecords(c: Config, s: Sys, i: nat)
    requires CallerOk(c, s) && WorkerOk(c, s, i) && ExcOk(c, s) && RunsOk(c, s) && s.workers[i].WorkerRun?
    ensures ExcOk(c, WorkerStep(c, s, i)) && RunsOk(c, WorkerStep(c, s, i))
  {
    WorkerFrame(c, s, i);
    OthersKeepStages(c, s, i);
    RunRecords(c, s, i + 1, s.workers[i].run, WorkerStep(c, s, i));
  }

  lemma WorkerRecords(c: Config, s: Sys, i: nat)
    requires CallerOk(c, s) && WorkerOk(c, s, i) && CountOk(c, s) && ExcOk(c, s) && RunsOk(c, s)
    requires Enabled(c, s, Worker(i)) && !s.workers[i].WorkerRun?
    ensures ExcOk(c, WorkerStep(c, s, i)) && RunsOk(c, WorkerStep(c, s, i))
  {
    WorkerFrame(c, s, i);
    RecordsNothing(c, s, i);
    if Live(s.caller) { LateStages(c, s, i); }
    RecordsKept(c, s, WorkerStep(c, s, i));
  }

  lemma RecordsNothing(c: Config, s: Sys, i: nat)
    requires i < |s.workers| && !s.workers[i].WorkerRun?
    ensures var t := WorkerStep(c, s, i);
            t.stored == s.stored && t.exc == s.exc && t.winner == s.winner && t.runs == s.runs
  {
  }

  /// Outside `run`, only a participant that has invoked its task moves on.
  lemma LateStages(c: Config, s: Sys, i: nat)
    requires CallerOk(c, s) && WorkerOk(c, s, i) && CountOk(c, s) && Live(s.caller)
    requires Enabled(c, s, Worker(i)) && !s.workers[i].WorkerRun?
    ensures forall j: nat :: 0 <= j < s.word.used ==>
              var k := Stage(WorkerStep(c, s, i), j); k == Stage(s, j) || (k >= 3 && Stage(s, j) >= 3)
  {
    OthersKeepStages(c, s, i);
    WorkerStages(c, s, i, i + 1);
    if Ending(s.caller) && i + 1 < s.word.used { assert Stage(s, i + 1) == 4; }
  }

  // ----- every reachable state

  lemma CallerKeepsInv(c: Config, s: Sys)
    requires c.Valid() && Inv(c, s) && Enabled(c, s, Caller)
    ensures Inv(c, CallerStep(c, s))
  {
    var t := CallerStep(c, s);
    if Active(s.caller) { BusyBound(s, s.word.used - 1); }
    CallerControl(c, s);
    forall i | 0 <= i < |t.workers| ensures WorkerOk(c, t, i) { CallerKeepsWorker(c, s, i); }
    CallerCount(c, s);
    CallerRecords(c, s);
    CallerOutcomes(c, s);
  }

  lemma WorkerKeepsInv(c: Config, s: Sys, i: nat)
    requires c.Valid() && Inv(c, s) && Enabled(c, s, Worker(i))
    ensures Inv(c, WorkerStep(c, s, i))
  {
    var t := WorkerStep(c, s, i);
    assert WorkerOk(c, s, i);
    WorkerControl(c, s, i);
    WorkerFrame(c, s, i);
    forall k | 0 <= k < |t.workers| ensures WorkerOk(c, t, k) {
      if k == i { WorkerKeepsItself(c, s, i); } else { WorkerKeepsOther(c, s, i, k); }
    }
    if s.workers[i].Decrement? { DecrementCount(c, s, i); } else { WorkerCount(c, s, i); }
    if s.workers[i].WorkerRun? { WorkerRunRecords(c, s, i); } else { WorkerRecords(c, s, i); }
  }

  /// Spurious wake-ups change nothing but the sleeper.
  lemma SpuriousFrame(c: Config, s: Sys, a: Actor)
    requires Enabled(c, s, a) && Spurious(a)
    ensures var t := Apply(c, s, a); t == s.(caller := t.caller, workers := t.workers)
    ensures forall j: nat :: Stage(Apply(c, s, a), j) == Stage(s, j)
  {
  }

  lemma SpuriousCount(c: Config, s: Sys, a: Actor)
    requires CountOk(c, s) && Enabled(c, s, a) && Spurious(a)
    ensures CountOk(c, Apply(c, s, a))
  {
    var t := Apply(c, s, a);
    SpuriousFrame(c, s, a);
    if Active(s.caller) { BusySame(s, t, s.word.used - 1); }
    if t.caller.CallerParked? && t.unfinished == 0 {
      var k :| 0 <= k < |s.workers| && s.workers[k].NotifyDone?;
      assert t.workers[k].NotifyDone?;
    }
  }

  lemma SpuriousKeepsWorker(c: Config, s: Sys, a: Actor, k: nat)
    requires Enabled(c, s, a) && Spurious(a) && WorkerOk(c, s, k)
    ensures WorkerOk(c, Apply(c, s, a), k)
  {
  }

  lemma SpuriousRecords(c: Config, s: Sys, a: Actor)
    requires CallerOk(c, s) && ExcOk(c, s) && RunsOk(c, s) && Enabled(c, s, a) && Spurious(a)
    ensures ExcOk(c, Apply(c, s, a)) && RunsOk(c, Apply(c, s, a))
  {
    SpuriousFrame(c, s, a);
    RecordsKept(c, s, Apply(c, s, a));
  }

  lemma SpuriousKeepsInv(c: Config, s: Sys, a: Actor)
    requires Inv(c, s) && Enabled(c, s, a) && Spurious(a)
    ensures Inv(c, Apply(c, s, a))
  {
    SpuriousFrame(c, s, a);
    SpuriousControl(c, s, a);
    SpuriousCount(c, s, a);
    SpuriousRecords(c, s, a);
    forall k | 0 <= k < |s.workers| ensures WorkerOk(c, Apply(c, s, a), k) {
      assert WorkerOk(c, s, k);
      SpuriousKeepsWorker(c, s, a, k);
    }
  }

  lemma SpuriousControl(c: Config, s: Sys, a: Actor)
    requires CallerOk(c, s) && Enabled(c, s, a) && Spurious(a)
    ensures CallerOk(c, Apply(c, s, a)) && |Apply(c, s, a).workers| == |s.workers|
  {
  }

  /// The invariant holds in every state of every run, whatever the interleaving.
  lemma {:induction false} InvAlways(c: Config, states: seq<Sys>, actors: seq<Actor>)
    requires c.Valid() && IsRun(c, states, actors)
    ensures forall t :: 0 <= t < |states| ==> Inv(c, states[t])
  {
    InitInv(c);
    var t := 0;
    while t < |actors|
      invariant t <= |actors|
      invariant forall k :: 0 <= k <= t ==> Inv(c, states[k])
    {
      var s, a := states[t], actors[t];
      match a {
        case Caller => CallerKeepsInv(c, s);
        case Worker(i) => WorkerKeepsInv(c, s, i);
        case _ => SpuriousKeepsInv(c, s, a);
      }
      t := t + 1;
    }
  }

  lemma {:induction false} InitInv(c: Config)
    requires c.Valid()
    ensures Inv(c, Init(c))
  {
    forall k | 0 <= k < |Init(c).workers| ensures WorkerOk(c, Init(c), k) {}
  }

  // ----- what the invariant gives

  /// Every index of every finished call ran exactly once, with the code and the data of its own call;
  /// nothing else ever ran.
  lemma ExactlyOnce(c: Config, states: seq<Sys>, actors: seq<Actor>, t: nat)
    requires c.Valid() && IsRun(c, states, actors) && t < |states|
    ensures forall k: nat, i: nat :: k < states[t].next ==>
              k < |c.calls| && states[t].runs[Run(Some(k), Some(k), i)] == if i < c.calls[k].used then 1 else 0
    ensures forall r: Run :: r in states[t].runs ==>
              states[t].runs[r] == 1 && r.fun == r.data && r.fun.Some? && r.fun.value <= states[t].next &&
              r.fun.value < |c.calls| && r.index < c.calls[r.fun.value].used
  {
    InvAlways(c, states, actors);
    forall r: Run | r in states[t].runs ensures states[t].runs[r] == Expected(c, states[t], r) {}
  }

  /// While a thread is between loading the dispatch state that makes it a participant and its decrement,
  /// its region is published and the caller does not touch the task slot or the counter.
  lemma SlotIsStable(c: Config, states: seq<Sys>, actors: seq<Actor>, t: nat, i: nat)
    requires c.Valid() && IsRun(c, states, actors) && t < |states| && i < |states[t].workers|
    ensures var s := states[t];
            s.workers[i].WorkerRun? || s.workers[i].Decrement? ||
            (s.workers[i].Got? && i + 1 < s.workers[i].word.used && !s.stop) ==>
              && Active(s.caller) && s.workers[i].word == s.word
              && s.next < |c.calls| && i + 1 < c.calls[s.next].used
              && s.fun == s.data == Some(s.next) && 0 < s.unfinished
  {
    InvAlways(c, states, actors);
    var s := states[t];
    assert WorkerOk(c, s, i);
    if Active(s.caller) && i + 1 < s.word.used && Stage(s, i + 1) < 4 && s.unfinished == 0 {
      BusyZero(s, s.word.used - 1, i + 1);
    }
  }

  /// `execute` leaves its region only when every participant has reported completion.
  lemma ReturnsAfterAll(c: Config, states: seq<Sys>, actors: seq<Actor>, t: nat, i: nat)
    requires c.Valid() && IsRun(c, states, actors) && t < |states| && i < |states[t].workers|
    requires !Active(states[t].caller)
    ensures var w := states[t].workers[i];
            !w.WorkerRun? && !w.Decrement?
            && (!states[t].stop && i + 1 < states[t].word.used ==>
                  !w.Got? && !w.Exited? && (if w.NotifyDone? then w.word else w.last) == states[t].word)
  {
    InvAlways(c, states, actors);
    var s := states[t];
    assert WorkerOk(c, s, i);
    if !s.stop && i + 1 < s.word.used { assert Stage(s, i + 1) == 4; }
  }

  /// Every call that threw rethrows exactly one of its own exceptions, every other call returns.
  lemma OutcomesAreOwn(c: Config, states: seq<Sys>, actors: seq<Actor>, t: nat, k: nat)
    requires c.Valid() && IsRun(c, states, actors) && t < |states| && k < states[t].next
    ensures k < |states[t].outcomes| && k < |c.calls| && OutcomeOk(c.calls[k], k, states[t].outcomes[k])
    ensures states[t].caller.Ready? ==> !states[t].stored && states[t].exc == None
  {
    InvAlways(c, states, actors);
  }

  /// The dispatch state of every reachable state is one that packs without loss.
  lemma AlwaysPackable(c: Config, states: seq<Sys>, actors: seq<Actor>, t: nat)
    requires c.Valid() && IsRun(c, states, actors) && t < |states|
    ensures states[t].word.used <= MAX_THREAD_NUM
    ensures |states[t].workers| == if c.threadNum <= 1 then 0 else c.threadNum - 1
  {
    InvAlways(c, states, actors);
  }
}
