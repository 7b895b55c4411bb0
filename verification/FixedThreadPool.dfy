/**
 The step relation of `FixedThreadPool` (include/thesauros/execution/executor/fixed-thread-pool.hpp).

 Every access to an atomic, to the task slot or to the stored exception is one step of one thread,
 and the steps of the threads interleave arbitrarily. Atomics are sequentially consistent, the epoch
 in the upper bits of the dispatch state is unbounded, and a task body is one terminating step that
 either returns or throws. The client calls `execute` a given number of times and then destroys the pool.
 */
module FixedThreadPool {
  import opened Arith
  import opened Bits
  import opened Wrappers

  /// The packing of the dispatch state: participants in the low bits, epoch above.
  const MAX_THREAD_NUM: nat := 0xFFFF
  const EPOCH_STEP: nat := 0x1_0000

  /// A dispatch state, unpacked. `Pack` is the single number that the code stores.
  datatype Word = Word(epoch: nat, used: nat)

  function Pack(w: Word): nat { w.epoch * EPOCH_STEP + w.used }

  function AddStep(w: Word): Word { w.(epoch := w.epoch + 1) }

  /// On packed states of `width` bits: `x & used_mask`, `(x & ~used_mask) | used`.
  function MaskUsed(x: nat): nat { And(x, MAX_THREAD_NUM) }

  function ReplaceUsed(width: nat, x: nat, used: nat): nat
    requires MAX_THREAD_NUM < Pow2(width)
  {
    Or(And(x, Complement(width, MAX_THREAD_NUM)), used)
  }

  /// As long as no more than `MAX_THREAD_NUM` threads are in use and the epoch fits above them, the operations of the
  /// code on packed states are those of the step relation on unpacked ones, and states can be compared packed.
  lemma PackingIsExact(width: nat, w: Word, v: Word, used: nat)
    requires w.used <= MAX_THREAD_NUM && v.used <= MAX_THREAD_NUM && used <= MAX_THREAD_NUM
    requires 16 <= width && Pack(w) < Pow2(width)
    ensures MAX_THREAD_NUM < Pow2(width)
    ensures Pack(w) + EPOCH_STEP == Pack(AddStep(w))
    ensures MaskUsed(Pack(w)) == w.used
    ensures ReplaceUsed(width, Pack(w), used) == Pack(w.(used := used))
    ensures Pack(w) == Pack(v) <==> w == v
  {
    WordSizes();
    Pow2Monotone(16, width);
    var x := Pack(w);
    assert x / EPOCH_STEP == w.epoch && x % EPOCH_STEP == w.used && Pack(v) / EPOCH_STEP == v.epoch;
    LowHigh(x, 16);
    AndLowMask(x, 16);
    AndHighMask(width, x, 16);
    MultipleLow(w.epoch, 16);
    OrDisjoint(w.epoch * EPOCH_STEP, used, 16);
  }

  /// One `execute(task, used)`: the number of indices and those on which the task throws.
  datatype Call = Call(used: nat, throws: set<nat>)

  datatype Config = Config(threadNum: nat, spinCount: nat, calls: seq<Call>) {
    ghost predicate Valid() {
      && threadNum <= MAX_THREAD_NUM
      && forall k :: 0 <= k < |calls| ==> calls[k].used <= threadNum
    }

    function WorkerNum(): nat { if threadNum > 0 then threadNum - 1 else 0 }
  }

  /// The exception thrown by the task of one call on one index.
  datatype Exn = Exn(call: nat, index: nat)

  datatype Outcome = Returned | Rethrew(e: Option<Exn>)

  /// One invocation `task_fun_(task_data_, index)`: whose code, on whose data, on which index.
  datatype Run = Run(fun: Option<nat>, data: Option<nat>, index: nat)

  /// The program points of `run`. The last one is reached only by the thread storing its exception.
  datatype RunPc =
    | ReadFun
    | ReadData(fun: Option<nat>)
    | Invoke(fun: Option<nat>, data: Option<nat>)
    | Exchange(e: Exn)
    | WriteExc(e: Exn)

  /// The program points of the thread that owns the pool.
  datatype CallerPc =
    | Ready
    | WriteData
    | StoreUnfinished
    | LoadState
    | StoreState(word: Word)
    | NotifyRegion
    | CallerRun(run: RunPc)
    | AwaitSpin(left: nat)
    | AwaitLoad
    | AwaitWait(seen: nat)
    | CallerParked(seen: nat)
    | TakeFlag
    | TakeExc
    | StopAdd
    | StopNotify
    | Join
    | Gone

  /// The program points of a worker. `last` is the dispatch state it has handled, `word` the one it loaded.
  datatype WorkerPc =
    | Spin(last: Word, left: nat)
    | Wait(last: Word)
    | Parked(last: Word)
    | Reload(last: Word)
    | Got(word: Word)
    | WorkerRun(word: Word, run: RunPc)
    | Decrement(word: Word)
    | NotifyDone(word: Word)
    | Exited

  /// `runs`, `outcomes` and `winner` are history: the invocations, the results of the calls so far,
  /// and the index whose exception the current region captures.
  datatype Sys = Sys(
    word: Word, stop: bool, fun: Option<nat>, data: Option<nat>, unfinished: nat, stored: bool, exc: Option<Exn>,
    caller: CallerPc, workers: seq<WorkerPc>, next: nat,
    runs: multiset<Run>, outcomes: seq<Outcome>, winner: Option<nat>)

  function AwaitState(c: Config, last: Word): WorkerPc {
    if c.spinCount == 0 then Wait(last) else Spin(last, c.spinCount)
  }

  function AwaitCompletion(c: Config): CallerPc {
    if c.spinCount == 0 then AwaitLoad else AwaitSpin(c.spinCount)
  }

  function Init(c: Config): Sys {
    Sys(Word(0, 0), false, None, None, 0, false, None,
        Ready, seq(c.WorkerNum(), i => AwaitState(c, Word(0, 0))), 0, multiset{}, [], None)
  }

  datatype Actor = Caller | Worker(i: nat) | SpuriousCaller | SpuriousWorker(i: nat)

  predicate Spurious(a: Actor) { a.SpuriousCaller? || a.SpuriousWorker? }

  /// A thread can take a step unless it is parked, has ended, or joins threads still running.
  /// A parked thread may also wake up spuriously.
  predicate Enabled(c: Config, s: Sys, a: Actor) {
    match a
    case Caller =>
      !s.caller.CallerParked? && !s.caller.Gone? &&
      (s.caller.Join? ==> forall i :: 0 <= i < |s.workers| ==> s.workers[i].Exited?)
    case Worker(i) => i < |s.workers| && !s.workers[i].Parked? && !s.workers[i].Exited?
    case SpuriousCaller => s.caller.CallerParked?
    case SpuriousWorker(i) => i < |s.workers| && s.workers[i].Parked?
  }

  /// What an unblocked waiter does: compare again.
  function Wake(w: WorkerPc): WorkerPc { if w.Parked? then Wait(w.last) else w }

  function WakeCaller(p: CallerPc): CallerPc { if p.CallerParked? then AwaitWait(p.seen) else p }

  function WakeAll(ws: seq<WorkerPc>): seq<WorkerPc> { seq(|ws|, i requires 0 <= i < |ws| => Wake(ws[i])) }

  predicate Throws(c: Config, data: Option<nat>, index: nat) {
    data.Some? && data.value < |c.calls| && index in c.calls[data.value].throws
  }

  /// One step of `run(index)`: the new shared state and the next program point, or `None` at its end.
  function RunStep(c: Config, s: Sys, index: nat, r: RunPc): (Sys, Option<RunPc>) {
    match r
    case ReadFun => (s, Some(ReadData(s.fun)))
    case ReadData(f) => (s, Some(Invoke(f, s.data)))
    case Invoke(f, d) =>
      (s.(runs := s.runs + multiset{Run(f, d, index)}),
       if Throws(c, d, index) then Some(Exchange(Exn(d.value, index))) else None)
    case Exchange(e) =>
      if s.stored then (s, None) else (s.(stored := true, winner := Some(index)), Some(WriteExc(e)))
    case WriteExc(e) => (s.(exc := Some(e)), None)
  }

  /// `execute` returning to its caller.
  function Finish(s: Sys, o: Outcome): Sys { s.(caller := Ready, next := s.next + 1, outcomes := s.outcomes + [o]) }

  function ReadyStep(c: Config, s: Sys): Sys {
    if s.next >= |c.calls| then s.(stop := true, caller := StopAdd)
    else
      var call := c.calls[s.next];
      if call.used == 0 then Finish(s, Returned)
      else if call.used == 1 then
        Finish(s.(runs := s.runs + multiset{Run(Some(s.next), Some(s.next), 0)}),
               if 0 in call.throws then Rethrew(Some(Exn(s.next, 0))) else Returned)
      else s.(fun := Some(s.next), caller := WriteData)
  }

  function CallerStep(c: Config, s: Sys): Sys {
    match s.caller
    case Ready => ReadyStep(c, s)
    case WriteData => s.(data := Some(s.next), caller := StoreUnfinished)
    case StoreUnfinished =>
      if s.next < |c.calls| && c.calls[s.next].used > 0
      then s.(unfinished := c.calls[s.next].used - 1, caller := LoadState) else s
    case LoadState => s.(caller := StoreState(AddStep(s.word)))
    case StoreState(w) =>
      if s.next < |c.calls| then s.(word := w.(used := c.calls[s.next].used), caller := NotifyRegion) else s
    case NotifyRegion => s.(workers := WakeAll(s.workers), caller := CallerRun(ReadFun))
    case CallerRun(r) =>
      var (t, r') := RunStep(c, s, 0, r);
      t.(caller := if r'.Some? then CallerRun(r'.value) else AwaitCompletion(c))
    case AwaitSpin(n) =>
      s.(caller := if s.unfinished == 0 then TakeFlag else if n <= 1 then AwaitLoad else AwaitSpin(n - 1))
    case AwaitLoad => s.(caller := if s.unfinished == 0 then TakeFlag else AwaitWait(s.unfinished))
    case AwaitWait(seen) => s.(caller := if s.unfinished == seen then CallerParked(seen) else AwaitLoad)
    case TakeFlag => if s.stored then s.(stored := false, caller := TakeExc) else Finish(s, Returned)
    case TakeExc => Finish(s.(exc := None, winner := None), Rethrew(s.exc))
    case StopAdd => s.(word := AddStep(s.word), caller := StopNotify)
    case StopNotify => s.(workers := WakeAll(s.workers), caller := Join)
    case Join => s.(caller := Gone)
    case CallerParked(_) => s
    case Gone => s
  }

  function SetWorker(s: Sys, i: nat, w: WorkerPc): Sys
    requires i < |s.workers|
  {
    s.(workers := s.workers[i := w])
  }

  /// One step of the worker in slot `i`, whose thread index is `i + 1`.
  function WorkerStep(c: Config, s: Sys, i: nat): Sys
    requires i < |s.workers|
  {
    match s.workers[i]
    case Spin(last, n) =>
      SetWorker(s, i, if s.word != last then Got(s.word) else if n <= 1 then Wait(last) else Spin(last, n - 1))
    case Wait(last) => SetWorker(s, i, if s.word != last then Reload(last) else Parked(last))
    case Reload(last) => SetWorker(s, i, if s.word != last then Got(s.word) else Wait(last))
    case Got(w) =>
      SetWorker(s, i, if s.stop then Exited
                      else if i + 1 < w.used then WorkerRun(w, ReadFun) else AwaitState(c, w))
    case WorkerRun(w, r) =>
      var (t, r') := RunStep(c, s, i + 1, r);
      t.(workers := s.workers[i := if r'.Some? then WorkerRun(w, r'.value) else Decrement(w)])
    case Decrement(w) =>
      SetWorker(s.(unfinished := if s.unfinished > 0 then s.unfinished - 1 else 0), i,
                if s.unfinished == 1 then NotifyDone(w) else AwaitState(c, w))
    case NotifyDone(w) => SetWorker(s.(caller := WakeCaller(s.caller)), i, AwaitState(c, w))
    case Parked(_) => s
    case Exited => s
  }

  function Apply(c: Config, s: Sys, a: Actor): Sys
    requires Enabled(c, s, a)
  {
    match a
    case Caller => CallerStep(c, s)
    case Worker(i) => WorkerStep(c, s, i)
    case SpuriousCaller => s.(caller := WakeCaller(s.caller))
    case SpuriousWorker(i) => SetWorker(s, i, Wake(s.workers[i]))
  }

  /// A run from the constructed pool: the states it goes through and who moved.
  ghost predicate IsRun(c: Config, states: seq<Sys>, actors: seq<Actor>) {
    && |states| == |actors| + 1
    && states[0] == Init(c)
    && forall t :: 0 <= t < |actors| ==>
         Enabled(c, states[t], actors[t]) && states[t + 1] == Apply(c, states[t], actors[t])
  }
}
