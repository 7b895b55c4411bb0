/**
 The parallel `transform_inclusive_scan` (include/thesauros/algorithms/transform-inclusive-scan.hpp): every thread
 reduces its segment, publishes the partial sum, waits at a latch for all others, adds up the partial sums before
 its own and scans its segment from there. The steps of the threads interleave arbitrarily.
 */
module InclusiveScan {
  import opened Monoids
  import opened Segmentation
  import opened Wrappers

  /// `bounds[t]` and `bounds[t + 1]` delimit the segment of thread `t`; the values are the transformed inputs.
  datatype Config<!U, !T> = Config(m: Monoid<T>, f: U -> T, input: seq<U>, bounds: seq<nat>) {
    ghost predicate Valid() {
      && |bounds| >= 2
      && bounds[0] == 0 && bounds[|bounds| - 1] == |input|
      && forall s, t :: 0 <= s <= t < |bounds| ==> bounds[s] <= bounds[t]
    }

    function Threads(): nat { if |bounds| > 0 then |bounds| - 1 else 0 }

    function Values(): seq<T> { seq(|input|, i requires 0 <= i < |input| => f(input[i])) }
  }

  /// The program points of a thread. `Fill(j, offset)` is about to write element `j`.
  datatype Pc<T> =
    | Reduce
    | Publish(part: T)
    | Arrive
    | Await
    | SumOffsets
    | Fill(j: nat, offset: T)
    | Done

  datatype Sys<T> = Sys(pcs: seq<Pc<T>>, offsets: seq<Option<T>>, latch: nat, output: seq<Option<T>>)

  function Init<U, T>(c: Config<U, T>): Sys<T> {
    Sys(seq(c.Threads(), _ => Reduce), seq(c.Threads(), _ => None), c.Threads(), seq(|c.input|, _ => None))
  }

  ghost predicate AllWritten<T>(offsets: seq<Option<T>>, t: nat) {
    t <= |offsets| && forall i :: 0 <= i < t ==> offsets[i].Some?
  }

  function Parts<T>(offsets: seq<Option<T>>, t: nat): seq<T>
    requires AllWritten(offsets, t)
  {
    seq(t, i requires 0 <= i < t => offsets[i].value)
  }

  function FillFrom<T>(j: nat, end: nat, offset: T): Pc<T> { if j < end then Fill(j, offset) else Done }

  /// One step of thread `t`. A sum over an unwritten offset could be anything.
  ghost predicate Step<U, T(!new)>(c: Config<U, T>, s: Sys<T>, t: nat, s': Sys<T>)
    requires c.Valid() && |s.pcs| == |s.offsets| == c.Threads() && |s.output| == |c.input|
  {
    t < c.Threads() &&
    var xs, begin, end := c.Values(), c.bounds[t], c.bounds[t + 1];
    match s.pcs[t]
    case Reduce => exists part :: Reduces(c.m, xs[begin..end], part) && s' == s.(pcs := s.pcs[t := Publish(part)])
    case Publish(part) => s' == s.(offsets := s.offsets[t := Some(part)], pcs := s.pcs[t := Arrive])
    case Arrive => s.latch > 0 && s' == s.(latch := s.latch - 1, pcs := s.pcs[t := Await])
    case Await => s.latch == 0 && s' == s.(pcs := s.pcs[t := SumOffsets])
    case SumOffsets =>
      exists offset ::
        (AllWritten(s.offsets, t) ==> Reduces(c.m, Parts(s.offsets, t), offset)) &&
        s' == s.(pcs := s.pcs[t := FillFrom(begin, end, offset)])
    case Fill(j, offset) =>
      begin <= j < end && exists v ::
        OrderedReduces(c.m, [offset] + xs[begin..j + 1], v) &&
        s' == s.(output := s.output[j := Some(v)], pcs := s.pcs[t := FillFrom(j + 1, end, offset)])
    case Done => false
  }

  // ----- the invariant

  predicate Arrived<T>(p: Pc<T>) { p.Await? || p.SumOffsets? || p.Fill? || p.Done? }

  predicate Passed<T>(p: Pc<T>) { p.SumOffsets? || p.Fill? || p.Done? }

  /// How many threads the latch still waits for.
  function Missing<T>(pcs: seq<Pc<T>>): nat {
    if |pcs| == 0 then 0 else Missing(pcs[..|pcs| - 1]) + if Arrived(pcs[|pcs| - 1]) then 0 else 1
  }

  ghost predicate Filled<U, T>(c: Config<U, T>, s: Sys<T>, lo: nat, hi: nat) {
    hi <= |s.output| && hi <= |c.input| &&
    forall j :: lo <= j < hi ==> s.output[j] == Some(Fold(c.m, c.Values()[..j + 1]))
  }

  ghost predicate Shaped<U, T>(c: Config<U, T>, s: Sys<T>) {
    c.Valid() && |s.pcs| == |s.offsets| == c.Threads() && |s.output| == |c.input|
  }

  ghost predicate Written<T>(output: seq<Option<T>>, lo: nat, hi: nat) {
    hi <= |output| && forall j :: lo <= j < hi ==> output[j].Some?
  }

  /// What holds of the control of one thread, whatever the operation is.
  ghost predicate ControlOk<U, T>(c: Config<U, T>, s: Sys<T>, t: nat)
    requires Shaped(c, s) && t < c.Threads()
  {
    && (Passed(s.pcs[t]) ==> s.latch == 0)
    && (Arrived(s.pcs[t]) || s.pcs[t].Arrive? ==> s.offsets[t].Some?)
    && match s.pcs[t]
       case Fill(j, _) => c.bounds[t] <= j < c.bounds[t + 1] && Written(s.output, c.bounds[t], j)
       case Done => Written(s.output, c.bounds[t], c.bounds[t + 1])
       case _ => true
  }

  /// The part of the invariant that rests on the latch alone.
  ghost predicate Control<U, T>(c: Config<U, T>, s: Sys<T>) {
    Shaped(c, s) && s.latch == Missing(s.pcs) && forall t :: 0 <= t < c.Threads() ==> ControlOk(c, s, t)
  }

  /// The values one thread holds and has written, if the operation is a commutative monoid.
  ghost predicate ThreadOk<U, T>(c: Config<U, T>, s: Sys<T>, t: nat)
    requires Shaped(c, s) && t < c.Threads()
  {
    var xs, begin, end := c.Values(), c.bounds[t], c.bounds[t + 1];
    assert end <= c.bounds[|c.bounds| - 1];
    var part := Fold(c.m, xs[begin..end]);
    && (Arrived(s.pcs[t]) || s.pcs[t].Arrive? ==> s.offsets[t] == Some(part))
    && match s.pcs[t]
       case Publish(p) => p == part
       case Fill(j, offset) => offset == Fold(c.m, xs[..begin]) && Filled(c, s, begin, j)
       case Done => Filled(c, s, begin, end)
       case _ => true
  }

  ghost predicate Inv<U, T>(c: Config<U, T>, s: Sys<T>) {
    Control(c, s) && forall t :: 0 <= t < c.Threads() ==> ThreadOk(c, s, t)
  }

  lemma {:induction false} MissingUpdate<T>(pcs: seq<Pc<T>>, t: nat, p: Pc<T>)
    requires t < |pcs|
    ensures Missing(pcs[t := p]) == Missing(pcs) + (if Arrived(p) then 0 else 1) - (if Arrived(pcs[t]) then 0 else 1)
  {
    var n := |pcs| - 1;
    if t < n {
      MissingUpdate(pcs[..n], t, p);
      assert pcs[t := p][..n] == pcs[..n][t := p];
    } else {
      assert pcs[t := p][..n] == pcs[..n];
    }
  }

  lemma {:induction false} NoneMissing<T>(pcs: seq<Pc<T>>, t: nat)
    requires t < |pcs| && Missing(pcs) == 0
    ensures Arrived(pcs[t])
  {
    if t < |pcs| - 1 { NoneMissing(pcs[..|pcs| - 1], t); }
  }

  /// Thread `i` has published the fold of its segment.
  ghost predicate OffsetOk<U, T>(c: Config<U, T>, offsets: seq<Option<T>>, i: nat) {
    && i < |offsets| && i + 1 < |c.bounds|
    && c.bounds[i] <= c.bounds[i + 1] <= |c.input|
    && offsets[i] == Some(Fold(c.m, c.Values()[c.bounds[i]..c.bounds[i + 1]]))
  }

  /// The partial sums of the threads before `t` add up to the fold of all values before its segment.
  lemma {:induction false} PartsFold<U, T(!new)>(c: Config<U, T>, offsets: seq<Option<T>>, t: nat)
    requires c.Valid() && Commutative(c.m) && t <= c.Threads() == |offsets|
    requires forall i :: 0 <= i < t ==> OffsetOk(c, offsets, i)
    ensures c.bounds[t] <= |c.input| && AllWritten(offsets, t)
    ensures Fold(c.m, Parts(offsets, t)) == Fold(c.m, c.Values()[..c.bounds[t]])
  {
    var xs := c.Values();
    if t == 0 {
      assert Parts(offsets, 0) == [] && xs[..0] == [];
    } else {
      PartsFold(c, offsets, t - 1);
      assert OffsetOk(c, offsets, t - 1);
      var ps := Parts(offsets, t);
      assert ps[..|ps| - 1] == Parts(offsets, t - 1);
      assert xs[..c.bounds[t]] == xs[..c.bounds[t - 1]] + xs[c.bounds[t - 1]..c.bounds[t]];
      FoldConcat(c.m, xs[..c.bounds[t - 1]], xs[c.bounds[t - 1]..c.bounds[t]]);
    }
  }

  // ----- control

  lemma ControlOwn<U, T(!new)>(c: Config<U, T>, s: Sys<T>, t: nat, s': Sys<T>)
    requires Control(c, s) && Step(c, s, t, s')
    ensures Shaped(c, s') && s'.latch == Missing(s'.pcs) && ControlOk(c, s', t)
  {
    assert ControlOk(c, s, t);
    assert c.bounds[t] <= c.bounds[t + 1] <= c.bounds[|c.bounds| - 1];
    MissingUpdate(s.pcs, t, s'.pcs[t]);
  }

  lemma ControlOther<U, T(!new)>(c: Config<U, T>, s: Sys<T>, t: nat, s': Sys<T>, k: nat)
    requires Control(c, s) && Step(c, s, t, s') && Shaped(c, s') && k < c.Threads() && k != t
    ensures ControlOk(c, s', k)
  {
    assert ControlOk(c, s, k);
    assert ControlOk(c, s, t);
    assert s'.pcs[k] == s.pcs[k] && s'.offsets[k] == s.offsets[k];
    if s.pcs[t].Arrive? && Passed(s.pcs[k]) { NoneMissing(s.pcs, t); }
  }

  lemma StepKeepsControl<U, T(!new)>(c: Config<U, T>, s: Sys<T>, t: nat, s': Sys<T>)
    requires Control(c, s) && Step(c, s, t, s')
    ensures Control(c, s')
  {
    ControlOwn(c, s, t, s');
    forall k | 0 <= k < c.Threads() ensures ControlOk(c, s', k) { if k != t { ControlOther(c, s, t, s', k); } }
  }

  /// When a thread adds up offsets, all of them have been written.
  lemma OffsetsAreWritten<U, T(!new)>(c: Config<U, T>, s: Sys<T>, t: nat)
    requires Control(c, s) && t < c.Threads() && s.pcs[t].SumOffsets?
    ensures AllWritten(s.offsets, c.Threads())
  {
    assert ControlOk(c, s, t);
    forall i | 0 <= i < c.Threads() ensures s.offsets[i].Some? {
      NoneMissing(s.pcs, i);
      assert ControlOk(c, s, i);
    }
  }

  // ----- values

  lemma OffsetsAreFolds<U, T(!new)>(c: Config<U, T>, s: Sys<T>, t: nat)
    requires Inv(c, s) && t < c.Threads() && s.pcs[t].SumOffsets?
    ensures forall i :: 0 <= i < c.Threads() ==> OffsetOk(c, s.offsets, i)
  {
    assert ControlOk(c, s, t);
    forall i | 0 <= i < c.Threads() ensures OffsetOk(c, s.offsets, i) {
      assert c.bounds[i] <= c.bounds[i + 1] <= c.bounds[|c.bounds| - 1];
      NoneMissing(s.pcs, i);
      assert ThreadOk(c, s, i);
    }
  }

  lemma StepOwn<U, T(!new)>(c: Config<U, T>, s: Sys<T>, t: nat, s': Sys<T>)
    requires Inv(c, s) && Commutative(c.m) && Step(c, s, t, s') && Shaped(c, s')
    ensures ThreadOk(c, s', t)
  {
    var xs, begin, end := c.Values(), c.bounds[t], c.bounds[t + 1];
    assert ThreadOk(c, s, t);
    assert end <= c.bounds[|c.bounds| - 1];
    match s.pcs[t]
    case Reduce => ReductionIsFold(c.m, xs[begin..end], s'.pcs[t].part);
    case SumOffsets => SumStep(c, s, t, s');
    case Fill(j, offset) => FillStep(c, s, t, s');
    case _ =>
  }

  lemma SumStep<U, T(!new)>(c: Config<U, T>, s: Sys<T>, t: nat, s': Sys<T>)
    requires Inv(c, s) && Commutative(c.m) && Step(c, s, t, s') && Shaped(c, s') && s.pcs[t].SumOffsets?
    ensures ThreadOk(c, s', t)
  {
    var begin, end := c.bounds[t], c.bounds[t + 1];
    assert ThreadOk(c, s, t);
    OffsetsAreWritten(c, s, t);
    OffsetsAreFolds(c, s, t);
    var offset :| (AllWritten(s.offsets, t) ==> Reduces(c.m, Parts(s.offsets, t), offset)) &&
                  s' == s.(pcs := s.pcs[t := FillFrom(begin, end, offset)]);
    ReductionIsFold(c.m, Parts(s.offsets, t), offset);
    PartsFold(c, s.offsets, t);
  }

  lemma FillStep<U, T(!new)>(c: Config<U, T>, s: Sys<T>, t: nat, s': Sys<T>)
    requires Inv(c, s) && Commutative(c.m) && Step(c, s, t, s') && Shaped(c, s') && s.pcs[t].Fill?
    ensures ThreadOk(c, s', t)
  {
    var xs, begin, j, offset := c.Values(), c.bounds[t], s.pcs[t].j, s.pcs[t].offset;
    assert ThreadOk(c, s, t);
    var v :| OrderedReduces(c.m, [offset] + xs[begin..j + 1], v) &&
             s' == s.(output := s.output[j := Some(v)], pcs := s.pcs[t := FillFrom(j + 1, c.bounds[t + 1], offset)]);
    FillsFold(c.m, xs, begin, j, offset, v);
    FilledFurther(c, s, begin, j, v, s');
  }

  lemma FilledFurther<U, T>(c: Config<U, T>, s: Sys<T>, begin: nat, j: nat, v: T, s': Sys<T>)
    requires j < |s.output| == |c.input| && Filled(c, s, begin, j) && v == Fold(c.m, c.Values()[..j + 1])
    requires s'.output == s.output[j := Some(v)]
    ensures Filled(c, s', begin, j + 1)
  {
  }

  /// Scanning on from the sum of what came before.
  lemma FillsFold<T(!new)>(m: Monoid<T>, xs: seq<T>, begin: nat, j: nat, offset: T, v: T)
    requires Commutative(m) && begin <= j < |xs| && offset == Fold(m, xs[..begin])
    requires OrderedReduces(m, [offset] + xs[begin..j + 1], v)
    ensures v == Fold(m, xs[..j + 1])
  {
    var seg := xs[begin..j + 1];
    OrderedReductionIsFold(m, [offset] + seg, v);
    FoldConcat(m, [offset], seg);
    FoldOne(m, offset);
    assert xs[..j + 1] == xs[..begin] + seg;
    FoldConcat(m, xs[..begin], seg);
  }

  lemma StepOther<U, T(!new)>(c: Config<U, T>, s: Sys<T>, t: nat, s': Sys<T>, k: nat)
    requires Inv(c, s) && Step(c, s, t, s') && Shaped(c, s') && k < c.Threads() && k != t
    ensures ThreadOk(c, s', k)
  {
    assert ThreadOk(c, s, k);
    assert ControlOk(c, s, k);
    assert ControlOk(c, s, t);
    assert if k < t then c.bounds[k + 1] <= c.bounds[t] else c.bounds[t + 1] <= c.bounds[k];
    assert s'.pcs[k] == s.pcs[k] && s'.offsets[k] == s.offsets[k];
  }

  lemma StepKeepsInv<U, T(!new)>(c: Config<U, T>, s: Sys<T>, t: nat, s': Sys<T>)
    requires Inv(c, s) && Commutative(c.m) && Step(c, s, t, s')
    ensures Inv(c, s')
  {
    StepKeepsControl(c, s, t, s');
    StepOwn(c, s, t, s');
    forall k | 0 <= k < c.Threads() ensures ThreadOk(c, s', k) { if k != t { StepOther(c, s, t, s', k); } }
  }

  // ----- every run

  ghost predicate IsRun<U, T(!new)>(c: Config<U, T>, states: seq<Sys<T>>, threads: seq<nat>) {
    && c.Valid()
    && |states| == |threads| + 1 && states[0] == Init(c)
    && forall k :: 0 <= k < |threads| ==> Shaped(c, states[k]) && Step(c, states[k], threads[k], states[k + 1])
  }

  lemma {:induction false} MissingAll<T>(pcs: seq<Pc<T>>)
    requires forall t :: 0 <= t < |pcs| ==> pcs[t].Reduce?
    ensures Missing(pcs) == |pcs|
  {
    if |pcs| > 0 { MissingAll(pcs[..|pcs| - 1]); }
  }

  lemma InitControl<U, T(!new)>(c: Config<U, T>)
    requires c.Valid()
    ensures Control(c, Init(c))
  {
    MissingAll(Init(c).pcs);
  }

  /// Control is in order in every state of every run, whatever the operation.
  lemma {:induction false} ControlAlways<U, T(!new)>(c: Config<U, T>, states: seq<Sys<T>>, threads: seq<nat>, k: nat)
    requires IsRun(c, states, threads) && k < |states|
    ensures Control(c, states[k])
  {
    if k == 0 {
      InitControl(c);
    } else {
      ControlAlways(c, states, threads, k - 1);
      StepKeepsControl(c, states[k - 1], threads[k - 1], states[k]);
    }
  }

  /// So are the values, if the operation is a commutative monoid.
  lemma {:induction false} InvAlways<U, T(!new)>(c: Config<U, T>, states: seq<Sys<T>>, threads: seq<nat>, k: nat)
    requires IsRun(c, states, threads) && Commutative(c.m) && k < |states|
    ensures Inv(c, states[k])
  {
    if k == 0 {
      InitControl(c);
    } else {
      InvAlways(c, states, threads, k - 1);
      StepKeepsInv(c, states[k - 1], threads[k - 1], states[k]);
    }
  }

  /// No thread ever reads a partial sum that has not been written.
  lemma ReadsOnlyWritten<U, T(!new)>(c: Config<U, T>, states: seq<Sys<T>>, threads: seq<nat>, k: nat)
    requires IsRun(c, states, threads) && k < |threads|
    requires Shaped(c, states[k]) && threads[k] < c.Threads() && states[k].pcs[threads[k]].SumOffsets?
    ensures AllWritten(states[k].offsets, threads[k])
  {
    ControlAlways(c, states, threads, k);
    OffsetsAreWritten(c, states[k], threads[k]);
  }

  // ----- termination

  function Rank<T>(p: Pc<T>, begin: nat, end: nat): nat {
    var n := if begin <= end then end - begin else 0;
    match p
    case Reduce => n + 6
    case Publish(_) => n + 5
    case Arrive => n + 4
    case Await => n + 3
    case SumOffsets => n + 2
    case Fill(j, _) => if j <= end then end - j + 1 else 0
    case Done => 0
  }

  function Ranks<U, T>(c: Config<U, T>, pcs: seq<Pc<T>>): nat
    requires |pcs| < |c.bounds|
  {
    var n := |pcs| - 1;
    if |pcs| == 0 then 0 else Ranks(c, pcs[..n]) + Rank(pcs[n], c.bounds[n], c.bounds[n + 1])
  }

  lemma {:induction false} RanksUpdate<U, T>(c: Config<U, T>, pcs: seq<Pc<T>>, t: nat, p: Pc<T>)
    requires t < |pcs| < |c.bounds|
    ensures Ranks(c, pcs[t := p]) ==
            Ranks(c, pcs) - Rank(pcs[t], c.bounds[t], c.bounds[t + 1]) + Rank(p, c.bounds[t], c.bounds[t + 1])
  {
    var n := |pcs| - 1;
    if t < n {
      RanksUpdate(c, pcs[..n], t, p);
      assert pcs[t := p][..n] == pcs[..n][t := p];
    } else {
      assert pcs[t := p][..n] == pcs[..n];
    }
  }

  lemma StepDecreases<U, T(!new)>(c: Config<U, T>, s: Sys<T>, t: nat, s': Sys<T>)
    requires Shaped(c, s) && Step(c, s, t, s')
    ensures Shaped(c, s') && Ranks(c, s'.pcs) < Ranks(c, s.pcs)
  {
    RanksUpdate(c, s.pcs, t, s'.pcs[t]);
  }

  /// A run takes no more steps than the initial rank.
  lemma {:induction false} RunsAreBounded<U, T(!new)>(c: Config<U, T>, states: seq<Sys<T>>, threads: seq<nat>, k: nat)
    requires IsRun(c, states, threads) && k < |states|
    ensures Shaped(c, states[k]) && k + Ranks(c, states[k].pcs) <= Ranks(c, Init(c).pcs)
  {
    if k > 0 {
      RunsAreBounded(c, states, threads, k - 1);
      StepDecreases(c, states[k - 1], threads[k - 1], states[k]);
    }
  }

  /// A thread that is not done can take a step, except to wait for one that has not arrived at the latch.
  lemma CanStep<U, T(!new)>(c: Config<U, T>, s: Sys<T>, t: nat)
    requires Control(c, s) && t < c.Threads() && !s.pcs[t].Done? && (s.pcs[t].Await? ==> s.latch == 0)
    ensures exists s' :: Step(c, s, t, s')
  {
    var s';
    match s.pcs[t] {
      case Reduce => s' := CanReduce(c, s, t);
      case Publish(part) => s' := s.(offsets := s.offsets[t := Some(part)], pcs := s.pcs[t := Arrive]);
      case Arrive => s' := CanArrive(c, s, t);
      case Await => s' := s.(pcs := s.pcs[t := SumOffsets]);
      case SumOffsets => s' := CanSum(c, s, t);
      case Fill(_, _) => s' := CanFill(c, s, t);
    }
    assert Step(c, s, t, s');
  }

  lemma CanReduce<U, T(!new)>(c: Config<U, T>, s: Sys<T>, t: nat) returns (s': Sys<T>)
    requires Shaped(c, s) && t < c.Threads() && s.pcs[t].Reduce?
    ensures Step(c, s, t, s')
  {
    assert c.bounds[t] <= c.bounds[t + 1] <= c.bounds[|c.bounds| - 1];
    var part := SomeReduction(c.m, c.Values()[c.bounds[t]..c.bounds[t + 1]]);
    s' := s.(pcs := s.pcs[t := Publish(part)]);
  }

  lemma CanArrive<U, T(!new)>(c: Config<U, T>, s: Sys<T>, t: nat) returns (s': Sys<T>)
    requires Control(c, s) && t < c.Threads() && s.pcs[t].Arrive?
    ensures Step(c, s, t, s')
  {
    MissingUpdate(s.pcs, t, Await);
    s' := s.(latch := s.latch - 1, pcs := s.pcs[t := Await]);
  }

  lemma CanSum<U, T(!new)>(c: Config<U, T>, s: Sys<T>, t: nat) returns (s': Sys<T>)
    requires Control(c, s) && t < c.Threads() && s.pcs[t].SumOffsets?
    ensures Step(c, s, t, s')
  {
    OffsetsAreWritten(c, s, t);
    var offset := SomeReduction(c.m, Parts(s.offsets, t));
    s' := s.(pcs := s.pcs[t := FillFrom(c.bounds[t], c.bounds[t + 1], offset)]);
  }

  lemma CanFill<U, T(!new)>(c: Config<U, T>, s: Sys<T>, t: nat) returns (s': Sys<T>)
    requires Control(c, s) && t < c.Threads() && s.pcs[t].Fill?
    ensures Step(c, s, t, s')
  {
    var Fill(j, offset) := s.pcs[t];
    assert ControlOk(c, s, t);
    assert c.bounds[t + 1] <= c.bounds[|c.bounds| - 1];
    var tree := LeftTree(c.m, [offset] + c.Values()[c.bounds[t]..j + 1]);
    var v := Eval(c.m, tree);
    s' := s.(output := s.output[j := Some(v)], pcs := s.pcs[t := FillFrom(j + 1, c.bounds[t + 1], offset)]);
  }

  lemma SomeReduction<T(!new)>(m: Monoid<T>, xs: seq<T>) returns (r: T)
    ensures Reduces(m, xs, r)
  {
    var tree := LeftTree(m, [m.neutral] + xs);
    r := Eval(m, tree);
  }

  /// While a thread waits at the latch for others, one of those others can take a step.
  lemma {:induction false} SomeoneMissing<T>(pcs: seq<Pc<T>>) returns (t: nat)
    requires Missing(pcs) > 0
    ensures t < |pcs| && !Arrived(pcs[t])
  {
    var n := |pcs| - 1;
    if !Arrived(pcs[n]) { t := n; } else { t := SomeoneMissing(pcs[..n]); }
  }

  lemma SomeoneCanStep<U, T(!new)>(c: Config<U, T>, s: Sys<T>)
    requires Control(c, s) && exists t :: 0 <= t < c.Threads() && !s.pcs[t].Done?
    ensures exists t: nat, s' :: Step(c, s, t, s')
  {
    var t :| 0 <= t < c.Threads() && !s.pcs[t].Done?;
    if s.latch > 0 { t := SomeoneMissing(s.pcs); }
    CanStep(c, s, t);
  }

  /// In every reachable state in which some thread is not done, some thread can take a step.
  lemma NoDeadlock<U, T(!new)>(c: Config<U, T>, states: seq<Sys<T>>, threads: seq<nat>, k: nat)
    requires IsRun(c, states, threads) && k < |states| && Shaped(c, states[k])
    requires exists t :: 0 <= t < c.Threads() && !states[k].pcs[t].Done?
    ensures exists t: nat, s' :: Step(c, states[k], t, s')
  {
    ControlAlways(c, states, threads, k);
    SomeoneCanStep(c, states[k]);
  }

  /// A run that cannot go on has finished all threads and written every output, whatever the operation.
  lemma EndsDone<U, T(!new)>(c: Config<U, T>, states: seq<Sys<T>>, threads: seq<nat>)
    requires IsRun(c, states, threads)
    requires Shaped(c, states[|threads|]) && !exists t: nat, s' :: Step(c, states[|threads|], t, s')
    ensures forall t :: 0 <= t < c.Threads() ==> states[|threads|].pcs[t].Done?
    ensures forall j :: 0 <= j < |c.input| ==> states[|threads|].output[j].Some?
  {
    var s := states[|threads|];
    ControlAlways(c, states, threads, |threads|);
    if exists t :: 0 <= t < c.Threads() && !s.pcs[t].Done? { SomeoneCanStep(c, s); }
    forall j | 0 <= j < |c.input| ensures s.output[j].Some? {
      var t := SegmentOf(c, j, c.Threads());
      assert ControlOk(c, s, t);
    }
  }

  /// `std::transform_inclusive_scan` without a thread: the running combination of the values.
  function SequentialScan<T>(m: Monoid<T>, xs: seq<T>): (r: seq<T>)
    ensures |r| == |xs|
  {
    var n := |xs| - 1;
    if |xs| == 0 then []
    else if |xs| == 1 then xs
    else
      var r := SequentialScan(m, xs[..n]);
      r + [m.op(r[n - 1], xs[n])]
  }

  lemma {:induction false} ScanIsFold<T(!new)>(m: Monoid<T>, xs: seq<T>, j: nat)
    requires Commutative(m) && j < |xs|
    ensures SequentialScan(m, xs)[j] == Fold(m, xs[..j + 1])
    decreases |xs|
  {
    var n := |xs| - 1;
    if |xs| == 1 {
      assert xs[..1] == [xs[0]];
      FoldOne(m, xs[0]);
    } else if j < n {
      ScanIsFold(m, xs[..n], j);
      assert xs[..n][..j + 1] == xs[..j + 1];
    } else {
      ScanIsFold(m, xs[..n], n - 1);
      assert xs[..n][..n] == xs[..n] && xs[..n + 1] == xs;
    }
  }

  /// A run that cannot go on has written the sequential inclusive scan, whatever the interleaving, the number of
  /// threads, the segmentation and the order of every reduction.
  lemma EndOfRun<U, T(!new)>(c: Config<U, T>, states: seq<Sys<T>>, threads: seq<nat>)
    requires IsRun(c, states, threads) && Commutative(c.m)
    requires Shaped(c, states[|threads|]) && !exists t: nat, s' :: Step(c, states[|threads|], t, s')
    ensures |states[|threads|].output| == |c.input|
    ensures forall j :: 0 <= j < |c.input| ==> states[|threads|].output[j] == Some(SequentialScan(c.m, c.Values())[j])
  {
    var s := states[|threads|];
    InvAlways(c, states, threads, |threads|);
    EndsDone(c, states, threads);
    forall j | 0 <= j < |c.input| ensures s.output[j] == Some(SequentialScan(c.m, c.Values())[j]) {
      var t := SegmentOf(c, j, c.Threads());
      assert ThreadOk(c, s, t);
      ScanIsFold(c.m, c.Values(), j);
    }
  }

  lemma {:induction false} SegmentOf<U, T>(c: Config<U, T>, j: nat, n: nat) returns (t: nat)
    requires c.Valid() && n <= c.Threads() && j < c.bounds[n]
    ensures t < n && c.bounds[t] <= j < c.bounds[t + 1]
  {
    if c.bounds[n - 1] <= j { t := n - 1; } else { t := SegmentOf(c, j, n - 1); }
  }

  /// The segmentation of the linear execution policy is one of them.
  lemma UniformBounds(u: UniformSegmenter) returns (bounds: seq<nat>)
    requires u.Valid()
    ensures |bounds| == u.num + 1 && bounds[0] == 0 && bounds[u.num] == u.size
    ensures forall t :: 0 <= t <= u.num ==> bounds[t] == u.Start(t)
    ensures forall s, t :: 0 <= s <= t < |bounds| ==> bounds[s] <= bounds[t]
  {
    bounds := seq(u.num + 1, t requires 0 <= t <= u.num => u.Start(t));
    u.Ends();
    forall s: nat, t: nat | s <= t < |bounds| ensures bounds[s] <= bounds[t] { u.StartMonotone(s, t); }
  }
}
