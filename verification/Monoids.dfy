/** Folding a sequence with a commutative monoid, in any order and any grouping. */
module Monoids {
  datatype Monoid<!T> = Monoid(op: (T, T) -> T, neutral: T)

  predicate AssociativeAt<T(==)>(m: Monoid<T>, x: T, y: T, z: T) { m.op(m.op(x, y), z) == m.op(x, m.op(y, z)) }

  predicate CommutativeAt<T(==)>(m: Monoid<T>, x: T, y: T) { m.op(x, y) == m.op(y, x) }

  predicate UnitAt<T(==)>(m: Monoid<T>, x: T) { m.op(m.neutral, x) == x == m.op(x, m.neutral) }

  ghost predicate Commutative<T(!new)>(m: Monoid<T>) {
    && (forall x, y, z :: AssociativeAt(m, x, y, z))
    && (forall x, y :: CommutativeAt(m, x, y))
    && (forall x :: UnitAt(m, x))
  }

  function Fold<T>(m: Monoid<T>, xs: seq<T>): T {
    if |xs| == 0 then m.neutral else m.op(Fold(m, xs[..|xs| - 1]), xs[|xs| - 1])
  }

  /// A grouping of operands.
  datatype Tree<T> = Leaf(value: T) | Node(left: Tree<T>, right: Tree<T>)

  function Leaves<T>(t: Tree<T>): seq<T> {
    match t
    case Leaf(v) => [v]
    case Node(l, r) => Leaves(l) + Leaves(r)
  }

  function Eval<T>(m: Monoid<T>, t: Tree<T>): T {
    match t
    case Leaf(v) => v
    case Node(l, r) => m.op(Eval(m, l), Eval(m, r))
  }

  /// What `std::reduce` and `std::transform_reduce` may yield: the operands in any order and grouping.
  ghost predicate Reduces<T(!new)>(m: Monoid<T>, xs: seq<T>, r: T) {
    exists t: Tree<T> :: multiset(Leaves(t)) == multiset([m.neutral] + xs) && Eval(m, t) == r
  }

  /// What one element of `std::transform_inclusive_scan` may be: the operands in order, in any grouping.
  ghost predicate OrderedReduces<T(!new)>(m: Monoid<T>, xs: seq<T>, r: T) {
    exists t: Tree<T> :: Leaves(t) == xs && Eval(m, t) == r
  }

  lemma {:induction false} FoldConcat<T(!new)>(m: Monoid<T>, a: seq<T>, b: seq<T>)
    requires Commutative(m)
    ensures Fold(m, a + b) == m.op(Fold(m, a), Fold(m, b))
  {
    if |b| == 0 {
      assert a + b == a;
      assert UnitAt(m, Fold(m, a));
    } else {
      FoldConcat(m, a, b[..|b| - 1]);
      assert (a + b)[..|a + b| - 1] == a + b[..|b| - 1];
      assert AssociativeAt(m, Fold(m, a), Fold(m, b[..|b| - 1]), b[|b| - 1]);
    }
  }

  lemma FoldOne<T(!new)>(m: Monoid<T>, x: T)
    requires Commutative(m)
    ensures Fold(m, [x]) == x
  {
    assert [x][..0] == [];
    assert Fold(m, []) == m.neutral;
    assert UnitAt(m, x);
  }

  /// Taking out one element.
  lemma FoldRemove<T(!new)>(m: Monoid<T>, xs: seq<T>, i: nat)
    requires Commutative(m) && i < |xs|
    ensures Fold(m, xs) == m.op(Fold(m, xs[..i] + xs[i + 1..]), xs[i])
  {
    var a, b, x := xs[..i], xs[i + 1..], xs[i];
    assert xs == a + [x] + b;
    FoldConcat(m, a + [x], b);
    FoldConcat(m, a, [x]);
    FoldConcat(m, a, b);
    FoldOne(m, x);
    assert AssociativeAt(m, Fold(m, a), x, Fold(m, b));
    assert CommutativeAt(m, x, Fold(m, b));
    assert AssociativeAt(m, Fold(m, a), Fold(m, b), x);
  }

  lemma {:induction false} FoldPermuted<T(!new)>(m: Monoid<T>, a: seq<T>, b: seq<T>)
    requires Commutative(m) && multiset(a) == multiset(b)
    ensures Fold(m, a) == Fold(m, b)
    decreases |a|
  {
    if |a| == 0 {
      assert |b| == 0 by { assert |multiset(a)| == |a| && |multiset(b)| == |b|; }
    } else {
      var x := a[|a| - 1];
      assert x in multiset(a);
      assert x in multiset(b);
      var i :| 0 <= i < |b| && b[i] == x;
      assert a == a[..|a| - 1] + [x];
      assert b == b[..i] + [x] + b[i + 1..];
      assert multiset(a[..|a| - 1]) == multiset(a) - multiset{x};
      assert multiset(b) == multiset(b[..i]) + multiset{x} + multiset(b[i + 1..]);
      assert multiset(b[..i] + b[i + 1..]) == multiset(b) - multiset{x};
      FoldPermuted(m, a[..|a| - 1], b[..i] + b[i + 1..]);
      FoldRemove(m, b, i);
    }
  }

  lemma {:induction false} EvalIsFold<T(!new)>(m: Monoid<T>, t: Tree<T>)
    requires Commutative(m)
    ensures Eval(m, t) == Fold(m, Leaves(t))
  {
    match t
    case Leaf(v) => FoldOne(m, v);
    case Node(l, r) =>
      EvalIsFold(m, l);
      EvalIsFold(m, r);
      FoldConcat(m, Leaves(l), Leaves(r));
  }

  /// So every reduction yields the fold.
  lemma ReductionIsFold<T(!new)>(m: Monoid<T>, xs: seq<T>, r: T)
    requires Commutative(m) && Reduces(m, xs, r)
    ensures r == Fold(m, xs)
  {
    var t: Tree<T> :| multiset(Leaves(t)) == multiset([m.neutral] + xs) && Eval(m, t) == r;
    EvalIsFold(m, t);
    FoldPermuted(m, Leaves(t), [m.neutral] + xs);
    FoldConcat(m, [m.neutral], xs);
    FoldOne(m, m.neutral);
    assert UnitAt(m, Fold(m, xs));
  }

  lemma OrderedReductionIsFold<T(!new)>(m: Monoid<T>, xs: seq<T>, r: T)
    requires Commutative(m) && OrderedReduces(m, xs, r)
    ensures r == Fold(m, xs)
  {
    var t: Tree<T> :| Leaves(t) == xs && Eval(m, t) == r;
    EvalIsFold(m, t);
  }

  /// There is always a result to yield.
  lemma {:induction false} LeftTree<T(!new)>(m: Monoid<T>, xs: seq<T>) returns (t: Tree<T>)
    requires |xs| > 0
    ensures Leaves(t) == xs && OrderedReduces(m, xs, Eval(m, t))
  {
    if |xs| == 1 {
      t := Leaf(xs[0]);
    } else {
      var l := LeftTree(m, xs[..|xs| - 1]);
      t := Node(l, Leaf(xs[|xs| - 1]));
    }
    assert Leaves(t) == xs && Eval(m, t) == Eval(m, t);
  }
}
