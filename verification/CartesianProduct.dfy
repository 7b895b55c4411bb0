/**
 The iterator of `CartesianProductView` (include/thesauros/ranges/cartesian-product.hpp): single steps that carry and
 borrow, and jumps that divide with C++'s truncating operators. The state is the offset of each base iterator.
 */
module CartesianProduct {
  import opened Arith
  import opened MixedRadix

  /// C++ `/` and `%`: the quotient is rounded towards zero.
  function TruncDiv(a: int, b: nat): int
    requires b > 0
  {
    if a >= 0 then a / b else -((-a) / b)
  }

  function TruncMod(a: int, b: nat): int
    requires b > 0
  {
    a - TruncDiv(a, b) * b
  }

  /// `scaled_size<k>`
  function ScaledSize(sizes: seq<nat>, k: nat): nat
    decreases |sizes| - k
  {
    if k < |sizes| then sizes[k] * ScaledSize(sizes, k + 1) else 1
  }

  function ScaledDistance(sizes: seq<nat>, from: seq<int>, to: seq<int>, k: nat): int
    requires k < |from| == |to|
  {
    (from[k] - to[k]) * ScaledSize(sizes, k + 1)
  }

  /// `distance_from`: the scaled distances, folded from the right.
  function DistanceFrom(sizes: seq<nat>, from: seq<int>, to: seq<int>, k: nat): int
    requires k < |from| == |to|
    decreases |from| - k
  {
    if k == |from| - 1 then ScaledDistance(sizes, from, to, k)
    else ScaledDistance(sizes, from, to, k) + DistanceFrom(sizes, from, to, k + 1)
  }

  lemma {:induction false} ScaledSizeIsProduct(sizes: seq<nat>, k: nat)
    ensures ScaledSize(sizes, k) == ProductFrom(sizes, k)
    decreases |sizes| - k
  {
    if k < |sizes| { ScaledSizeIsProduct(sizes, k + 1); }
  }

  lemma {:induction false} DistanceTail(sizes: seq<nat>, from: seq<int>, to: seq<int>, k: nat)
    requires k < |from| == |to| == |sizes|
    ensures DistanceFrom(sizes, from, to, k) ==
            Flat(from, sizes, |from|) - Flat(to, sizes, |to|)
            - (Flat(from, sizes, k) - Flat(to, sizes, k)) * ProductFrom(sizes, k)
    decreases |from| - k
  {
    var n := |from|;
    ScaledSizeIsProduct(sizes, k + 1);
    var a, b, q := Flat(from, sizes, k), Flat(to, sizes, k), ProductFrom(sizes, k + 1);
    Regroup(a, b, sizes[k], from[k], to[k], q);
    if k < n - 1 { DistanceTail(sizes, from, to, k + 1); }
  }

  lemma Regroup(a: int, b: int, s: int, x: int, y: int, q: int)
    ensures (x - y) * q == (a * s + x - (b * s + y)) * q - (a - b) * (s * q)
  {
    Reassociate(a - b, s, q);
    assert (a * s + x - (b * s + y)) * q == ((a - b) * s + (x - y)) * q;
  }

  /// The distance of two positions is the difference of their indices.
  lemma DistanceIsDifference(sizes: seq<nat>, from: seq<int>, to: seq<int>)
    requires 1 <= |from| == |to| == |sizes|
    ensures DistanceFrom(sizes, from, to, 0) == Flat(from, sizes, |from|) - Flat(to, sizes, |to|)
  {
    DistanceTail(sizes, from, to, 0);
    assert Flat(from, sizes, 0) == 0 && Flat(to, sizes, 0) == 0;
  }

  lemma FloorStep(a: int, b: nat)
    requires b > 0
    ensures var m, q := TruncMod(a, b), TruncDiv(a, b);
            if m < 0 then 0 <= b + m < b && a == (q - 1) * b + (b + m) else m < b && a == q * b + m
  {
    if a >= 0 { DivModOf(a, b); } else { DivModOf(-a, b); }
    assert (TruncDiv(a, b) - 1) * b == TruncDiv(a, b) * b - b;
  }

  /// Replacing coordinate `n` by a new digit while the ones before advance by `carry`.
  lemma FlatReplace(before: seq<int>, after: seq<int>, sizes: seq<nat>, n: nat, carry: int)
    requires n < |before| == |after| == |sizes|
    requires Flat(after, sizes, n) == Flat(before, sizes, n) + carry
    ensures Flat(after, sizes, n + 1) == Flat(before, sizes, n + 1) + carry * sizes[n] + after[n] - before[n]
  {
    assert (Flat(before, sizes, n) + carry) * sizes[n] == Flat(before, sizes, n) * sizes[n] + carry * sizes[n];
  }

  class Iterator {
    const sizes: seq<nat>
    var current: seq<int>

    /// All offsets but the first lie in their range; the ranges after the first are not empty.
    ghost predicate Valid()
      reads this
    {
      1 <= |sizes| == |current| && Positive(sizes) && Normal(current, sizes, |sizes|)
    }

    ghost function Index(): int
      requires Valid()
      reads this
    {
      Flat(current, sizes, |sizes|)
    }

    constructor (sizes: seq<nat>)
      requires |sizes| >= 1 && Positive(sizes)
      ensures Valid() && this.sizes == sizes && Index() == 0
    {
      this.sizes := sizes;
      this.current := seq(|sizes|, _ => 0);
      new;
      FlatZero(current, sizes, |sizes|);
    }

    lemma {:induction false} FlatZero(pos: seq<int>, sizes: seq<nat>, n: nat)
      requires n <= |pos| == |sizes| && forall k :: 0 <= k < |pos| ==> pos[k] == 0
      ensures Flat(pos, sizes, n) == 0
    {
      if n > 0 { FlatZero(pos, sizes, n - 1); }
    }

    /// What the steps on the first `n + 1` ranges leave alone.
    twostate predicate KeepsAfter(n: nat)
      reads this
    {
      |current| == |old(current)| && forall j :: n < j < |current| ==> current[j] == old(current)[j]
    }

    /// `next<n>`
    method Next(n: nat)
      requires n < |sizes| == |current| && Positive(sizes) && Normal(current, sizes, n + 1)
      modifies this
      ensures |sizes| == |current| && Normal(current, sizes, n + 1) && KeepsAfter(n)
      ensures Flat(current, sizes, n + 1) == old(Flat(current, sizes, n + 1)) + 1
      decreases n
    {
      ghost var before := current;
      current := current[n := current[n] + 1];
      assert current[..n] == before[..n];
      FlatPrefix(current, before, sizes, n);
      if n > 0 && current[n] == sizes[n] {
        current := current[n := 0];
        assert current[..n] == before[..n];
        FlatPrefix(current, before, sizes, n);
        Next(n - 1);
        FlatReplace(before, current, sizes, n, 1);
      } else {
        FlatReplace(before, current, sizes, n, 0);
      }
    }

    /// `prev<n>`
    method Prev(n: nat)
      requires n < |sizes| == |current| && Positive(sizes) && Normal(current, sizes, n + 1)
      modifies this
      ensures |sizes| == |current| && Normal(current, sizes, n + 1) && KeepsAfter(n)
      ensures Flat(current, sizes, n + 1) == old(Flat(current, sizes, n + 1)) - 1
      decreases n
    {
      ghost var before := current;
      ghost var carry := 0;
      if n > 0 && current[n] == 0 {
        current := current[n := sizes[n]];
        assert current[..n] == before[..n];
        FlatPrefix(current, before, sizes, n);
        Prev(n - 1);
        carry := -1;
      }
      ghost var mid := current;
      current := current[n := current[n] - 1];
      assert current[..n] == mid[..n];
      FlatPrefix(current, mid, sizes, n);
      FlatReplace(before, current, sizes, n, carry);
    }

    /// `advance<n>`
    method AdvanceFrom(n: nat, delta: int)
      requires n < |sizes| == |current| && Positive(sizes) && Normal(current, sizes, n + 1)
      modifies this
      ensures |sizes| == |current| && Normal(current, sizes, n + 1) && KeepsAfter(n)
      ensures Flat(current, sizes, n + 1) == old(Flat(current, sizes, n + 1)) + delta
      decreases n
    {
      if delta == 1 {
        Next(n);
      } else if delta == -1 {
        Prev(n);
      } else if delta != 0 {
        ghost var before := current;
        if n == 0 {
          current := current[0 := current[0] + delta];
          assert Flat(current, sizes, 0) == Flat(before, sizes, 0) == 0;
        } else {
          var size := sizes[n];
          var offset := current[n] + delta;
          var digit := TruncMod(offset, size);
          var rest := TruncDiv(offset, size);
          FloorStep(offset, size);
          if digit < 0 {
            digit := size + digit;
            rest := rest - 1;
          }
          current := current[n := digit];
          assert current[..n] == before[..n];
          FlatPrefix(current, before, sizes, n);
          AdvanceFrom(n - 1, rest);
          FlatReplace(before, current, sizes, n, rest);
        }
      }
    }

    /// `operator+=` reaches the position of the index `delta` further on, whichever sign `delta` has, and the
    /// distance between the two positions is `delta` again.
    method Advance(delta: int)
      requires Valid()
      modifies this
      ensures Valid() && Index() == old(Index()) + delta
      ensures current == IndexToPosition(old(Index()) + delta, sizes, |sizes|)
      ensures DistanceFrom(sizes, current, old(current), 0) == delta
    {
      ghost var before := current;
      AdvanceFrom(|sizes| - 1, delta);
      IsCanonical();
      DistanceIsDifference(sizes, current, before);
    }

    method Increment()
      requires Valid()
      modifies this
      ensures Valid() && Index() == old(Index()) + 1 && current == IndexToPosition(old(Index()) + 1, sizes, |sizes|)
    {
      Next(|sizes| - 1);
      IsCanonical();
    }

    method Decrement()
      requires Valid()
      modifies this
      ensures Valid() && Index() == old(Index()) - 1 && current == IndexToPosition(old(Index()) - 1, sizes, |sizes|)
    {
      Prev(|sizes| - 1);
      IsCanonical();
    }

    lemma IsCanonical()
      requires Valid()
      ensures current == IndexToPosition(Index(), sizes, |sizes|)
    {
      PositionOfFlat(current, sizes, |sizes|);
      assert current[..|sizes|] == current;
    }
  }

  /// The position `delta` single steps away.
  ghost function After(sizes: seq<nat>, pos: seq<int>, delta: int): seq<int>
    requires 1 <= |pos| == |sizes| && Positive(sizes)
  {
    IndexToPosition(Flat(pos, sizes, |sizes|) + delta, sizes, |sizes|)
  }

  /// Repeating the single step in one direction.
  ghost function Repeated(sizes: seq<nat>, pos: seq<int>, step: int, times: nat): seq<int>
    requires 1 <= |pos| == |sizes| && Positive(sizes)
    ensures |Repeated(sizes, pos, step, times)| == |pos|
  {
    if times == 0 then pos else
    var p := Repeated(sizes, pos, step, times - 1);
    PositionShape(Flat(p, sizes, |sizes|) + step, sizes, |sizes|);
    After(sizes, p, step)
  }

  /// So a jump is as many single steps.
  lemma {:induction false} JumpIsSteps(sizes: seq<nat>, pos: seq<int>, step: int, times: nat)
    requires 1 <= |pos| == |sizes| && Positive(sizes) && Normal(pos, sizes, |pos|)
    ensures Repeated(sizes, pos, step, times) == After(sizes, pos, step * times)
  {
    var n, f := |sizes|, Flat(pos, sizes, |sizes|);
    if times == 0 {
      PositionOfFlat(pos, sizes, n);
      assert pos[..n] == pos;
      assert step * times == 0;
    } else {
      JumpIsSteps(sizes, pos, step, times - 1);
      FlatOfPosition(f + step * (times - 1), sizes, n);
      assert step * (times - 1) + step == step * times;
    }
  }

  /// Between valid positions, the end included, a jump stays among them.
  lemma StaysValid(sizes: seq<nat>, pos: seq<int>, delta: int)
    requires 1 <= |pos| == |sizes| && Positive(sizes) && Normal(pos, sizes, |pos|)
    requires 0 <= Flat(pos, sizes, |pos|) + delta < Total(sizes)
    ensures InBox(After(sizes, pos, delta), sizes)
  {
    IndexRoundTrip(Flat(pos, sizes, |pos|) + delta, sizes);
  }

  lemma EndPosition(sizes: seq<nat>, pos: seq<int>, delta: int, end: seq<int>)
    requires 1 <= |pos| == |sizes| && Positive(sizes) && Normal(pos, sizes, |pos|)
    requires Flat(pos, sizes, |pos|) + delta == Total(sizes)
    requires |end| == |sizes| && end[0] == sizes[0] && forall k :: 1 <= k < |end| ==> end[k] == 0
    ensures After(sizes, pos, delta) == end
  {
    EndIndex(end, sizes, |sizes|);
    ProductSplit(sizes, 0, |sizes|);
    assert ProductFrom(sizes, |sizes|) == 1;
    PositionOfFlat(end, sizes, |sizes|);
    assert end[..|sizes|] == end;
  }

  lemma {:induction false} EndIndex(pos: seq<int>, sizes: seq<nat>, n: nat)
    requires 1 <= n <= |pos| == |sizes| && pos[0] == sizes[0] && forall k :: 1 <= k < |pos| ==> pos[k] == 0
    ensures Flat(pos, sizes, n) == ProductBetween(sizes, 0, n)
  {
    if n == 1 {
      assert Flat(pos, sizes, 0) == 0 && ProductBetween(sizes, 0, 0) == 1;
    } else {
      EndIndex(pos, sizes, n - 1);
    }
  }
}
