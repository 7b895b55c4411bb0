/**
 Flat indices and positions in a box: `postfix_product_inclusive`, `position_to_index`, `index_to_position` and the
 conversions of `MultiSize` built on them (include/thesauros/algorithms/static-ranges,
 include/thesauros/utility/multi-size.hpp).
 Coordinate 0 is the most significant one and is never reduced.
 */
module MixedRadix {
  import opened Arith
  import Divisor

  /// The product of the sizes from dimension `k` on.
  function ProductFrom(sizes: seq<nat>, k: nat): nat
    decreases |sizes| - k
  {
    if k >= |sizes| then 1 else sizes[k] * ProductFrom(sizes, k + 1)
  }

  function PostfixProducts(sizes: seq<nat>): (r: seq<nat>)
    ensures |r| == |sizes| + 1
    ensures forall k :: 0 <= k <= |sizes| ==> r[k] == ProductFrom(sizes, k)
  {
    seq(|sizes| + 1, k requires 0 <= k <= |sizes| => ProductFrom(sizes, k))
  }

  /// The dot product of the first `n` coordinates with the products shifted by one.
  function PositionToIndex(pos: seq<int>, prods: seq<nat>, n: nat): int
    requires n <= |pos| && n < |prods|
  {
    if n == 0 then 0 else PositionToIndex(pos, prods, n - 1) + pos[n - 1] * prods[n]
  }

  /// Splits off the coordinates of the first `n` dimensions, from the last one.
  function IndexToPosition(index: int, sizes: seq<nat>, n: nat): seq<int>
    requires 1 <= n <= |sizes| && Positive(sizes)
    decreases n
  {
    if n == 1 then [index]
    else IndexToPosition(index / sizes[n - 1], sizes, n - 1) + [index % sizes[n - 1]]
  }

  /// Every dimension but the first is divided by.
  ghost predicate Positive(sizes: seq<nat>) { forall k :: 1 <= k < |sizes| ==> sizes[k] > 0 }

  /// The index of a position by Horner's rule. The coordinates may be any integers.
  function Flat(pos: seq<int>, sizes: seq<nat>, n: nat): int
    requires n <= |pos| && n <= |sizes|
  {
    if n == 0 then 0 else Flat(pos, sizes, n - 1) * sizes[n - 1] + pos[n - 1]
  }

  /// All coordinates but the first lie in their dimension.
  ghost predicate Normal(pos: seq<int>, sizes: seq<nat>, n: nat) {
    n <= |pos| && n <= |sizes| && forall k :: 1 <= k < n ==> 0 <= pos[k] < sizes[k]
  }

  ghost predicate InBox(pos: seq<int>, sizes: seq<nat>) {
    |pos| == |sizes| && forall k :: 0 <= k < |sizes| ==> 0 <= pos[k] < sizes[k]
  }

  // ----- the dot product is Horner's rule

  /// The product of the sizes of the dimensions `[k, n)`.
  function ProductBetween(sizes: seq<nat>, k: nat, n: nat): nat
    requires k <= n <= |sizes|
  {
    if k == n then 1 else ProductBetween(sizes, k, n - 1) * sizes[n - 1]
  }

  lemma {:induction false} ProductSplit(sizes: seq<nat>, k: nat, n: nat)
    requires k <= n <= |sizes|
    ensures ProductFrom(sizes, k) == ProductBetween(sizes, k, n) * ProductFrom(sizes, n)
  {
    if k < n {
      ProductSplit(sizes, k, n - 1);
      Reassociate(ProductBetween(sizes, k, n - 1), sizes[n - 1], ProductFrom(sizes, n));
    }
  }

  lemma {:induction false} DotIsHorner(pos: seq<int>, sizes: seq<nat>, n: nat)
    requires n <= |pos| && n <= |sizes|
    ensures PositionToIndex(pos, PostfixProducts(sizes), n) == Flat(pos, sizes, n) * ProductFrom(sizes, n)
  {
    if n > 0 {
      DotIsHorner(pos, sizes, n - 1);
      HornerStep(Flat(pos, sizes, n - 1), sizes[n - 1], pos[n - 1], ProductFrom(sizes, n));
    }
  }

  lemma HornerStep(f: int, s: int, p: int, q: int)
    ensures f * (s * q) + p * q == (f * s + p) * q
  {
    Reassociate(f, s, q);
  }

  lemma PositionToIndexIsFlat(pos: seq<int>, sizes: seq<nat>)
    requires |pos| == |sizes|
    ensures PositionToIndex(pos, PostfixProducts(sizes), |pos|) == Flat(pos, sizes, |pos|)
  {
    DotIsHorner(pos, sizes, |pos|);
  }

  // ----- the two conversions undo each other

  lemma {:induction false} PositionShape(index: int, sizes: seq<nat>, n: nat)
    requires 1 <= n <= |sizes| && Positive(sizes)
    ensures |IndexToPosition(index, sizes, n)| == n
    ensures Normal(IndexToPosition(index, sizes, n), sizes, n)
    decreases n
  {
    if n > 1 { PositionShape(index / sizes[n - 1], sizes, n - 1); }
  }

  lemma {:induction false} FlatPrefix(a: seq<int>, b: seq<int>, sizes: seq<nat>, n: nat)
    requires n <= |a| && n <= |b| && n <= |sizes| && a[..n] == b[..n]
    ensures Flat(a, sizes, n) == Flat(b, sizes, n)
  {
    if n > 0 {
      assert a[n - 1] == a[..n][n - 1] == b[n - 1];
      assert a[..n - 1] == a[..n][..n - 1] == b[..n - 1];
      FlatPrefix(a, b, sizes, n - 1);
    }
  }

  lemma {:induction false} FlatOfPosition(index: int, sizes: seq<nat>, n: nat)
    requires 1 <= n <= |sizes| && Positive(sizes)
    ensures |IndexToPosition(index, sizes, n)| == n && Flat(IndexToPosition(index, sizes, n), sizes, n) == index
    decreases n
  {
    PositionShape(index, sizes, n);
    var p := IndexToPosition(index, sizes, n);
    if n == 1 {
      assert Flat(p, sizes, 0) == 0;
    } else {
      var q := IndexToPosition(index / sizes[n - 1], sizes, n - 1);
      FlatOfPosition(index / sizes[n - 1], sizes, n - 1);
      FlatPrefix(p, q, sizes, n - 1);
      DivModOf(index, sizes[n - 1]);
    }
  }

  lemma {:induction false} FlatSign(pos: seq<int>, sizes: seq<nat>, n: nat)
    requires 1 <= n && Normal(pos, sizes, n)
    ensures Flat(pos, sizes, n) >= 0 <==> pos[0] >= 0
  {
    if n == 1 {
      assert Flat(pos, sizes, 0) == 0;
    } else {
      FlatSign(pos, sizes, n - 1);
      var f := Flat(pos, sizes, n - 1);
      if f < 0 { MulAtMost(f, -1, sizes[n - 1]); } else { MulAtMost(0, f, sizes[n - 1]); }
    }
  }

  /// A position is determined by its index.
  lemma {:induction false} PositionOfFlat(pos: seq<int>, sizes: seq<nat>, n: nat)
    requires 1 <= n <= |pos| && Positive(sizes) && Normal(pos, sizes, n)
    ensures IndexToPosition(Flat(pos, sizes, n), sizes, n) == pos[..n]
  {
    if n == 1 {
      assert Flat(pos, sizes, 0) == 0;
    } else {
      PositionOfFlat(pos, sizes, n - 1);
      DivModUnique(Flat(pos, sizes, n), sizes[n - 1], Flat(pos, sizes, n - 1), pos[n - 1]);
      assert pos[..n] == pos[..n - 1] + [pos[n - 1]];
    }
  }

  /// The index lies below the product of all sizes iff coordinate 0 lies in its dimension.
  lemma {:induction false} FlatInRange(pos: seq<int>, sizes: seq<nat>, n: nat)
    requires 1 <= n && Normal(pos, sizes, n)
    ensures Flat(pos, sizes, n) < ProductBetween(sizes, 0, n) <==> pos[0] < sizes[0]
  {
    if n == 1 {
      assert Flat(pos, sizes, 0) == 0 && ProductBetween(sizes, 0, 0) == 1;
    } else {
      FlatInRange(pos, sizes, n - 1);
      DigitKeepsOrder(Flat(pos, sizes, n - 1), ProductBetween(sizes, 0, n - 1), sizes[n - 1], pos[n - 1]);
    }
  }

  lemma DigitKeepsOrder(f: int, p: int, s: int, d: int)
    requires 0 <= d < s
    ensures f * s + d < p * s <==> f < p
  {
    if f < p { MulAtMost(f + 1, p, s); } else { MulAtMost(p, f, s); }
  }

  // ----- MultiSize

  function Total(sizes: seq<nat>): nat { ProductFrom(sizes, 0) }

  function PosToIndex(pos: seq<int>, sizes: seq<nat>): int
    requires |pos| == |sizes|
  {
    PositionToIndex(pos, PostfixProducts(sizes), |pos|)
  }

  function IndexToPos(index: int, sizes: seq<nat>): seq<int>
    requires |sizes| >= 1 && Positive(sizes)
  {
    IndexToPosition(index, sizes, |sizes|)
  }

  /// `(index / after_size(dim)) % axis_size(dim)`; after the last dimension the divisor is 1.
  function IndexToAxisIndex(index: nat, sizes: seq<nat>, dim: nat): int
    requires dim < |sizes| && forall k :: 0 <= k < |sizes| ==> sizes[k] > 0
  {
    ProductPositive(sizes, dim + 1);
    index / ProductFrom(sizes, dim + 1) % sizes[dim]
  }

  lemma {:induction false} ProductPositive(sizes: seq<nat>, k: nat)
    requires forall j :: k <= j < |sizes| ==> sizes[j] > 0
    ensures ProductFrom(sizes, k) > 0
    decreases |sizes| - k
  {
    if k < |sizes| {
      ProductPositive(sizes, k + 1);
      MulAtMost(1, sizes[k], ProductFrom(sizes, k + 1));
    }
  }

  /// The conversions are inverse bijections between the box and the indices below its size.
  lemma IndexRoundTrip(index: nat, sizes: seq<nat>)
    requires |sizes| >= 1 && Positive(sizes) && index < Total(sizes)
    ensures InBox(IndexToPos(index, sizes), sizes) && PosToIndex(IndexToPos(index, sizes), sizes) == index
  {
    var p := IndexToPos(index, sizes);
    PositionShape(index, sizes, |sizes|);
    FlatOfPosition(index, sizes, |sizes|);
    FlatSign(p, sizes, |sizes|);
    PositionToIndexIsFlat(p, sizes);
    ProductSplit(sizes, 0, |sizes|);
    FlatInRange(p, sizes, |sizes|);
  }

  lemma PosRoundTrip(pos: seq<int>, sizes: seq<nat>)
    requires |sizes| >= 1 && InBox(pos, sizes)
    ensures 0 <= PosToIndex(pos, sizes) < Total(sizes)
    ensures IndexToPos(PosToIndex(pos, sizes), sizes) == pos
  {
    PositionToIndexIsFlat(pos, sizes);
    PositionOfFlat(pos, sizes, |pos|);
    FlatSign(pos, sizes, |pos|);
    ProductSplit(sizes, 0, |sizes|);
    FlatInRange(pos, sizes, |sizes|);
    assert pos[..|pos|] == pos;
  }

  /// The leading coordinates are what is left after dividing by the sizes of the others.
  lemma {:induction false} FlatSplit(pos: seq<int>, sizes: seq<nat>, m: nat, n: nat) returns (r: int)
    requires 1 <= m <= n && Normal(pos, sizes, n)
    ensures Flat(pos, sizes, n) == Flat(pos, sizes, m) * ProductBetween(sizes, m, n) + r
    ensures 0 <= r < ProductBetween(sizes, m, n)
    decreases n
  {
    if m == n {
      r := 0;
    } else {
      var r' := FlatSplit(pos, sizes, m, n - 1);
      r := r' * sizes[n - 1] + pos[n - 1];
      SplitStep(Flat(pos, sizes, m), ProductBetween(sizes, m, n - 1), r', sizes[n - 1], pos[n - 1]);
    }
  }

  lemma SplitStep(f: int, p: int, r: int, s: int, d: int)
    requires 0 <= r < p && 0 <= d < s
    ensures (f * p + r) * s + d == f * (p * s) + (r * s + d)
    ensures 0 <= r * s + d < p * s
  {
    Reassociate(f, p, s);
    MulAtMost(r + 1, p, s);
    MulAtMost(0, r, s);
  }

  /// A single coordinate, computed directly, is that of the whole position.
  lemma QuotientIsCoordinate(index: nat, sizes: seq<nat>, dim: nat)
    requires dim < |sizes| && (forall k :: 0 <= k < |sizes| ==> sizes[k] > 0) && index < Total(sizes)
    ensures |IndexToPos(index, sizes)| == |sizes|
    ensures IndexToAxisIndex(index, sizes, dim) == IndexToPos(index, sizes)[dim]
  {
    var p, n := IndexToPos(index, sizes), |sizes|;
    IndexRoundTrip(index, sizes);
    PositionToIndexIsFlat(p, sizes);
    var r := FlatSplit(p, sizes, dim + 1, n);
    ProductSplit(sizes, dim + 1, n);
    DivModUnique(index, ProductBetween(sizes, dim + 1, n), Flat(p, sizes, dim + 1), r);
    DivModUnique(Flat(p, sizes, dim + 1), sizes[dim], Flat(p, sizes, dim), p[dim]);
  }

  // ----- the divisors the code uses

  /// `index_to_position` on precomputed divisors.
  function IndexToPositionBy(index: nat, divs: seq<Divisor.Divisor>, n: nat): seq<int>
    requires 1 <= n <= |divs|
    decreases n
  {
    if n == 1 then [index]
    else
      var (div, mod) := Divisor.DivMod(index, divs[n - 1]);
      IndexToPositionBy(div, divs, n - 1) + [mod]
  }

  lemma {:induction false} DivisorsAreExact(bits: nat, index: nat, sizes: seq<nat>, divs: seq<Divisor.Divisor>, n: nat)
    requires 1 <= n <= |sizes| == |divs| && index < Pow2(bits)
    requires forall k :: 0 <= k < |sizes| ==> 0 < sizes[k] < Pow2(bits) && divs[k] == Divisor.Make(bits, sizes[k])
    ensures IndexToPositionBy(index, divs, n) == IndexToPosition(index, sizes, n)
  {
    if n > 1 {
      Divisor.DivModIsExact(bits, index, sizes[n - 1]);
      Divisor.QuotientAtMost(index, sizes[n - 1]);
      DivisorsAreExact(bits, index / sizes[n - 1], sizes, divs, n - 1);
    }
  }

  lemma {:induction false} ProductAtMost(sizes: seq<nat>, k: nat)
    requires k <= |sizes| && forall j :: 0 <= j < |sizes| ==> sizes[j] > 0
    ensures 0 < ProductFrom(sizes, k) <= Total(sizes) && (k < |sizes| ==> sizes[k] <= Total(sizes))
    decreases k
  {
    ProductPositive(sizes, k);
    if k < |sizes| { FactorAtMost(sizes[k], ProductFrom(sizes, k + 1), ProductFrom(sizes, k)); }
    if k > 0 {
      ProductAtMost(sizes, k - 1);
      FactorAtMost(sizes[k - 1], ProductFrom(sizes, k), ProductFrom(sizes, k - 1));
    }
  }

  lemma FactorAtMost(a: nat, b: nat, c: nat)
    requires a * b == c && c > 0
    ensures a <= c && b <= c
  {
    if a > 0 && b > 0 {
      MulAtMost(1, a, b);
      MulAtMost(1, b, a);
    }
  }

  /// `index_to_axis_index` with a dimension known at run time, by the divisors of the sizes and of their postfix
  /// products, and with one known at compile time, where the last dimension is not divided first.
  function IndexToAxisIndexBy(index: nat, divs: seq<Divisor.Divisor>, productDivs: seq<Divisor.Divisor>, dim: nat): nat
    requires dim < |divs| && |productDivs| == |divs| + 1
  {
    Divisor.Mod(Divisor.Div(index, productDivs[dim + 1]), divs[dim])
  }

  function IndexToStaticAxisIndexBy(index: nat, divs: seq<Divisor.Divisor>, productDivs: seq<Divisor.Divisor>,
                                    dim: nat): nat
    requires dim < |divs| && |productDivs| == |divs| + 1
  {
    if dim + 1 == |divs| then Divisor.Mod(index, divs[dim]) else IndexToAxisIndexBy(index, divs, productDivs, dim)
  }

  /// Both are the coordinate of the position, in the last dimension too, whose divisor is that of 1.
  lemma AxisIndexIsCoordinate(bits: nat, index: nat, sizes: seq<nat>, divs: seq<Divisor.Divisor>,
                              productDivs: seq<Divisor.Divisor>, dim: nat)
    requires dim < |sizes| && index < Total(sizes) < Pow2(bits) && |divs| == |sizes| && |productDivs| == |sizes| + 1
    requires forall k :: 0 <= k < |sizes| ==> sizes[k] > 0 && divs[k] == Divisor.Make(bits, sizes[k])
    requires forall k :: 0 <= k <= |sizes| ==>
               ProductFrom(sizes, k) > 0 && productDivs[k] == Divisor.Make(bits, ProductFrom(sizes, k))
    ensures |IndexToPos(index, sizes)| == |sizes|
    ensures IndexToAxisIndexBy(index, divs, productDivs, dim) == IndexToPos(index, sizes)[dim]
    ensures IndexToStaticAxisIndexBy(index, divs, productDivs, dim) == IndexToPos(index, sizes)[dim]
  {
    AxisIndexAt(bits, index, sizes, dim);
  }

  lemma AxisIndexAt(bits: nat, index: nat, sizes: seq<nat>, dim: nat)
    requires dim < |sizes| && (forall k :: 0 <= k < |sizes| ==> sizes[k] > 0) && index < Total(sizes) < Pow2(bits)
    ensures |IndexToPos(index, sizes)| == |sizes|
    ensures var p := ProductFrom(sizes, dim + 1);
            p > 0 && Divisor.Mod(Divisor.Div(index, Divisor.Make(bits, p)), Divisor.Make(bits, sizes[dim])) ==
                     IndexToPos(index, sizes)[dim]
    ensures dim + 1 == |sizes| ==> Divisor.Mod(index, Divisor.Make(bits, sizes[dim])) == IndexToPos(index, sizes)[dim]
  {
    AxisNumbers(index, sizes, dim);
    DivModBy(bits, index, ProductFrom(sizes, dim + 1), sizes[dim]);
    if dim + 1 == |sizes| { Divisor.ModIsExact(bits, index, sizes[dim]); }
  }

  lemma AxisNumbers(index: nat, sizes: seq<nat>, dim: nat)
    requires dim < |sizes| && (forall k :: 0 <= k < |sizes| ==> sizes[k] > 0) && index < Total(sizes)
    ensures |IndexToPos(index, sizes)| == |sizes|
    ensures var p, d := ProductFrom(sizes, dim + 1), sizes[dim];
            0 < p <= Total(sizes) && 0 < d <= Total(sizes) && index / p % d == IndexToPos(index, sizes)[dim]
    ensures dim + 1 == |sizes| ==> index % sizes[dim] == IndexToPos(index, sizes)[dim]
  {
    QuotientIsCoordinate(index, sizes, dim);
    ProductAtMost(sizes, dim);
    ProductAtMost(sizes, dim + 1);
  }

  lemma DivModBy(bits: nat, index: nat, p: nat, d: nat)
    requires index < Pow2(bits) && 0 < p < Pow2(bits) && 0 < d < Pow2(bits)
    ensures Divisor.Mod(Divisor.Div(index, Divisor.Make(bits, p)), Divisor.Make(bits, d)) == index / p % d
  {
    Divisor.DivIsExact(bits, index, p);
    Divisor.QuotientAtMost(index, p);
    Divisor.ModIsExact(bits, index / p, d);
  }
}
