/**
 The iterator of `LCG` (include/thesauros/random/lcg.hpp): single steps and jumps by doubling in `bits`-bit
 unsigned arithmetic, which wraps.
 */
module Lcg {
  import opened Arith
  import opened Divisibility
  import opened Finite
  import opened Wrappers

  datatype Lcg = Lcg(bits: nat, seed: nat, increment: nat, size: nat) {
    predicate Valid() { 0 < size < Pow2(bits) && seed < size && increment < size }

    function Modulus(): nat { Pow2(bits) }

    /// The element at position `p`.
    function At(p: int): nat
      requires Valid()
    {
      (seed + p * increment) % size
    }

    /// The positions of at most 64 bits, the end included, are below 2^64.
    lemma PositionsFit()
      requires Valid() && bits <= 64
      ensures size < 2 * DIFF_LIMIT
    {
      Pow2Monotone(bits, 64);
      WordSizes();
    }

    /// `added`
    function Added(value: nat, step: nat): nat
      requires step <= size
    {
      var ref := size - step;
      if value < ref then (value + step) % Modulus() else value - ref
    }

    /// The doubling of `skip_step`.
    function Doubled(step: nat): nat
      requires step <= size
    {
      var ref := size - step;
      if step < ref then 2 * step % Modulus() else step - ref
    }

    /// Neither operation overflows, and each is the one modulo `size`.
    lemma AddedIs(value: nat, step: nat)
      requires Valid() && value < size && step <= size
      ensures value < size - step ==> value + step < Modulus()
      ensures Added(value, step) == (value + step) % size < size
    {
      if value < size - step {
        DivModUnique(value + step, Modulus(), 0, value + step);
        DivModUnique(value + step, size, 0, value + step);
      } else {
        DivModUnique(value + step, size, 1, value + step - size);
      }
    }

    lemma DoubledIs(step: nat)
      requires Valid() && step <= size
      ensures step < size - step ==> 2 * step < Modulus()
      ensures Doubled(step) <= size && Divides(size, 2 * step - Doubled(step))
    {
      if step < size - step {
        DivModUnique(2 * step, Modulus(), 0, 2 * step);
        DividesMultiple(size, 0);
      } else {
        DividesMultiple(size, 1);
      }
    }

    lemma AtStep(p: int, value: nat, step: int, q: int)
      requires Valid() && value == At(p) && Divides(size, q * increment - step)
      ensures At(p + q) == (value + step) % size
    {
      assert (p + q) * increment == p * increment + q * increment;
      ShiftedSum(seed + p * increment, q * increment, value, step, size);
    }

    /// The elements start with the seed, and each one is the one before it plus the increment, modulo the size.
    lemma AtIsRecurrence(p: int)
      requires Valid()
      ensures At(0) == seed && At(p + 1) == (At(p) + increment) % size
    {
      SmallMod(seed, size);
      assert 0 * increment == 0;
      DividesMultiple(size, 0);
      assert 1 * increment - increment == 0;
      AtStep(p, At(p), increment, 1);
    }

    /// A full traversal visits every value below `size` exactly once iff the increment has no divisor
    /// in common with the size.
    lemma TraversalPermutes()
      requires Valid()
      ensures PermutesBelow(size, i => At(i)) <==> Coprime(increment, size)
    {
      var f: nat -> nat := i => At(i);
      if Coprime(increment, size) {
        forall i: nat, j: nat | i < size && j < size && f(i) == f(j) ensures i == j { NoCollision(i, j); }
        InjectiveIsPermutation(size, f);
      } else {
        var d: nat :| d > 1 && Divides(d, increment) && Divides(d, size);
        var s := Collision(d);
        assert f(s) == f(0);
      }
    }

    lemma NoCollision(i: nat, j: nat)
      requires Valid() && Coprime(increment, size) && i < size && j < size && At(i) == At(j)
      ensures i == j
    {
      SameMod(seed + i * increment, seed + j * increment, size);
      DifferenceOfProducts(seed, i, j, increment);
      Euclid(size, increment, i - j);
      SmallMultiple(size, i - j);
    }

    lemma Collision(d: nat) returns (s: nat)
      requires Valid() && d > 1 && Divides(d, increment) && Divides(d, size)
      ensures 0 < s < size && At(s) == At(0)
    {
      var m := Quotient(d, increment);
      s := ProperQuotient(d, size);
      CommonFactor(s, m, d);
      assert s * increment == m * size;
      ModShift(seed, size, m);
      assert 0 * increment == 0;
    }
  }

  lemma ProperQuotient(d: nat, n: nat) returns (k: nat)
    requires d > 1 && n > 0 && Divides(d, n)
    ensures n == k * d && 0 < k < n
  {
    var q := Quotient(d, n);
    if q <= 0 { MulAtMost(q, 0, d); }
    MulAtMost(2, d, q);
    k := q;
  }

  lemma CommonFactor(k: int, m: int, d: int)
    ensures k * (m * d) == m * (k * d)
  {
  }

  lemma DifferenceOfProducts(seed: int, i: int, j: int, increment: int)
    ensures seed + i * increment - (seed + j * increment) == increment * (i - j)
  {
  }

  lemma SmallMultiple(d: nat, n: int)
    requires d > 0 && Divides(d, n) && 0 < n + d && n < d
    ensures n == 0
  {
    if n > 0 { DividesAtMost(d, n); }
    if n < 0 {
      DividesNegated(d, n);
      DividesAtMost(d, -n);
    }
  }

  lemma ShiftedSum(a: int, b: int, value: int, step: int, size: nat)
    requires size > 0 && value == a % size && Divides(size, b - step)
    ensures (a + b) % size == (value + step) % size
  {
    DivModOf(a, size);
    DividesMultiple(size, a / size);
    DividesSum(size, a - value, b - step);
    SameMod(a + b, value + step, size);
  }

  class ConstIterator {
    const lcg: Lcg
    var index: nat
    var value: nat
    ghost var pos: int

    /// The iterator is at `pos`: it holds that index, modulo the width, and that element.
    ghost predicate Valid()
      reads this
    {
      lcg.Valid() && index == pos % lcg.Modulus() && value == lcg.At(pos)
    }

    constructor Begin(lcg: Lcg)
      requires lcg.Valid()
      ensures Valid() && this.lcg == lcg && pos == 0
      ensures index == 0 && value == lcg.seed
    {
      this.lcg, index, value, pos := lcg, 0, lcg.seed, 0;
      new;
      DivModUnique(0, lcg.Modulus(), 0, 0);
      DivModUnique(lcg.seed, lcg.size, 0, lcg.seed);
      assert 0 * lcg.increment == 0;
    }

    constructor End(lcg: Lcg)
      requires lcg.Valid()
      ensures Valid() && this.lcg == lcg && pos == lcg.size
      ensures index == lcg.size && value == lcg.seed
    {
      this.lcg, index, value, pos := lcg, lcg.size, lcg.seed, lcg.size;
      new;
      DivModUnique(lcg.size, lcg.Modulus(), 0, lcg.size);
      assert lcg.size * lcg.increment == lcg.increment * lcg.size;
      DivModUnique(lcg.seed + lcg.size * lcg.increment, lcg.size, lcg.increment, lcg.seed);
    }

    method Incr()
      requires Valid()
      modifies this
      ensures Valid() && pos == old(pos) + 1
      ensures value == (old(value) + lcg.increment) % lcg.size
    {
      var m := lcg.Modulus();
      ModSum(pos, 1, m);
      lcg.AddedIs(value, lcg.increment);
      DividesMultiple(lcg.size, 0);
      assert 1 * lcg.increment - lcg.increment == 0;
      lcg.AtStep(pos, value, lcg.increment, 1);
      index := (index + 1) % m;
      value := lcg.Added(value, lcg.increment);
      pos := pos + 1;
    }

    method Decr()
      requires Valid()
      modifies this
      ensures Valid() && pos == old(pos) - 1
      ensures value == (old(value) - lcg.increment) % lcg.size
    {
      var m := lcg.Modulus();
      ModSum(pos, m - 1, m);
      ModShift(pos - 1, m, 1);
      lcg.AddedIs(value, lcg.size - lcg.increment);
      ModShift(value - lcg.increment, lcg.size, 1);
      DividesMultiple(lcg.size, -1);
      assert -1 * lcg.increment - (lcg.size - lcg.increment) == -1 * lcg.size;
      lcg.AtStep(pos, value, lcg.size - lcg.increment, -1);
      index := (index + m - 1) % m;
      value := lcg.Added(value, lcg.size - lcg.increment);
      pos := pos - 1;
    }

    /// A jump lands where `|diff|` single steps in that direction would.
    method Iadd(diff: int)
      requires Valid() && 0 - lcg.Modulus() < diff < lcg.Modulus()
      modifies this
      ensures Valid() && pos == old(pos) + diff
      ensures value == (old(value) + diff * lcg.increment) % lcg.size
    {
      var m := lcg.Modulus();
      ModSum(pos, diff, m);
      ModSum(diff, index, m);
      index := (index + diff % m) % m;
      var step := SkipStep(lcg, diff);
      lcg.AddedIs(value, step);
      SmallMod(value, lcg.size);
      ShiftedSum(value, diff * lcg.increment, value, step, lcg.size);
      lcg.AtStep(pos, value, step, diff);
      value := lcg.Added(value, step);
      pos := pos + diff;
    }

    /// `None` stands for an overflow of the signed subtraction, which has no defined result.
    method Sub(other: ConstIterator) returns (diff: Option<int>)
      requires Valid() && other.Valid() && lcg == other.lcg
      requires 0 <= pos <= lcg.size && 0 <= other.pos <= lcg.size
      ensures diff == Difference(pos, other.pos)
      ensures lcg.bits <= 64 ==> (diff == Some(pos - other.pos) <==> (pos < DIFF_LIMIT <==> other.pos < DIFF_LIMIT))
    {
      DivModUnique(pos, lcg.Modulus(), 0, pos);
      DivModUnique(other.pos, lcg.Modulus(), 0, other.pos);
      if lcg.bits <= 64 { lcg.PositionsFit(); DifferenceIsExactIff(pos, other.pos); }
      var a, b := AsDiff(index), AsDiff(other.index);
      diff := if -DIFF_LIMIT <= a - b < DIFF_LIMIT then Some(a - b) else None;
    }
  }

  // ----- differences

  /// `std::ptrdiff_t` holds the numbers in `[-2^63, 2^63)`.
  const DIFF_LIMIT: int := 0x8000_0000_0000_0000

  /// The conversion of an index, which is modulo 2^64.
  function AsDiff(x: nat): int {
    var r := x % (2 * DIFF_LIMIT);
    if r < DIFF_LIMIT then r else r - 2 * DIFF_LIMIT
  }

  function Difference(x: nat, y: nat): Option<int> {
    if -DIFF_LIMIT <= AsDiff(x) - AsDiff(y) < DIFF_LIMIT then Some(AsDiff(x) - AsDiff(y)) else None
  }

  /// Two positions of at most 64 bits have the right difference iff both or neither are negative once converted.
  lemma DifferenceIsExactIff(x: nat, y: nat)
    requires x < 2 * DIFF_LIMIT && y < 2 * DIFF_LIMIT
    ensures Difference(x, y) == Some(x - y) <==> (x < DIFF_LIMIT <==> y < DIFF_LIMIT)
  {
    SmallMod(x, 2 * DIFF_LIMIT);
    SmallMod(y, 2 * DIFF_LIMIT);
  }

  /// So all differences, that of the end and the beginning among them, are right iff the size can be represented.
  lemma AllDifferencesAreExactIff(size: nat)
    requires size < 2 * DIFF_LIMIT
    ensures (forall x: nat, y: nat :: x <= size && y <= size ==> Difference(x, y) == Some(x - y)) <==> size < DIFF_LIMIT
    ensures Difference(size, 0) == Some(size) <==> size < DIFF_LIMIT
  {
    DifferenceIsExactIff(size, 0);
    forall x: nat, y: nat | x <= size < DIFF_LIMIT && y <= size ensures Difference(x, y) == Some(x - y) {
      DifferenceIsExactIff(x, y);
    }
  }

  /// From the beginning to the end of a sequence of 2^63 elements is -2^63, and to the second element it overflows.
  lemma DifferenceFails()
    ensures Difference(0x8000_0000_0000_0000, 0) == Some(-0x8000_0000_0000_0000)
    ensures Difference(0x8000_0000_0000_0000, 1) == None
  {
  }

  /// The total step of a jump by `diff`, by doubling the step per element.
  method SkipStep(lcg: Lcg, diff: int) returns (prod: nat)
    requires lcg.Valid() && 0 - lcg.Modulus() < diff < lcg.Modulus()
    ensures prod < lcg.size && Divides(lcg.size, diff * lcg.increment - prod)
  {
    var m, size := lcg.Modulus(), lcg.size;
    var forward := diff >= 0;
    var step: nat := if forward then lcg.increment else size - lcg.increment;
    var num: nat := if forward then diff % m else (m - diff % m) % m;
    prod := 0;
    DiffAsNum(m, diff);
    ghost var target := diff * lcg.increment;
    FirstStep(size, lcg.increment, diff, num, step);
    while num > 0
      invariant prod < size && step <= size
      invariant Divides(size, target - (prod + num * step))
    {
      lcg.AddedIs(prod, step);
      lcg.DoubledIs(step);
      ghost var oldProd, oldStep := prod, step;
      prod := if num % 2 == 1 then lcg.Added(prod, step) else prod;
      step := lcg.Doubled(step);
      HalveNum(size, target, oldProd, num, oldStep, prod, step);
      num := num / 2;
    }
    assert num * step == 0;
  }

  lemma DiffAsNum(m: nat, diff: int)
    requires 0 - m < diff < m
    ensures diff >= 0 ==> diff % m == diff
    ensures diff < 0 ==> (m - diff % m) % m == -diff
  {
    if diff >= 0 {
      DivModUnique(diff, m, 0, diff);
    } else {
      DivModUnique(diff, m, -1, m + diff);
      DivModUnique(-diff, m, 0, -diff);
    }
  }

  lemma FirstStep(size: nat, increment: nat, diff: int, num: nat, step: nat)
    requires size > 0
    requires (num == diff && step == increment) || (num == -diff && step == size - increment)
    ensures Divides(size, diff * increment - (0 + num * step))
  {
    if num == diff && step == increment {
      DividesMultiple(size, 0);
    } else {
      assert diff * increment - num * step == diff * size by {
        assert num * step == num * size - num * increment;
        assert num * increment == -(diff * increment) && num * size == -(diff * size);
      }
      DividesMultiple(size, diff);
    }
  }

  /// One round keeps `prod + num * step` modulo `size`.
  lemma HalveNum(size: nat, target: int, prod: nat, num: nat, step: nat, prod': nat, step': nat)
    requires Divides(size, target - (prod + num * step))
    requires prod' == if num % 2 == 1 then (prod + step) % size else prod
    requires Divides(size, 2 * step - step')
    ensures Divides(size, target - (prod' + num / 2 * step'))
  {
    var h := num / 2;
    var added := if num % 2 == 1 then prod + step else prod;
    assert num * step == h * (2 * step) + (added - prod);
    DivModOf(added, size);
    DividesMultiple(size, added / size);
    if num % 2 == 0 { DividesMultiple(size, 0); }
    assert Divides(size, added - prod');
    DividesProduct(size, 2 * step - step', h);
    DividesSum(size, target - (prod + num * step), added - prod');
    DividesSum(size, target - (prod + num * step) + (added - prod'), h * (2 * step - step'));
    assert h * (2 * step - step') == h * (2 * step) - h * step';
  }
}
