/**
 `RangeRandomizer::transform` (include/thesauros/random/randomize-range.hpp) permutes `[0, size)`.

 All arithmetic is on `w`-bit unsigned numbers and wraps, as in the 32- and 64-bit instances. `NarrowRandomizer` treats
 the narrower ones, whose operands are promoted.
 */
module RangeRandomizer {
  import opened Arith
  import opened Bits
  import opened Finite

  const MUL: nat := 12605985483714917081

  function Add(w: nat, x: nat, y: nat): nat { (x + y) % Pow2(w) }

  function Sub(w: nat, x: nat, y: nat): nat
    requires x < Pow2(w) && y < Pow2(w)
  {
    (x + Pow2(w) - y) % Pow2(w)
  }

  function Mul(w: nat, x: nat, y: nat): nat { Low(x * y, w) }

  /// `(max >> c) >> 1`
  function ShiftedOnes(w: nat, c: nat): nat { (Pow2(w) - 1) / Pow2(c) / 2 }

  datatype Randomizer = Randomizer(w: nat, size: nat, offset: nat) {
    /// `offset` is drawn from the closed range `[0, size]`.
    predicate Valid() { 1 <= size < Pow2(w) && offset <= size }

    function MulT(): nat { Low(MUL, w) }

    function B1(): nat { Pow2(w / 2) }

    function A(): nat { BitFloor(size) }

    function AA(): nat
      requires Valid()
    {
      if A() < Pow2(w) then Sub(w, A(), 1) else 0
    }

    function B(): nat
      requires Valid() && A() < Pow2(w)
    {
      Sub(w, A(), Sub(w, size, A()))
    }

    function CC(): nat
      requires Valid()
    {
      Sub(w, size, 1)
    }

    function C(): nat
      requires Valid()
    {
      And(size, AA())
    }

    function D(): nat
      requires Valid()
    {
      Sub(w, size, offset)
    }

    // ----- the statements of `transform`

    function Rotate(x: nat): nat
      requires Valid() && x < Pow2(w)
    {
      if x >= D() then Sub(w, x, D()) else Add(w, x, offset)
    }

    function Reflect(x: nat): nat
      requires Valid() && x < Pow2(w)
    {
      Sub(w, CC(), x)
    }

    function ReflectSuffix(x: nat): nat
      requires Valid() && x < Pow2(w) && A() < Pow2(w)
    {
      if x >= B() then Add(w, Sub(w, CC(), x), B()) else x
    }

    function Toggle(x: nat): nat
      requires Valid()
    {
      var y := And(x, AA());
      if y < C() && And(Mul(w, y, MulT()), B1()) != 0 then Xor(x, A()) else x
    }

    /// The mask of the bits below the top bit of `size & ~y`.
    function PartMask(y: nat): nat
      requires y < size < Pow2(w)
    {
      var splits := And(size, Complement(w, y));
      if BitWidth(splits) <= w then ShiftedOnes(w, CountlZero(w, splits)) else 0
    }

    function Part(y: nat): nat
      requires y < size < Pow2(w)
    {
      var m := PartMask(y);
      var z := Mul(w, Xor(y, y / 2), MulT());
      if m < Pow2(w) then Or(And(y, Complement(w, m)), And(z, m)) else 0
    }

    /// Outside `[0, size)` the result is not specified; 0 stands for it.
    function Transform(x: nat): nat
      requires Valid()
    {
      if x >= size || A() >= Pow2(w) then 0 else
      var x1 := Rotate(x);
      var x2 := Reflect(x1);
      var x3 := ReflectSuffix(x2);
      var x4 := Reflect(x3);
      var x5 := Toggle(x4);
      if x5 >= Pow2(w) then 0 else
      var x6 := Reflect(x5);
      if x6 >= size then 0 else Part(x6)
    }

    // ----- the constants

    lemma Constants()
      requires Valid()
      ensures A() == Pow2(BitWidth(size) - 1) && A() <= size < 2 * A() && A() < Pow2(w)
      ensures AA() == A() - 1 && CC() == size - 1 && D() == size - offset
      ensures B() == 2 * A() - size && C() == size - A()
    {
      TopBit();
      SubExact(A(), 1);
      SubExact(size, 1);
      SubExact(size, offset);
      SubExact(size, A());
      SubExact(A(), size - A());
      BelowTopBit(size, BitWidth(size) - 1);
    }

    lemma TopBit()
      requires Valid()
      ensures A() == Pow2(BitWidth(size) - 1) && A() <= size < 2 * A() && A() < Pow2(w)
    {
      BitWidthBounds(size);
      assert Pow2(BitWidth(size)) == 2 * Pow2(BitWidth(size) - 1);
    }

    /// The low bits of a number from `2^k` on but below `2^(k + 1)`, and of one below `2^k`.
    static lemma BelowTopBit(x: nat, k: nat)
      requires x < 2 * Pow2(k)
      ensures And(x, Pow2(k) - 1) == (if x >= Pow2(k) then x - Pow2(k) else x)
      ensures High(x, k) == if x >= Pow2(k) then 1 else 0
    {
      AndLowMask(x, k);
      LowHigh(x, k);
      if x >= Pow2(k) { DivModUnique(x, Pow2(k), 1, x - Pow2(k)); } else { DivModUnique(x, Pow2(k), 0, x); }
    }

    lemma SubExact(x: nat, y: nat)
      requires y <= x < Pow2(w)
      ensures Sub(w, x, y) == x - y
    {
      DivModUnique(x + Pow2(w) - y, Pow2(w), 1, x - y);
    }

    lemma AddExact(x: nat, y: nat)
      requires x + y < Pow2(w)
      ensures Add(w, x, y) == x + y
    {
      DivModUnique(x + y, Pow2(w), 0, x + y);
    }

    // ----- the stages before the last

    lemma RotateIs(x: nat)
      requires Valid() && x < size
      ensures Rotate(x) == if x >= size - offset then x - (size - offset) else x + offset
      ensures Rotate(x) < size
    {
      Constants();
      if x >= D() { SubExact(x, D()); } else { AddExact(x, offset); }
    }

    lemma ReflectIs(x: nat)
      requires Valid() && x < size
      ensures Reflect(x) == size - 1 - x
    {
      Constants();
      SubExact(CC(), x);
    }

    lemma ReflectSuffixIs(x: nat)
      requires Valid() && x < size
      ensures A() < Pow2(w) && ReflectSuffix(x) == if x >= 2 * A() - size then size - 1 - x + (2 * A() - size) else x
      ensures ReflectSuffix(x) < size
    {
      Constants();
      SubExact(CC(), x);
      if x >= B() { AddExact(CC() - x, B()); }
    }

    /// The bit that is toggled is the top bit, and whether it is depends on the other bits alone.
    lemma ToggleIs(x: nat)
      requires Valid() && x < size
      ensures var y := if x >= A() then x - A() else x;
              y < A() && And(x, AA()) == y
              && Toggle(x) == if y < size - A() && And(Mul(w, y, MulT()), B1()) != 0
                              then if x >= A() then x - A() else x + A() else x
      ensures Toggle(x) < size
    {
      TopBitToggles(x);
      Constants();
    }

    lemma TopBitToggles(x: nat)
      requires Valid() && x < size
      ensures And(x, AA()) == if x >= A() then x - A() else x
      ensures Xor(x, A()) == if x >= A() then x - A() else x + A()
    {
      Constants();
      BelowTopBit(x, BitWidth(size) - 1);
      XorBit(x, BitWidth(size) - 1);
    }

    /// In numbers: the bit in the middle of the product with the multiplier decides.
    lemma ToggleTests(x: nat)
      requires Valid() && x < size && w >= 2
      ensures var y := if x >= A() then x - A() else x;
              Toggle(x) == if y < size - A() && y * MUL / Pow2(w / 2) % 2 == 1
                           then if x >= A() then x - A() else x + A() else x
    {
      var y := if x >= A() then x - A() else x;
      ToggleIs(x);
      MiddleBit(y);
    }

    lemma MiddleBit(y: nat)
      requires w >= 2
      ensures And(Mul(w, y, MulT()), B1()) != 0 <==> y * MUL / Pow2(w / 2) % 2 == 1
    {
      var k := w / 2;
      LowProduct(MUL, y, w);
      assert Mul(w, y, MulT()) == Low(y * MUL, w);
      AndBit(Low(y * MUL, w), k);
      HighOfLow(y * MUL, k, w);
      LowHigh(y * MUL, k);
    }

    /// What the last stage does to the low bits, in numbers.
    lemma MixIs(t: nat, u: nat)
      ensures Mix(t, u) == Xor(u, u / 2) * MUL % Pow2(t)
    {
      LowHigh(Xor(u, u / 2) * MUL, t);
    }

    // ----- the last stage

    /// What the last stage does to the bits below the split.
    function Mix(t: nat, u: nat): nat { Low(Xor(u, u / 2) * MUL, t) }

    /// The last stage keeps all bits down to the first one where `size` and `y` differ, and maps the
    /// bits below among themselves.
    lemma PartIs(y: nat) returns (t: nat)
      requires Valid() && y < size
      ensures LeavesAt(size, y, t)
      ensures High(Part(y), t) == High(y, t) && Low(Part(y), t) == Mix(t, Low(y, t))
      ensures LeavesAt(size, Part(y), t) && Part(y) < size
    {
      t := PartSplit(y);
      var l := Low(Mul(w, Xor(y, y / 2), MulT()), t);
      PartJoins(y, t);
      PartLow(y, t);
      LowHigh(Mul(w, Xor(y, y / 2), MulT()), t);
      Compose(High(y, t), l, t);
      LowHigh(size, t);
      NextBlock(High(y, t), Pow2(t));
    }

    lemma NextBlock(h: nat, p: nat)
      ensures (h + 1) * p == h * p + p
    {
    }

    /// The two masked halves do not overlap, so `|` adds them.
    lemma PartJoins(y: nat, t: nat)
      requires Valid() && y < size && t < w && Pow2(t) <= Pow2(w) && PartMask(y) == Pow2(t) - 1
      ensures Part(y) == High(y, t) * Pow2(t) + Low(Mul(w, Xor(y, y / 2), MulT()), t)
    {
      var z := Mul(w, Xor(y, y / 2), MulT());
      AndHighMask(w, y, t);
      AndLowMask(z, t);
      LowHigh(y, t);
      LowHigh(z, t);
      MultipleLow(High(y, t), t);
      OrDisjoint(High(y, t) * Pow2(t), Low(z, t), t);
    }

    lemma PartSplit(y: nat) returns (t: nat)
      requires Valid() && y < size
      ensures LeavesAt(size, y, t) && t < w && Pow2(t) <= Pow2(w) && PartMask(y) == Pow2(t) - 1
    {
      SplitBit(w, size, y);
      var s := And(size, Complement(w, y));
      t := BitWidth(s) - 1;
      AndAtMost(size, Complement(w, y));
      BitWidthFits(w, s);
      MaskBelowTop(s, t);
      Pow2Monotone(t, w);
    }

    lemma MaskBelowTop(s: nat, t: nat)
      requires BitWidth(s) == t + 1 <= w
      ensures ShiftedOnes(w, CountlZero(w, s)) == Pow2(t) - 1
    {
      var lead := CountlZero(w, s);
      Pow2Add(lead, t + 1);
      assert lead + (t + 1) == w;
      OnesShift(Pow2(t + 1), Pow2(lead));
    }

    lemma OnesShift(q: nat, p: nat)
      requires q > 0 && p > 0
      ensures (p * q - 1) / p == q - 1
    {
      assert p * q - 1 == (q - 1) * p + (p - 1);
      DivModUnique(p * q - 1, p, q - 1, p - 1);
    }

    /// The low bits of the product depend on the low bits of `y` alone, as bit `t` of `y` is 0.
    lemma PartLow(y: nat, t: nat)
      requires High(y, t) % 2 == 0 && t < w
      ensures Low(Mul(w, Xor(y, y / 2), MulT()), t) == Mix(t, Low(y, t))
    {
      var g, u := Xor(y, y / 2), Low(y, t);
      LowLow(g * MulT(), w, t);
      XorLow(y, y / 2, t);
      LowOfHalf(y, t);
      assert Low(g, t) == Xor(u, u / 2);
      LowProduct(g, MulT(), t);
      LowProduct(MulT(), Low(g, t), t);
      LowProduct(MUL, Low(g, t), t);
      LowLow(MUL, w, t);
    }

    /// Gray coding loses nothing.
    lemma {:induction false} GrayInjective(u: nat, v: nat)
      requires Xor(u, u / 2) == Xor(v, v / 2)
      ensures u == v
      decreases u + v
    {
      if u + v > 0 {
        XorStep(u, u / 2);
        XorStep(v, v / 2);
        GrayInjective(u / 2, v / 2);
      }
    }

    lemma MixInjective(t: nat, u: nat, v: nat)
      requires u < Pow2(t) && v < Pow2(t) && Mix(t, u) == Mix(t, v)
      ensures u == v
    {
      var a, b := Xor(u, u / 2), Xor(v, v / 2);
      LowHigh(a * MUL, t);
      LowHigh(b * MUL, t);
      SameMod(a * MUL, b * MUL, Pow2(t));
      assert (a - b) * MUL == a * MUL - b * MUL;
      OddCancels(a - b, MUL, t);
      GraySmall(u, t);
      GraySmall(v, t);
      SameMod(a, b, Pow2(t));
      DivModUnique(a, Pow2(t), 0, a);
      DivModUnique(b, Pow2(t), 0, b);
      GrayInjective(u, v);
    }

    lemma GraySmall(u: nat, t: nat)
      requires u < Pow2(t)
      ensures Xor(u, u / 2) < Pow2(t)
    {
      XorLow(u, u / 2, t);
      LowOfSmall(u, t);
      LowOfSmall(u / 2, t);
      LowHigh(Xor(u, u / 2), t);
    }

    lemma PartInjective(x: nat, y: nat)
      requires Valid() && x < size && y < size && Part(x) == Part(y)
      ensures x == y
    {
      var t := PartIs(x);
      var t' := PartIs(y);
      LeavesOnce(size, Part(x), t, t');
      LowHigh(x, t);
      LowHigh(y, t);
      MixInjective(t, Low(x, t), Low(y, t));
    }

    // ----- the whole

    /// The value before the conditional exclusive or.
    ghost function Middle(x: nat): (r: nat)
      requires Valid() && x < size
      ensures r < size
    {
      RotateIs(x);
      ReflectIs(Rotate(x));
      var x2 := Reflect(Rotate(x));
      ReflectSuffixIs(x2);
      ReflectIs(ReflectSuffix(x2));
      Reflect(ReflectSuffix(x2))
    }

    /// The stages before the last.
    ghost function Shuffle(x: nat): (r: nat)
      requires Valid() && x < size
      ensures r < size
    {
      ToggleIs(Middle(x));
      ReflectIs(Toggle(Middle(x)));
      Reflect(Toggle(Middle(x)))
    }

    lemma TransformIs(x: nat)
      requires Valid() && x < size
      ensures Transform(x) == Part(Shuffle(x))
    {
      Constants();
      RotateIs(x);
      ReflectIs(Rotate(x));
      var x2 := Reflect(Rotate(x));
      ReflectSuffixIs(x2);
      ReflectIs(ReflectSuffix(x2));
      var x4 := Reflect(ReflectSuffix(x2));
      ToggleIs(x4);
      ReflectIs(Toggle(x4));
    }

    lemma ReflectSuffixInjective(x: nat, y: nat)
      requires Valid() && x < size && y < size && A() < Pow2(w) && ReflectSuffix(x) == ReflectSuffix(y)
      ensures x == y
    {
      ReflectSuffixIs(x);
      ReflectSuffixIs(y);
    }

    /// Toggling twice is doing nothing.
    lemma ToggleInvolutive(x: nat)
      requires Valid() && x < size
      ensures Toggle(x) < size && Toggle(Toggle(x)) == x
    {
      ToggleIs(x);
      ToggleIs(Toggle(x));
    }

    lemma ShuffleInjective(x: nat, y: nat)
      requires Valid() && x < size && y < size && Shuffle(x) == Shuffle(y)
      ensures x == y
    {
      RotateIs(x); RotateIs(y);
      var x1, y1 := Rotate(x), Rotate(y);
      ReflectIs(x1); ReflectIs(y1);
      var x2, y2 := Reflect(x1), Reflect(y1);
      ReflectSuffixIs(x2); ReflectSuffixIs(y2);
      var x3, y3 := ReflectSuffix(x2), ReflectSuffix(y2);
      ReflectIs(x3); ReflectIs(y3);
      var x4, y4 := Reflect(x3), Reflect(y3);
      ToggleInvolutive(x4); ToggleInvolutive(y4);
      ReflectIs(Toggle(x4)); ReflectIs(Toggle(y4));
      assert Toggle(x4) == Toggle(y4);
      ReflectSuffixInjective(x2, y2);
    }

    /// `transform` is a bijection of `[0, size)` onto itself, for every size and every offset.
    lemma TransformPermutes()
      requires Valid()
      ensures PermutesBelow(size, x => Transform(x))
    {
      var f := x => Transform(x);
      forall x: nat | x < size ensures f(x) < size { TransformIs(x); var t := PartIs(Shuffle(x)); }
      forall x: nat, y: nat | x < size && y < size && f(x) == f(y) ensures x == y {
        TransformIs(x);
        TransformIs(y);
        PartInjective(Shuffle(x), Shuffle(y));
        ShuffleInjective(x, y);
      }
      InjectiveIsPermutation(size, f);
    }
  }
}
