/**
 `RangeRandomizer::transform` (include/thesauros/random/randomize-range.hpp) in 8 and 16 bits, whose operands C++
 promotes to `int`, here of 32 bits: what is assigned is truncated, but a product may overflow before.
 */
module NarrowRandomizer {
  import opened Arith
  import opened Bits
  import opened Finite
  import opened RangeRandomizer
  import opened Wrappers

  const INT_LIMIT: nat := 0x8000_0000

  ghost predicate Narrow(r: Randomizer) { r.Valid() && (r.w == 8 || r.w == 16) }

  /// A value assigned to a variable of `w` bits.
  function Stored(w: nat, v: int): nat { v % Pow2(w) }

  /// A product of promoted operands; `None` is an overflow.
  function IntProduct(x: nat, y: nat): Option<nat> { if x * y < INT_LIMIT then Some(x * y) else None }

  function Toggle(r: Randomizer, x: nat): Option<nat>
    requires r.Valid()
  {
    var y := And(x, r.AA());
    match IntProduct(y, r.MulT())
    case None => None
    case Some(p) => Some(if y < r.C() && And(p, r.B1()) != 0 then Xor(x, r.A()) else x)
  }

  function Part(r: Randomizer, y: nat): Option<nat>
    requires y < r.size < Pow2(r.w)
  {
    var m := r.PartMask(y);
    match IntProduct(Xor(y, y / 2), r.MulT())
    case None => None
    case Some(p) => Some(if m < Pow2(r.w) then Or(And(y, Complement(r.w, m)), And(Stored(r.w, p), m)) else 0)
  }

  function Rotate(r: Randomizer, x: nat): nat
    requires r.Valid()
  {
    Stored(r.w, if x >= r.D() then x - r.D() else x + r.offset)
  }

  function Reflect(r: Randomizer, x: nat): nat
    requires r.Valid()
  {
    Stored(r.w, r.CC() - x)
  }

  function ReflectSuffix(r: Randomizer, x: nat): nat
    requires r.Valid() && r.A() < Pow2(r.w)
  {
    Stored(r.w, if x >= r.B() then r.CC() - x + r.B() else x)
  }

  /// What is unspecified is 0, as in 32 and 64 bits.
  function Transform(r: Randomizer, x: nat): Option<nat>
    requires r.Valid()
  {
    if x >= r.size || r.A() >= Pow2(r.w) then Some(0)
    else
      match Toggle(r, Reflect(r, ReflectSuffix(r, Reflect(r, Rotate(r, x)))))
      case None => None
      case Some(x5) =>
        var x6 := Reflect(r, x5);
        if x6 >= r.size then Some(0) else Part(r, x6)
  }

  // ----- where no product overflows, the wide instances do the same

  lemma RotateIs(r: Randomizer, x: nat)
    requires r.Valid() && x < r.size
    ensures Rotate(r, x) == r.Rotate(x) < r.size
  {
    r.RotateIs(x);
    r.Constants();
    SmallMod(r.Rotate(x), Pow2(r.w));
  }

  lemma ReflectIs(r: Randomizer, x: nat)
    requires r.Valid() && x < r.size
    ensures Reflect(r, x) == r.Reflect(x) < r.size
  {
    r.ReflectIs(x);
    r.Constants();
    SmallMod(r.Reflect(x), Pow2(r.w));
  }

  lemma ReflectSuffixIs(r: Randomizer, x: nat)
    requires r.Valid() && x < r.size
    ensures r.A() < Pow2(r.w) && ReflectSuffix(r, x) == r.ReflectSuffix(x) < r.size
  {
    r.ReflectSuffixIs(x);
    r.Constants();
    SmallMod(r.ReflectSuffix(x), Pow2(r.w));
  }

  lemma MiddleIs(r: Randomizer, x: nat)
    requires r.Valid() && x < r.size
    ensures r.A() < Pow2(r.w) && Reflect(r, ReflectSuffix(r, Reflect(r, Rotate(r, x)))) == r.Middle(x)
  {
    RotateIs(r, x);
    ReflectIs(r, r.Rotate(x));
    ReflectSuffixIs(r, r.Reflect(r.Rotate(x)));
    ReflectIs(r, r.ReflectSuffix(r.Reflect(r.Rotate(x))));
  }

  /// The number whose product with the multiplier is tested on the way from `x`.
  ghost function Tested(r: Randomizer, x: nat): nat
    requires r.Valid() && x < r.size
  {
    And(r.Middle(x), r.AA())
  }

  ghost predicate Fits(x: nat, y: nat) { x * y < INT_LIMIT }

  lemma ToggleIs(r: Randomizer, x: nat)
    requires r.Valid() && x < r.size && r.w >= 2
    ensures Toggle(r, x) == if Fits(And(x, r.AA()), r.MulT()) then Some(r.Toggle(x)) else None
  {
    var p := And(x, r.AA()) * r.MulT();
    Pow2Monotone(r.w / 2 + 1, r.w);
    AndLow(p, Pow2(r.w / 2), r.w);
  }

  lemma {:induction false} AndLow(x: nat, y: nat, k: nat)
    requires y < Pow2(k)
    ensures And(Low(x, k), y) == And(x, y)
  {
    if k > 0 {
      AndLow(x / 2, y / 2, k - 1);
      LowStep(x, k);
      AndStep(x, y);
      AndStep(Low(x, k), y);
    }
  }

  lemma PartIs(r: Randomizer, y: nat)
    requires r.Valid() && y < r.size
    ensures Part(r, y) == if Fits(Xor(y, y / 2), r.MulT()) then Some(r.Part(y)) else None
  {
    LowHigh(Xor(y, y / 2) * r.MulT(), r.w);
  }

  /// The two products on the way from `x` decide.
  lemma TransformIs(r: Randomizer, x: nat)
    requires r.Valid() && x < r.size && r.w >= 2
    ensures var y := r.Shuffle(x);
            Transform(r, x) == if Fits(Tested(r, x), r.MulT()) && Fits(Xor(y, y / 2), r.MulT())
                               then Some(r.Transform(x)) else None
  {
    MiddleIs(r, x);
    ToggleIs(r, r.Middle(x));
    r.ToggleIs(r.Middle(x));
    ReflectIs(r, r.Toggle(r.Middle(x)));
    PartIs(r, r.Shuffle(x));
    r.TransformIs(x);
  }

  // ----- when none does

  lemma SmallFits(x: nat, y: nat, a: nat, b: nat)
    requires x <= a && y <= b && a * b < INT_LIMIT
    ensures Fits(x, y)
  {
    MulAtMost(x, a, y);
    MulAtMost(y, b, a);
    assert a * y == y * a && b * a == a * b;
  }

  lemma MulTIs(r: Randomizer)
    requires Narrow(r)
    ensures r.MulT() == if r.w == 8 then 217 else 62169
  {
    LowHigh(MUL, r.w);
    Remainders(MUL, r.w);
  }

  lemma Remainders(m: nat, w: nat)
    requires m == MUL && (w == 8 || w == 16)
    ensures m % Pow2(w) == if w == 8 then 217 else 62169
  {
    WordSizes();
  }

  /// The bound on the numbers that are multiplied.
  lemma FactorsAtMost(r: Randomizer, x: nat, k: nat)
    requires r.Valid() && x < r.size <= Pow2(k)
    ensures var y := r.Shuffle(x); Tested(r, x) < Pow2(k) && Xor(y, y / 2) < Pow2(k)
  {
    AndAtMost(r.Middle(x), r.AA());
    r.GraySmall(r.Shuffle(x), k);
  }

  lemma NoOverflow(r: Randomizer, x: nat)
    requires Narrow(r) && (r.w == 8 || r.size <= 0x8000) && x < r.size
    ensures Transform(r, x) == Some(r.Transform(x))
  {
    var y := r.Shuffle(x);
    MulTIs(r);
    Powers();
    if r.w == 8 {
      FactorsAtMost(r, x, 8);
      SmallFits(Tested(r, x), r.MulT(), 255, 217);
      SmallFits(Xor(y, y / 2), r.MulT(), 255, 217);
    } else {
      FactorsAtMost(r, x, 15);
      SmallFits(Tested(r, x), r.MulT(), 32767, 62169);
      SmallFits(Xor(y, y / 2), r.MulT(), 32767, 62169);
    }
    TransformIs(r, x);
  }

  lemma Powers()
    ensures Pow2(8) == 0x100 && Pow2(14) == 0x4000 && Pow2(15) == 0x8000 && Pow2(16) == 0x1_0000
  {
    WordSizes();
    assert Pow2(16) == 2 * Pow2(15) && Pow2(15) == 2 * Pow2(14);
  }

  /// The Gray code of 2^15 is too large a factor.
  lemma Overflows(r: Randomizer, x: nat)
    requires Narrow(r) && r.w == 16 && x < r.size && r.Shuffle(x) == 0x8000
    ensures Transform(r, x) == None
  {
    MulTIs(r);
    Powers();
    LowHigh(0x8000, 14);
    XorBit(0x8000, 14);
    assert !Fits(49152, 62169);
    TransformIs(r, x);
  }

  /// Every value below the size reaches the last stage.
  lemma Reached(r: Randomizer, y: nat) returns (x: nat)
    requires r.Valid() && y < r.size
    ensures x < r.size && r.Shuffle(x) == y
  {
    var f: nat -> nat := i => Shuffled(r, i);
    forall i: nat, j: nat | i < r.size && j < r.size && f(i) == f(j) ensures i == j { r.ShuffleInjective(i, j); }
    InjectiveIsPermutation(r.size, f);
    assert Hits(r.size, f, y);
    x :| x < r.size && f(x) == y;
  }

  ghost function Shuffled(r: Randomizer, x: nat): nat { if r.Valid() && x < r.size then r.Shuffle(x) else 0 }

  /// The narrow instances transform every value as the permutation does iff they have 8 bits or the size is at most
  /// 2^15; otherwise a product overflows.
  lemma NarrowIsExactIff(r: Randomizer)
    requires Narrow(r)
    ensures (forall x: nat :: x < r.size ==> Transform(r, x) == Some(r.Transform(x))) <==> r.w == 8 || r.size <= 0x8000
    ensures (exists x: nat :: x < r.size && Transform(r, x) == None) <==> r.w == 16 && r.size > 0x8000
  {
    if r.w == 8 || r.size <= 0x8000 {
      forall x: nat | x < r.size ensures Transform(r, x) == Some(r.Transform(x)) { NoOverflow(r, x); }
    } else {
      var x := Reached(r, 0x8000);
      Overflows(r, x);
    }
  }

  /// An instance of the overflow: 1 in the range of 2^15 + 1, without an offset.
  lemma NarrowFails(r: Randomizer)
    requires r == Randomizer(16, 0x8001, 0)
    ensures Narrow(r) && Transform(r, 1) == None
  {
    Powers();
    TopBitOf(r);
    MiddleOfOne(r, 1);
    ZeroStays(r);
    r.ReflectIs(0);
    Overflows(r, 1);
  }

  lemma MiddleOfOne(r: Randomizer, x: nat)
    requires r.Valid() && r.offset == 0 && r.A() >= 2 && r.size == r.A() + 1 && x == 1
    ensures r.Middle(x) == 0
  {
    var top := r.A();
    r.RotateIs(x);
    r.ReflectIs(x);
    r.ReflectSuffixIs(top - 1);
    r.ReflectIs(top);
  }

  lemma ZeroStays(r: Randomizer)
    requires r.Valid()
    ensures r.Toggle(0) == 0
  {
    r.ToggleIs(0);
    LowOfSmall(0, r.w);
  }

  lemma TopBitOf(r: Randomizer)
    requires r.Valid() && r.w == 16 && r.size > 0x8000
    ensures r.A() == 0x8000
  {
    Powers();
    r.Constants();
    var k := BitWidth(r.size) - 1;
    BitWidthFits(16, r.size);
    if k < 15 { Pow2Monotone(k, 14); }
  }
}
