/**
 Division by an invariant divisor through a precomputed reciprocal (include/thesauros/math/divmod.hpp).

 `bits` is the width of the value type; with `W = 2^bits` the reciprocal is a number below `W * W`, the range
 of the wide type, and wide arithmetic wraps there.
 */
module Divisor {
  import opened Arith
  import opened Bits

  /// The number of values of the wide type.
  function Wide(w: nat): (ww: nat)
    requires w > 0
    ensures ww >= w
  {
    MulAtMost(1, w, w);
    w * w
  }

  datatype Divisor = Divisor(bits: nat, divisor: nat, inverse: nat, mask: nat, modFactor: nat)

  function Invert(w: nat, d: nat): nat
    requires w > 0 && d > 0
  {
    ((Wide(w) - 1) / d + 1) % Wide(w)
  }

  function Make(bits: nat, d: nat): Divisor
    requires d > 0
  {
    var w := Pow2(bits);
    var inverse := Invert(w, d);
    Divisor(bits, d, inverse, if inverse == 0 then w - 1 else 0, if inverse == 0 then 1 else d)
  }

  /// `mul_frac_int` of the 8, 16 and 32-bit instances, whose full product fits into a machine integer.
  function MulFracWhole(w: nat, a: nat, b: nat): nat
    requires w > 0
  {
    Truncate(w, a * b / Wide(w))
  }

  function Truncate(w: nat, x: nat): nat
    requires w > 0
  {
    x % w
  }

  /// `mul_frac_int` of the 64-bit instance, which adds two partial products.
  function MulFracSplit(w: nat, a: nat, b: nat): nat
    requires w > 0
  {
    var p1 := a % w * b / w;
    var p2 := a / w * b;
    UpperHalf(w, (p1 + p2) % Wide(w))
  }

  function UpperHalf(w: nat, p: nat): nat
    requires w > 0
  {
    Truncate(w, p / w)
  }

  function MulFracInt(bits: nat, a: nat, b: nat): nat {
    if bits == 64 then MulFracSplit(Pow2(bits), a, b) else MulFracWhole(Pow2(bits), a, b)
  }

  /// The operators `/` and `%`, `divmod` and `is_divisible`.
  function Div(a: nat, d: Divisor): nat { (MulFracInt(d.bits, d.inverse, a) + And(d.mask, a)) % Pow2(d.bits) }

  function Mod(a: nat, d: Divisor): nat { MulFracInt(d.bits, d.inverse * a % Wide(Pow2(d.bits)), d.divisor) }

  function DivMod(a: nat, d: Divisor): (nat, nat) {
    var w, div := Pow2(d.bits), Div(a, d);
    (div, Rest(w, a, div, d.modFactor))
  }

  /// `dividend - div * mod_factor`, both operators wrapping.
  function Rest(w: nat, a: nat, div: nat, factor: nat): nat
    requires w > 0
  {
    (a + w - div * factor % w) % w
  }

  /// The product of the 8-bit instance is promoted and does not wrap, and neither does the difference.
  predicate IsDivisible(n: nat, d: Divisor) {
    if d.bits == 8 then n * d.inverse <= d.inverse - 1
    else
      var ww := Wide(Pow2(d.bits));
      n * d.inverse % ww <= (d.inverse + ww - 1) % ww
  }

  // ----- the reciprocal

  /// For `d >= 2` the reciprocal exceeds `W * W / d` by less than one, for `d == 1` it wraps to zero.
  lemma Reciprocal(w: nat, d: nat) returns (e: nat)
    requires 0 < d < w
    ensures d >= 2 ==> e < d && Invert(w, d) * d == Wide(w) + e && 0 < Invert(w, d) < Wide(w)
    ensures d == 1 ==> Invert(w, d) == 0
  {
    var ww := Wide(w);
    var k := (ww - 1) / d;
    DivModOf(ww - 1, d);
    if d == 1 {
      e := 0;
      DivModUnique(ww, ww, 1, 0);
    } else {
      e := d - 1 - (ww - 1) % d;
      assert (k + 1) * d == ww + e;
      MulAtMost(2, d, k + 1);
      assert 2 * (k + 1) < 2 * ww;
      DivModUnique(k + 1, ww, 0, k + 1);
    }
  }

  lemma SmallProduct(w: nat, x: nat, y: nat)
    requires x < w && y <= w
    ensures x * y < Wide(w)
  {
    MulAtMost(y, w, x);
    MulCancels(x, w, w);
    assert x * y == y * x && x * w == w * x;
  }

  /// What the wide product holds: the quotient above, and below a number that scaled by `d` is the remainder.
  lemma Product(ww: nat, d: nat, inverse: nat, e: nat, a: nat)
    requires d > 0 && inverse * d == ww + e && e * a < ww
    ensures inverse * a / ww == a / d
    ensures inverse * a % ww * d == ww * (a % d) + e * a
    ensures inverse * a % ww * d / ww == a % d
  {
    var n, r := a / d, a % d;
    DivModOf(a, d);
    var low := inverse * a - n * ww;
    assert low * d == ww * r + e * a by {
      assert inverse * a * d == inverse * d * a;
      assert (ww + e) * a == ww * a + e * a;
      assert ww * (n * d + r) == n * ww * d + ww * r;
    }
    Between(low, d, ww, r, e * a);
    DivModUnique(inverse * a, ww, n, low);
    assert low * d == r * ww + e * a;
    DivModUnique(low * d, ww, r, e * a);
  }

  lemma Between(low: int, d: nat, ww: nat, r: nat, x: nat)
    requires low * d == ww * r + x && r < d && x < ww
    ensures 0 <= low < ww
  {
    MulAtMost(r + 1, d, ww);
    assert low * d < d * ww;
    MulCancels(low, ww, d);
    MulCancels(-1, low, d);
  }

  // ----- the fixed-point products

  lemma SplitSum(w: nat, lo: nat, hi: nat, b: nat)
    requires 0 < w
    ensures (hi * w + lo) * b / w == lo * b / w + hi * b
  {
    DivModOf(lo * b, w);
    var p := lo * b / w + hi * b;
    assert (hi * w + lo) * b == hi * b * w + lo * b by { assert hi * w * b == hi * b * w; }
    assert (hi * w + lo) * b == p * w + lo * b % w;
    DivModUnique((hi * w + lo) * b, w, p, lo * b % w);
  }

  lemma SplitProduct(w: nat, a: nat, b: nat)
    requires 0 < w && b < w && a < w * w
    ensures a / w < w && a % w * b < w * w
    ensures 0 <= a % w * b / w + a / w * b < w * w
    ensures (a % w * b / w + a / w * b) / w == a * b / (w * w)
  {
    DivModOf(a, w);
    QuotientBelow(a, w, w);
    SplitParts(w, a % w, a / w, b, a);
  }

  lemma SplitParts(w: nat, lo: nat, hi: nat, b: nat, a: nat)
    requires 0 < w && b < w && lo < w && a == hi * w + lo && a < w * w
    ensures lo * b < w * w
    ensures 0 <= lo * b / w + hi * b < w * w
    ensures (lo * b / w + hi * b) / w == a * b / (w * w)
  {
    SmallProduct(w, lo, b);
    SplitSum(w, lo, hi, b);
    DivDiv(a * b, w, w);
    BelowCube(w, a, b);
    QuotientBelow(a * b, w * w, w);
  }

  lemma QuotientBelow(x: nat, q: int, w: nat)
    requires w > 0 && x < q * w
    ensures 0 <= x / w < q
  {
    DivModOf(x, w);
    MulCancels(x / w, q, w);
  }

  lemma BelowCube(w: nat, a: nat, b: nat)
    requires 0 < w && b < w && a < w * w
    ensures a * b < w * w * w
  {
    MulAtMost(b, w, a);
    MulCancels(a, w * w, w);
    assert a * b == b * a && w * a == a * w;
  }

  lemma Small(x: nat, m: nat)
    requires x < m
    ensures x % m == x
  {
    DivModUnique(x, m, 0, x);
  }

  /// The two partial products never overflow the wide type, and their sum loses nothing.
  lemma SplitIsWhole(w: nat, a: nat, b: nat)
    requires 0 < w && a < Wide(w) && b < w
    ensures a / w < w && a % w * b < Wide(w) && a % w * b / w + a / w * b < Wide(w)
    ensures MulFracSplit(w, a, b) == MulFracWhole(w, a, b)
  {
    SplitProduct(w, a, b);
    Small(a % w * b / w + a / w * b, Wide(w));
  }

  lemma MulFracExact(bits: nat, a: nat, b: nat)
    requires a < Wide(Pow2(bits)) && b < Pow2(bits)
    ensures MulFracInt(bits, a, b) == MulFracWhole(Pow2(bits), a, b)
  {
    SplitIsWhole(Pow2(bits), a, b);
  }

  // ----- exactness

  lemma QuotientAtMost(a: nat, d: nat)
    requires d > 0
    ensures a / d <= a && a % d <= a
  {
    DivModOf(a, d);
    MulAtMost(1, d, a / d);
  }

  lemma MulFracZero(w: nat, b: nat)
    requires w > 0
    ensures MulFracWhole(w, 0, b) == 0
  {
    DivModUnique(0, Wide(w), 0, 0);
    Small(0, w);
  }

  /// The scaled reciprocal gives the quotient, the scaled low part of the product the remainder.
  lemma Fractions(w: nat, a: nat, d: nat)
    requires 2 <= d < w && a < w
    ensures Invert(w, d) < Wide(w)
    ensures MulFracWhole(w, Invert(w, d), a) == a / d
    ensures MulFracWhole(w, Invert(w, d) * a % Wide(w), d) == a % d
  {
    var e := Reciprocal(w, d);
    SmallProduct(w, e, a);
    Product(Wide(w), d, Invert(w, d), e, a);
    QuotientAtMost(a, d);
    Small(a / d, w);
    Small(a % d, w);
  }

  /// The quotient is the true one for every divisor, 1 included.
  lemma DivIsExact(bits: nat, a: nat, d: nat)
    requires 0 < d < Pow2(bits) && a < Pow2(bits)
    ensures Div(a, Make(bits, d)) == a / d
  {
    if d == 1 { DivByOne(bits, a); } else { DivByMore(bits, a, d); }
  }

  /// The mask restores what the wrapped reciprocal loses.
  lemma DivByOne(bits: nat, a: nat)
    requires 1 < Pow2(bits) && a < Pow2(bits)
    ensures Div(a, Make(bits, 1)) == a
  {
    MakeOne(bits);
    MulFracIntZero(bits, a);
    AndAllOnes(bits, a);
    OnlyMask(a, Make(bits, 1));
  }

  lemma OnlyMask(a: nat, d: Divisor)
    requires MulFracInt(d.bits, d.inverse, a) == 0 && And(d.mask, a) == a && a < Pow2(d.bits)
    ensures Div(a, d) == a
  {
    Small(a, Pow2(d.bits));
  }

  lemma MakeOne(bits: nat)
    requires 1 < Pow2(bits)
    ensures Make(bits, 1) == Divisor(bits, 1, 0, Pow2(bits) - 1, 1)
  {
    var e := Reciprocal(Pow2(bits), 1);
  }

  lemma MulFracIntZero(bits: nat, a: nat)
    requires a < Pow2(bits)
    ensures MulFracInt(bits, 0, a) == 0
  {
    MulFracExact(bits, 0, a);
    MulFracZero(Pow2(bits), a);
  }

  lemma DivByMore(bits: nat, a: nat, d: nat)
    requires 2 <= d < Pow2(bits) && a < Pow2(bits)
    ensures Div(a, Make(bits, d)) == a / d
  {
    var w := Pow2(bits);
    var e := Reciprocal(w, d);
    MulFracExact(bits, Invert(w, d), a);
    QuotientAtMost(a, d);
    Small(a / d, w);
    Fractions(w, a, d);
    assert And(0, a) == 0;
  }

  /// So is the remainder.
  lemma ModIsExact(bits: nat, a: nat, d: nat)
    requires 0 < d < Pow2(bits) && a < Pow2(bits)
    ensures Mod(a, Make(bits, d)) == a % d
  {
    var w := Pow2(bits);
    var inverse := Invert(w, d);
    var e := Reciprocal(w, d);
    MulFracExact(bits, inverse * a % Wide(w), d);
    if d == 1 {
      Small(0, Wide(w));
      MulFracZero(w, d);
    } else {
      Fractions(w, a, d);
    }
  }

  lemma DivModIsExact(bits: nat, a: nat, d: nat)
    requires 0 < d < Pow2(bits) && a < Pow2(bits)
    ensures DivMod(a, Make(bits, d)) == (a / d, a % d)
  {
    var w := Pow2(bits);
    var e := Reciprocal(w, d);
    DivIsExact(bits, a, d);
    assert Make(bits, d).modFactor == d;
    RestIsMod(w, a, d);
  }

  lemma RestIsMod(w: nat, a: nat, d: nat)
    requires 0 < d < w && a < w
    ensures Rest(w, a, a / d, d) == a % d
  {
    QuotientAtMost(a, d);
    DivModOf(a, d);
    Small(a / d * d, w);
    DivModUnique(a + w - a / d * d, w, 1, a % d);
  }

  lemma LowPart(ww: nat, d: nat, inverse: nat, e: nat, n: nat)
    requires d > 0 && inverse * d == ww + e && e * n < ww
    ensures inverse * n % ww < inverse <==> n % d == 0
  {
    Product(ww, d, inverse, e, n);
    MulCancels(inverse * n % ww, inverse, d);
    if n % d != 0 {
      MulAtMost(1, n % d, ww);
      QuotientAtMost(n, d);
      MulAtMost(1, n, e);
      assert ww * (n % d) == n % d * ww && e * n == n * e;
    }
  }

  /// Where the wide product wraps, the divisibility test is exact.
  lemma IsDivisibleIsExact(bits: nat, n: nat, d: nat)
    requires 0 < d < Pow2(bits) && n < Pow2(bits) && bits != 8
    ensures IsDivisible(n, Make(bits, d)) <==> n % d == 0
  {
    var w := Pow2(bits);
    var inverse, ww := Invert(w, d), Wide(w);
    var e := Reciprocal(w, d);
    assert n * inverse == inverse * n;
    if d == 1 {
      Small(ww - 1, ww);
      Small(0, ww);
    } else {
      SmallProduct(w, e, n);
      LowPart(ww, d, inverse, e, n);
      DivModUnique(inverse + ww - 1, ww, 1, inverse - 1);
    }
  }

  /// In the 8-bit instance it is not: it holds of 0 alone, and for `d == 1` of nothing.
  lemma IsDivisibleNarrow(n: nat, d: nat)
    requires 0 < d < Pow2(8) && n < Pow2(8)
    ensures IsDivisible(n, Make(8, d)) <==> n == 0 && d >= 2
  {
    var e := Reciprocal(Pow2(8), d);
    if n > 0 { MulAtMost(1, n, Invert(Pow2(8), d)); }
  }

  /// So it agrees with divisibility exactly on the numbers that are not multiples, and on 0 if `d >= 2`.
  lemma IsDivisibleNarrowIff(n: nat, d: nat)
    requires 0 < d < Pow2(8) && n < Pow2(8)
    ensures (IsDivisible(n, Make(8, d)) <==> n % d == 0) <==> n % d != 0 || (n == 0 && d >= 2)
  {
    IsDivisibleNarrow(n, d);
    OnlyZero(IsDivisible(n, Make(8, d)), n, d);
  }

  lemma OnlyZero(divisible: bool, n: int, d: int)
    requires 0 < d && (divisible <==> n == 0 && d >= 2)
    ensures (divisible <==> n % d == 0) <==> n % d != 0 || (n == 0 && d >= 2)
  {
  }

  lemma IsDivisibleNarrowFails()
    ensures !IsDivisible(6, Make(8, 3)) && 6 % 3 == 0
    ensures !IsDivisible(0, Make(8, 1)) && 0 % 1 == 0
  {
    assert Pow2(8) == 256;
    IsDivisibleNarrow(6, 3);
    IsDivisibleNarrow(0, 1);
  }
}
