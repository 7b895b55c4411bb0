/** Facts about unbounded integers that several components rest on. */
module Arith {
  function Pow2(k: nat): (p: nat)
    ensures p > 0
  {
    if k == 0 then 1 else 2 * Pow2(k - 1)
  }

  lemma {:induction false} Pow2Add(j: nat, k: nat)
    ensures Pow2(j + k) == Pow2(j) * Pow2(k)
  {
    if j > 0 {
      Pow2Add(j - 1, k);
      DoubledProduct(Pow2(j - 1), Pow2(k));
    }
  }

  lemma DoubledProduct(a: int, b: int)
    ensures 2 * a * b == 2 * (a * b)
  {
  }

  /// The sizes of the fixed-width types.
  lemma WordSizes()
    ensures Pow2(8) == 0x100 && Pow2(16) == 0x1_0000 && Pow2(32) == 0x1_0000_0000
    ensures Pow2(63) == 0x8000_0000_0000_0000 && Pow2(64) == 0x1_0000_0000_0000_0000
  {
    assert Pow2(8) == 0x100;
    Pow2Add(8, 8);
    Pow2Add(16, 16);
    Pow2Add(32, 32);
    assert Pow2(64) == 2 * Pow2(63);
  }

  lemma {:induction false} Pow2Monotone(j: nat, k: nat)
    requires j <= k
    ensures Pow2(j) <= Pow2(k)
  {
    if j < k { Pow2Monotone(j, k - 1); }
  }

  /// Quotient and remainder are determined by their defining equation.
  lemma DivModUnique(a: int, d: int, q: int, r: int)
    requires 0 <= r < d && a == q * d + r
    ensures a / d == q && a % d == r
  {
    var q', r' := a / d, a % d;
    assert (q - q') * d == r' - r;
    if q < q' { MulAtMost(q - q', -1, d); } else if q > q' { MulAtMost(1, q - q', d); }
  }

  lemma SmallMod(x: nat, d: nat)
    requires x < d
    ensures x % d == x
  {
  }

  lemma ExactQuotient(a: nat, d: nat, q: nat)
    requires d > 0 && a == d * q
    ensures a / d == q
  {
    DivModUnique(a, d, q, 0);
  }

  lemma MulAtMost(a: int, b: int, c: int)
    requires a <= b && 0 <= c
    ensures a * c <= b * c
  {
  }

  lemma Reassociate(a: int, b: int, c: int)
    ensures a * (b * c) == a * b * c
  {
  }

  lemma MulCancels(a: int, b: int, c: int)
    requires 0 < c
    ensures a * c < b * c <==> a < b
    ensures a * c <= b * c <==> a <= b
  {
    if a < b { MulAtMost(a + 1, b, c); } else { MulAtMost(b, a, c); }
    if b < a { MulAtMost(b + 1, a, c); }
  }

  lemma DivModOf(a: int, d: int)
    requires d > 0
    ensures a == a / d * d + a % d && 0 <= a % d < d
  {
  }

  /// Multiples of the modulus do not matter.
  lemma ModShift(a: int, d: int, k: int)
    requires d > 0
    ensures (a + k * d) % d == a % d
  {
    assert a + k * d == (a / d + k) * d + a % d;
    DivModUnique(a + k * d, d, a / d + k, a % d);
  }

  /// Two numbers have the same remainder iff they differ by a multiple of the modulus.
  lemma SameMod(a: int, b: int, d: int)
    requires d > 0
    ensures a % d == b % d <==> (a - b) % d == 0
  {
    if a % d == b % d {
      DivModOf(a, d);
      DivModOf(b, d);
      DifferenceOfMultiples(a / d, b / d, d);
      DivModUnique(a - b, d, a / d - b / d, 0);
    } else if (a - b) % d == 0 {
      DivModOf(a - b, d);
      ModShift(b, d, (a - b) / d);
    }
  }

  lemma DifferenceOfMultiples(p: int, q: int, d: int)
    ensures p * d - q * d == (p - q) * d
  {
  }

  lemma MultipleMod(k: int, d: int)
    requires d > 0
    ensures (k * d) % d == 0 && k * d / d == k
  {
    DivModUnique(k * d, d, k, 0);
  }

  /// A sum can be reduced first.
  lemma ModSum(a: int, b: int, d: int)
    requires d > 0
    ensures (a + b) % d == (a % d + b) % d
  {
    ModShift(a % d + b, d, a / d);
  }

  lemma DivDiv(a: nat, d: nat, e: nat)
    requires d > 0 && e > 0
    ensures d * e > 0 && a / d / e == a / (d * e)
  {
    MulAtMost(1, d, e);
    var q, r, r' := a / d / e, a % d, a / d % e;
    assert a == q * (d * e) + (r' * d + r) by {
      DivModOf(a, d);
      DivModOf(a / d, e);
      assert a / d * d == q * e * d + r' * d;
      assert q * e * d == q * (d * e);
    }
    assert r' * d + r < d * e by { MulAtMost(r' + 1, e, d); }
    DivModUnique(a, d * e, q, r' * d + r);
  }
}
