/** Bitwise operators on natural numbers, one bit at a time, and what they are arithmetically. */
module Bits {
  import opened Arith

  type Byte = b: nat | b < 256

  function And(x: nat, y: nat): nat {
    if x == 0 || y == 0 then 0 else 2 * And(x / 2, y / 2) + if x % 2 == 1 && y % 2 == 1 then 1 else 0
  }

  function Or(x: nat, y: nat): nat {
    if x == 0 && y == 0 then 0 else 2 * Or(x / 2, y / 2) + if x % 2 == 1 || y % 2 == 1 then 1 else 0
  }

  function Xor(x: nat, y: nat): nat {
    if x == 0 && y == 0 then 0 else 2 * Xor(x / 2, y / 2) + if x % 2 == y % 2 then 0 else 1
  }

  /// `~x` on `w` bits.
  function Complement(w: nat, x: nat): nat
    requires x < Pow2(w)
  {
    Pow2(w) - 1 - x
  }

  /// `std::bit_width`, `std::countl_zero` and `std::bit_floor`.
  function BitWidth(x: nat): nat { if x == 0 then 0 else 1 + BitWidth(x / 2) }

  function CountlZero(w: nat, x: nat): nat
    requires BitWidth(x) <= w
  {
    w - BitWidth(x)
  }

  function BitFloor(x: nat): nat { if x == 0 then 0 else Pow2(BitWidth(x) - 1) }

  lemma {:induction false} BitWidthBounds(x: nat)
    ensures x < Pow2(BitWidth(x))
    ensures x > 0 ==> BitWidth(x) >= 1 && Pow2(BitWidth(x) - 1) <= x
  {
    if x > 0 { BitWidthBounds(x / 2); }
  }

  lemma {:induction false} BitWidthFits(w: nat, x: nat)
    requires x < Pow2(w)
    ensures BitWidth(x) <= w
  {
    if x > 0 { BitWidthFits(w - 1, x / 2); }
  }

  /// The operators bit by bit.
  lemma AndStep(x: nat, y: nat)
    ensures And(x, y) == 2 * And(x / 2, y / 2) + if x % 2 == 1 && y % 2 == 1 then 1 else 0
    ensures And(x, y) / 2 == And(x / 2, y / 2) && And(x, y) % 2 == if x % 2 == 1 && y % 2 == 1 then 1 else 0
  {
    if x == 0 || y == 0 { assert And(x / 2, y / 2) == 0; }
  }

  lemma XorStep(x: nat, y: nat)
    ensures Xor(x, y) / 2 == Xor(x / 2, y / 2) && Xor(x, y) % 2 == if x % 2 == y % 2 then 0 else 1
  {
    if x == 0 && y == 0 { assert Xor(x / 2, y / 2) == 0; }
  }

  lemma ComplementStep(w: nat, x: nat)
    requires w > 0 && x < Pow2(w)
    ensures Complement(w, x) / 2 == Complement(w - 1, x / 2) && Complement(w, x) % 2 == 1 - x % 2
  {
  }

  /// The bits of `x` below and from bit `k`.
  function Low(x: nat, k: nat): nat { if k == 0 then 0 else 2 * Low(x / 2, k - 1) + x % 2 }

  function High(x: nat, k: nat): nat { if k == 0 then x else High(x / 2, k - 1) }

  lemma {:induction false} LowHigh(x: nat, k: nat)
    ensures Low(x, k) < Pow2(k) && x == High(x, k) * Pow2(k) + Low(x, k)
    ensures Low(x, k) == x % Pow2(k) && High(x, k) == x / Pow2(k)
  {
    if k > 0 {
      LowHigh(x / 2, k - 1);
      HalfStep(x, High(x / 2, k - 1), Pow2(k - 1), Low(x / 2, k - 1));
    }
    DivModUnique(x, Pow2(k), High(x, k), Low(x, k));
  }

  lemma HalfStep(x: nat, h: nat, p: nat, l: nat)
    requires l < p && x / 2 == h * p + l
    ensures 2 * l + x % 2 < 2 * p && x == h * (2 * p) + (2 * l + x % 2)
  {
    assert h * (2 * p) == 2 * (h * p);
  }

  lemma {:induction false} LowOfSmall(x: nat, k: nat)
    requires x < Pow2(k)
    ensures Low(x, k) == x && High(x, k) == 0
  {
    if k > 0 { LowOfSmall(x / 2, k - 1); }
  }

  lemma {:induction false} HighSum(x: nat, j: nat, k: nat)
    ensures High(x, j + k) == High(High(x, j), k)
  {
    if j > 0 { HighSum(x / 2, j - 1, k); }
  }

  /// `x & (2^k - 1)`
  lemma {:induction false} AndLowMask(x: nat, k: nat)
    ensures And(Pow2(k) - 1, x) == Low(x, k) && And(x, Pow2(k) - 1) == Low(x, k)
  {
    if k > 0 {
      AndLowMask(x / 2, k - 1);
      assert (Pow2(k) - 1) / 2 == Pow2(k - 1) - 1 && (Pow2(k) - 1) % 2 == 1;
      if x == 0 { LowOfSmall(0, k - 1); }
    }
  }

  /// `x & ~(2^k - 1)`
  lemma {:induction false} AndHighMask(w: nat, x: nat, k: nat)
    requires x < Pow2(w) && k <= w
    ensures Pow2(k) <= Pow2(w) && And(x, Complement(w, Pow2(k) - 1)) == x - Low(x, k)
  {
    Pow2Monotone(k, w);
    if k > 0 {
      AndHighMask(w - 1, x / 2, k - 1);
      HighMaskStep(w, k);
      MaskedStep(x, Complement(w, Pow2(k) - 1), k);
    } else {
      AndAllOnes(w, x);
    }
  }

  lemma AndAllOnes(w: nat, x: nat)
    requires x < Pow2(w)
    ensures And(x, Pow2(w) - 1) == x && And(Pow2(w) - 1, x) == x
  {
    AndLowMask(x, w);
    LowOfSmall(x, w);
  }

  lemma MaskedStep(x: nat, mask: nat, k: nat)
    requires k > 0 && mask % 2 == 0 && And(x / 2, mask / 2) == x / 2 - Low(x / 2, k - 1)
    ensures And(x, mask) == x - Low(x, k)
  {
    AndStep(x, mask);
  }

  lemma HighMaskStep(w: nat, k: nat)
    requires 0 < k <= w && Pow2(k) <= Pow2(w)
    ensures Pow2(k - 1) <= Pow2(w - 1)
    ensures var mask := Complement(w, Pow2(k) - 1); mask % 2 == 0 && mask / 2 == Complement(w - 1, Pow2(k - 1) - 1)
  {
    HalfDifference(Pow2(w - 1), Pow2(k - 1), Complement(w, Pow2(k) - 1));
  }

  lemma HalfDifference(a: nat, b: nat, mask: int)
    requires mask == 2 * a - 1 - (2 * b - 1)
    ensures mask % 2 == 0 && mask / 2 == a - 1 - (b - 1)
  {
  }

  /// `hi | lo` without common bits
  lemma {:induction false} OrDisjoint(hi: nat, lo: nat, k: nat)
    requires Low(hi, k) == 0 && lo < Pow2(k)
    ensures Or(hi, lo) == hi + lo
  {
    if k > 0 { OrDisjoint(hi / 2, lo / 2, k - 1); } else { OrZero(hi); }
  }

  lemma {:induction false} OrZero(x: nat)
    ensures Or(x, 0) == x
  {
    if x > 0 { OrZero(x / 2); }
  }

  lemma {:induction false} XorZero(x: nat)
    ensures Xor(x, 0) == x && Xor(0, x) == x
  {
    if x > 0 { XorZero(x / 2); }
  }

  /// `x ^ 2^k` toggles one bit.
  lemma {:induction false} XorBit(x: nat, k: nat)
    ensures Xor(x, Pow2(k)) == if High(x, k) % 2 == 0 then x + Pow2(k) else x - Pow2(k)
    ensures High(x, k) % 2 == 1 ==> x >= Pow2(k)
  {
    if k == 0 {
      XorZero(x / 2);
    } else {
      var p := Pow2(k - 1);
      XorBit(x / 2, k - 1);
      XorStep(x, 2 * p);
      assert 2 * p / 2 == p && 2 * p % 2 == 0;
      assert Xor(x, 2 * p) == 2 * Xor(x / 2, p) + x % 2;
    }
  }

  /// `x & 2^k` tests one bit.
  lemma {:induction false} AndBit(x: nat, k: nat)
    ensures And(x, Pow2(k)) == if High(x, k) % 2 == 1 then Pow2(k) else 0
  {
    if k == 0 {
      AndStep(x, 1);
    } else {
      AndBit(x / 2, k - 1);
      AndStep(x, Pow2(k));
      assert Pow2(k) / 2 == Pow2(k - 1) && Pow2(k) % 2 == 0;
    }
  }

  /// The low bits of an exclusive or depend on the low bits alone.
  lemma {:induction false} XorLow(x: nat, y: nat, k: nat)
    ensures Low(Xor(x, y), k) == Xor(Low(x, k), Low(y, k))
  {
    if k > 0 {
      XorLow(x / 2, y / 2, k - 1);
      XorStep(x, y);
      XorStep(Low(x, k), Low(y, k));
      LowStep(x, k);
      LowStep(y, k);
    }
  }

  lemma LowStep(x: nat, k: nat)
    requires k > 0
    ensures Low(x, k) / 2 == Low(x / 2, k - 1) && Low(x, k) % 2 == x % 2
  {
  }

  lemma {:induction false} AndOwnComplement(w: nat, x: nat)
    requires x < Pow2(w)
    ensures And(x, Complement(w, x)) == 0
  {
    if w > 0 {
      AndOwnComplement(w - 1, x / 2);
      ComplementStep(w, x);
      AndStep(x, Complement(w, x));
    }
  }

  /// `y` leaves the binary prefix of `n` at bit `t`: the bits above agree, bit `t` is 1 in `n` and 0 in `y`.
  ghost predicate LeavesAt(n: nat, y: nat, t: nat) { High(n, t) == High(y, t) + 1 && High(y, t) % 2 == 0 }

  /// The top bit of `n & ~y` is where `y < n` leaves the prefix of `n`.
  lemma {:induction false} SplitBit(w: nat, n: nat, y: nat)
    requires y < n < Pow2(w)
    ensures And(n, Complement(w, y)) > 0 && LeavesAt(n, y, BitWidth(And(n, Complement(w, y))) - 1)
  {
    ComplementStep(w, y);
    AndStep(n, Complement(w, y));
    if y / 2 < n / 2 {
      var rest := And(n / 2, Complement(w - 1, y / 2));
      SplitBit(w - 1, n / 2, y / 2);
      BitWidthHalf(And(n, Complement(w, y)), rest);
      LeavesHalf(n, y, BitWidth(rest) - 1);
    } else {
      SplitHere(w, n, y);
    }
  }

  lemma SplitHere(w: nat, n: nat, y: nat)
    requires y < n < Pow2(w) && y / 2 == n / 2
    ensures And(n, Complement(w, y)) == 1 && LeavesAt(n, y, BitWidth(And(n, Complement(w, y))) - 1)
  {
    ComplementStep(w, y);
    AndStep(n, Complement(w, y));
    AndOwnComplement(w - 1, n / 2);
    BitWidthHalf(1, 0);
  }

  lemma BitWidthHalf(x: nat, half: nat)
    requires x > 0 && half == x / 2
    ensures BitWidth(x) == 1 + BitWidth(half)
  {
  }

  lemma LeavesHalf(n: nat, y: nat, t: nat)
    requires LeavesAt(n / 2, y / 2, t)
    ensures LeavesAt(n, y, t + 1)
  {
  }

  lemma {:induction false} AndAtMost(x: nat, y: nat)
    ensures And(x, y) <= x
  {
    if x > 0 && y > 0 { AndAtMost(x / 2, y / 2); }
  }

  /// That bit is unique.
  lemma LeavesOnce(n: nat, y: nat, t: nat, u: nat)
    requires LeavesAt(n, y, t) && LeavesAt(n, y, u)
    ensures t == u
  {
    if t < u { LeavesBefore(n, y, t, u); } else if u < t { LeavesBefore(n, y, u, t); }
  }

  lemma LeavesBefore(n: nat, y: nat, t: nat, u: nat)
    requires LeavesAt(n, y, t) && t < u
    ensures High(n, u) == High(y, u)
  {
    HighSum(n, t, u - t);
    HighSum(y, t, u - t);
    assert High(n, t) / 2 == High(y, t) / 2;
  }

  // ----- low bits of sums and products

  lemma MultipleLow(h: nat, t: nat)
    ensures Low(h * Pow2(t), t) == 0
  {
    LowHigh(h * Pow2(t), t);
    MultipleMod(h, Pow2(t));
  }

  lemma Compose(h: nat, l: nat, t: nat)
    requires l < Pow2(t)
    ensures High(h * Pow2(t) + l, t) == h && Low(h * Pow2(t) + l, t) == l
  {
    LowHigh(h * Pow2(t) + l, t);
    DivModUnique(h * Pow2(t) + l, Pow2(t), h, l);
  }

  lemma LowProduct(x: nat, y: nat, t: nat)
    ensures Low(x * y, t) == Low(Low(x, t) * y, t) == Low(y * Low(x, t), t)
  {
    var h, p, l := High(x, t), Pow2(t), Low(x, t);
    assert x == h * p + l by { LowHigh(x, t); }
    Distribute(x, h, p, l, y);
    LowShift(l * y, h * y, t);
  }

  lemma Distribute(x: nat, h: nat, p: nat, l: nat, y: nat)
    requires x == h * p + l
    ensures x * y == h * y * p + l * y && l * y == y * l
  {
    assert x * y == h * p * y + l * y;
    assert h * p * y == h * y * p;
  }

  lemma LowShift(x: nat, k: nat, t: nat)
    ensures Low(k * Pow2(t) + x, t) == Low(x, t)
  {
    LowHigh(x, t);
    LowHigh(k * Pow2(t) + x, t);
    ModShift(x, Pow2(t), k);
  }

  lemma {:induction false} LowLow(x: nat, w: nat, t: nat)
    requires t <= w
    ensures Low(Low(x, w), t) == Low(x, t)
  {
    if t > 0 {
      LowStep(x, w);
      LowLow(x / 2, w - 1, t - 1);
    }
  }

  /// The bits below `w` stay when those from `w` on are dropped.
  lemma {:induction false} HighOfLow(x: nat, k: nat, w: nat)
    requires k < w
    ensures High(Low(x, w), k) % 2 == High(x, k) % 2
  {
    LowStep(x, w);
    if k > 0 { HighOfLow(x / 2, k - 1, w - 1); }
  }

  lemma LowOfHalf(y: nat, t: nat)
    requires High(y, t) % 2 == 0
    ensures Low(y / 2, t) == Low(y, t) / 2
  {
    if t > 0 {
      LowStep(y, t);
      LowSkip(y / 2, t - 1);
    }
  }

  lemma {:induction false} LowSkip(x: nat, k: nat)
    requires High(x, k) % 2 == 0
    ensures Low(x, k + 1) == Low(x, k)
  {
    if k > 0 { LowSkip(x / 2, k - 1); }
  }

  /// Multiplication by an odd number loses nothing modulo a power of two.
  lemma {:induction false} OddCancels(d: int, m: int, t: nat)
    requires m % 2 == 1 && (d * m) % Pow2(t) == 0
    ensures d % Pow2(t) == 0
    decreases t
  {
    if t > 0 {
      var p, q := Pow2(t - 1), d * m / Pow2(t);
      DivModOf(d * m, Pow2(t));
      assert d * m == 2 * (q * p);
      OddEven(d, m, q * p);
      var e := d / 2;
      assert e * m == q * p by { assert d * m == 2 * (e * m); }
      MultipleMod(q, p);
      OddCancels(e, m, t - 1);
      DivModOf(e, p);
      assert d == e / p * Pow2(t) by { assert e / p * (2 * p) == 2 * (e / p * p); }
      MultipleMod(e / p, Pow2(t));
    }
  }

  lemma OddEven(d: int, m: int, h: int)
    requires m % 2 == 1 && d * m == 2 * h
    ensures d % 2 == 0
  {
    var n := m / 2;
    assert d * m == 2 * (d * n) + d by { assert m == 2 * n + 1; }
    assert d == 2 * (h - d * n);
  }
}
