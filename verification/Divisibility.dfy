/** Divisibility, common divisors and primes. */
module Divisibility {
  import opened Arith

  predicate Divides(d: nat, n: int) { d > 0 && n % d == 0 }

  lemma DividesMultiple(d: nat, k: int)
    requires d > 0
    ensures Divides(d, k * d) && Divides(d, d * k)
  {
    MultipleMod(k, d);
  }

  lemma Quotient(d: nat, n: int) returns (k: int)
    requires Divides(d, n)
    ensures n == k * d && n / d == k
  {
    DivModOf(n, d);
    k := n / d;
  }

  lemma DividesSum(d: nat, a: int, b: int)
    requires Divides(d, a) && Divides(d, b)
    ensures Divides(d, a + b) && Divides(d, a - b)
  {
    var i := Quotient(d, a);
    var j := Quotient(d, b);
    assert a + b == (i + j) * d && a - b == (i - j) * d;
    MultipleMod(i + j, d);
    MultipleMod(i - j, d);
  }

  lemma DividesProduct(d: nat, a: int, b: int)
    requires Divides(d, a)
    ensures Divides(d, a * b) && Divides(d, b * a)
  {
    var i := Quotient(d, a);
    assert a * b == i * b * d && b * a == a * b;
    MultipleMod(i * b, d);
  }

  lemma DividesTransitive(d: nat, e: nat, n: int)
    requires Divides(d, e) && Divides(e, n)
    ensures Divides(d, n)
  {
    var k := Quotient(e, n);
    DividesProduct(d, e, k);
    assert e * k == n;
  }

  lemma DividesNegated(d: nat, n: int)
    requires Divides(d, n)
    ensures Divides(d, -n)
  {
    var k := Quotient(d, n);
    assert -n == (-k) * d;
    DividesMultiple(d, -k);
  }

  /// A positive multiple is no smaller.
  lemma DividesAtMost(d: nat, n: nat)
    requires Divides(d, n) && n > 0
    ensures d <= n
  {
    var k := Quotient(d, n);
    if k <= 0 { MulAtMost(k, 0, d); } else { MulAtMost(1, k, d); }
  }

  /// No number above 1 divides both.
  ghost predicate Coprime(a: nat, b: nat) { forall d: nat :: d > 1 && Divides(d, a) ==> !Divides(d, b) }

  /// A common divisor of two numbers that is a combination of them.
  lemma {:induction false} Bezout(a: nat, b: nat) returns (g: nat, u: int, v: int)
    requires a + b > 0
    ensures g > 0 && Divides(g, a) && Divides(g, b) && u * a + v * b == g
    decreases b
  {
    if b == 0 {
      g, u, v := a, 1, 0;
      DividesMultiple(a, 1);
      DividesMultiple(a, 0);
    } else {
      var u', v';
      g, u', v' := Bezout(b, a % b);
      DivModOf(a, b);
      u, v := v', u' - a / b * v';
      DividesProduct(g, b, a / b);
      DividesSum(g, b * (a / b), a % b);
      assert a == b * (a / b) + a % b;
      assert u' * b + v' * (a % b) == u * a + v * b by {
        assert v' * (a % b) == v' * a - v' * (a / b * b);
        assert (u' - a / b * v') * b == u' * b - a / b * v' * b;
        assert v' * (a / b * b) == a / b * v' * b;
      }
    }
  }

  /// A number that divides a product and has no common divisor with one factor divides the other.
  lemma Euclid(d: nat, a: nat, b: int)
    requires Coprime(a, d) && Divides(d, a * b)
    ensures Divides(d, b)
  {
    var g, u, v := Bezout(a, d);
    DividesProduct(d, a * b, u);
    DividesProduct(d, d, v * b);
    DividesMultiple(d, 1);
    DividesSum(d, u * (a * b), d * (v * b));
    assert u * (a * b) + d * (v * b) == (u * a + v * d) * b;
    assert g == 1;
  }
}
