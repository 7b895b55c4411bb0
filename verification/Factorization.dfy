/**
 Trial division on the wheel modulo 30 (include/thesauros/math/factorization.hpp), on `bits`-bit numbers.

 `d * d` wraps in the 32 and 64-bit instances and the increment of `d` wraps in all of them. What is emitted
 into a sink is a list of events: the map sink emplaces one entry per event, the flat one appends `count` copies.
 */
module Factorization {
  import opened Arith
  import opened Divisibility
  import opened Sequences

  predicate Width(bits: nat) { bits == 8 || bits == 16 || bits == 32 || bits == 64 }

  ghost predicate Prime(p: nat) { p > 1 && NoDivisorBelow(p, p) }

  /// No number in `(1, d)` divides `n`.
  ghost predicate NoDivisorBelow(n: nat, d: nat) { forall k: nat :: 1 < k < d ==> !Divides(k, n) }

  function Pow(b: nat, e: nat): nat { if e == 0 then 1 else b * Pow(b, e - 1) }

  datatype Event = Event(key: nat, count: nat)

  function Product(events: seq<Event>): nat {
    if |events| == 0 then 1
    else Product(events[..|events| - 1]) * Pow(events[|events| - 1].key, events[|events| - 1].count)
  }

  /// Distinct primes in ascending order, each with a positive count.
  ghost predicate Primes(events: seq<Event>) {
    && (forall i :: 0 <= i < |events| ==> Prime(events[i].key) && events[i].count > 0)
    && (forall i, j :: 0 <= i < j < |events| ==> events[i].key < events[j].key)
  }

  ghost predicate PrimesBelow(events: seq<Event>, bound: nat) {
    Primes(events) && forall i :: 0 <= i < |events| ==> events[i].key < bound
  }

  function CountrZero(n: nat): nat
    requires n > 0
  {
    if n % 2 == 1 then 0 else 1 + CountrZero(n / 2)
  }

  /// `increments[i]`, in order 4, 2, 4, 2, 4, 6, 2, 6
  function Increment(i: nat): nat { if i == 5 || i == 7 then 6 else if i % 2 == 0 && i != 6 then 4 else 2 }

  /// The residue modulo 30 at which the wheel stands before its increment `i`.
  function Residue(i: nat): nat {
    match i
    case 0 => 7
    case 1 => 11
    case 2 => 13
    case 3 => 17
    case 4 => 19
    case 5 => 23
    case 6 => 29
    case _ => 1
  }

  /// `d * d`, promoted to a wide enough type in the narrow instances.
  function Square(bits: nat, d: nat): nat { if bits >= 32 then d * d % Pow2(bits) else d * d }

  // ----- the algorithm

  /// `for (; n % d == 0; ++iter) n /= d`
  method DivideOut(n: nat, d: nat) returns (count: nat, rest: nat)
    requires n > 0 && d > 1
    ensures rest > 0 && n == Pow(d, count) * rest && !Divides(d, rest)
    ensures count > 0 <==> Divides(d, n)
  {
    count, rest := 0, n;
    while rest % d == 0
      invariant rest > 0 && n == Pow(d, count) * rest
      invariant count == 0 ==> rest == n
      invariant count > 0 ==> Divides(d, n)
      decreases rest
    {
      var q := Quotient(d, rest);
      PowStep(n, d, count, rest, q);
      count, rest := count + 1, rest / d;
    }
  }

  lemma PowStep(n: nat, d: nat, count: nat, rest: nat, q: int)
    requires d > 1 && rest > 0 && rest == q * d && n == Pow(d, count) * rest
    ensures q > 0 && q < rest && n == Pow(d, count + 1) * q && Divides(d, n)
  {
    if q <= 0 { MulAtMost(q, 0, d); }
    MulAtMost(2, d, q);
    assert Pow(d, count) * (q * d) == d * Pow(d, count) * q;
    DividesMultiple(d, Pow(d, count) * q);
    assert Pow(d, count) * q * d == Pow(d, count) * (q * d);
  }

  /// A sink that receives nothing for a count of zero.
  function Emitted(events: seq<Event>, key: nat, count: nat): seq<Event> {
    if count > 0 then events + [Event(key, count)] else events
  }

  /// What the loops keep: the emitted powers times the rest are the input, and no number below `d` divides the rest.
  ghost predicate Inv(n0: nat, events: seq<Event>, n: nat, d: nat) {
    n > 0 && Product(events) * n == n0 && NoDivisorBelow(n, d) && PrimesBelow(events, d)
  }

  /// The candidate stands on the wheel, and everything is in range.
  ghost predicate WheelInv(bits: nat, n0: nat, events: seq<Event>, n: nat, d: nat, i: nat) {
    i < 8 && 7 <= d < Pow2(bits) && d % 30 == Residue(i) && n < Pow2(bits) && Inv(n0, events, n, d)
  }

  /// `d += increments[i]`
  function Advance(bits: nat, d: nat, i: nat): nat
    requires i < 8
  {
    (d + Increment(i)) % Pow2(bits)
  }

  /// The factors 2, 3 and 5.
  method RemoveSmall(n0: nat) returns (events: seq<Event>, n: nat)
    requires n0 > 0
    ensures Inv(n0, events, n, 7) && n <= n0
  {
    events, n := EmitTwos(n0);
    for j := 0 to 2
      invariant Inv(n0, events, n, 3 + 2 * j) && n <= n0
    {
      var d := [3, 5][j];
      events, n := EmitFactor(n0, events, n, d);
      SkipEven(n0, events, n, d);
    }
  }

  /// `n >>= countr_zero(n)`
  method EmitTwos(n0: nat) returns (events: seq<Event>, n: nat)
    requires n0 > 0
    ensures Inv(n0, events, n, 3) && n <= n0
  {
    Start(n0);
    RemoveTwos(n0);
    var twos := CountrZero(n0);
    n := n0 / Pow2(twos);
    Round(n0, [], n0, 2, twos, n);
    events := Emitted([], 2, twos);
  }

  method EmitFactor(ghost n0: nat, before: seq<Event>, n: nat, d: nat) returns (events: seq<Event>, rest: nat)
    requires d > 1 && Inv(n0, before, n, d)
    ensures Inv(n0, events, rest, d + 1) && rest <= n
  {
    var count;
    count, rest := DivideOut(n, d);
    Round(n0, before, n, d, count, rest);
    events := Emitted(before, d, count);
  }

  method Factorize(bits: nat, n0: nat) returns (events: seq<Event>)
    requires Width(bits) && 0 < n0 < Pow2(bits)
    ensures Primes(events) && Product(events) == n0
  {
    var n;
    events, n := RemoveSmall(n0);
    var d: nat, i: nat := 7, 0;
    WidthIs(bits);
    while Square(bits, d) <= n
      invariant WheelInv(bits, n0, events, n, d, i)
      decreases Pow2(bits) - d
    {
      var count, rest := DivideOut(n, d);
      WheelRound(bits, n0, events, n, d, i, count, rest);
      events, n := Emitted(events, d, count), rest;
      d, i := Advance(bits, d, i), (i + 1) % 8;
    }
    Finish(bits, n0, events, n, d);
    if n > 1 { events := Emitted(events, n, 1); }
  }

  // ----- the parts of the proof

  lemma {:induction false} TwosOut(n: nat) returns (q: nat)
    requires n > 0
    ensures n == Pow2(CountrZero(n)) * q && q % 2 == 1 && 0 < q <= n
  {
    q := n;
    if n % 2 == 0 {
      q := TwosOut(n / 2);
      var p := Pow2(CountrZero(n / 2));
      assert (2 * p) * q == 2 * (p * q);
    }
  }

  lemma {:induction false} PowOfTwo(k: nat)
    ensures Pow(2, k) == Pow2(k)
  {
    if k > 0 { PowOfTwo(k - 1); }
  }

  lemma RemoveTwos(n: nat)
    requires n > 0
    ensures 0 < n / Pow2(CountrZero(n)) <= n && n == Pow(2, CountrZero(n)) * (n / Pow2(CountrZero(n)))
    ensures n / Pow2(CountrZero(n)) % 2 == 1
    ensures CountrZero(n) > 0 <==> Divides(2, n)
  {
    var q := TwosOut(n);
    ExactQuotient(n, Pow2(CountrZero(n)), q);
    PowOfTwo(CountrZero(n));
  }

  /// Emitting `d ^ count` keeps the product.
  lemma Emit(events: seq<Event>, d: nat, count: nat, n0: nat, n: nat, rest: nat)
    requires Product(events) * n == n0 && n == Pow(d, count) * rest
    requires count > 0 && Prime(d) && PrimesBelow(events, d)
    ensures Product(events + [Event(d, count)]) * rest == n0 && PrimesBelow(events + [Event(d, count)], d + 1)
  {
    ProductSnoc(events, Event(d, count));
    Reassociate(Product(events), Pow(d, count), rest);
  }

  lemma ProductSnoc(events: seq<Event>, e: Event)
    ensures Product(events + [e]) == Product(events) * Pow(e.key, e.count)
  {
    assert (events + [e])[..|events|] == events;
  }

  /// Once `d` is divided out, no number up to `d` divides what is left; and `d` only divided if it is prime.
  lemma NextDivisor(n: nat, d: nat, count: nat, rest: nat)
    requires n > 0 && rest > 0 && d > 1 && NoDivisorBelow(n, d) && n == Pow(d, count) * rest && !Divides(d, rest)
    ensures NoDivisorBelow(rest, d + 1)
    ensures Divides(d, n) ==> Prime(d)
  {
    forall k: nat | 1 < k < d + 1 ensures !Divides(k, rest) {
      if k < d && Divides(k, rest) { DividesProduct(k, rest, Pow(d, count)); }
    }
    if Divides(d, n) {
      forall k: nat | 1 < k < d ensures !Divides(k, d) {
        if Divides(k, d) { DividesTransitive(k, d, n); }
      }
    }
  }

  /// One candidate of any of the loops.
  lemma Round(n0: nat, events: seq<Event>, n: nat, d: nat, count: nat, rest: nat)
    requires d > 1 && rest > 0 && Inv(n0, events, n, d)
    requires n == Pow(d, count) * rest && !Divides(d, rest) && (count > 0 <==> Divides(d, n))
    ensures Inv(n0, Emitted(events, d, count), rest, d + 1) && rest <= n
  {
    NextDivisor(n, d, count, rest);
    RestAtMost(n, d, count, rest);
    if count > 0 { Emit(events, d, count, n0, n, rest); } else { ZerothPower(n, d, rest); }
  }

  lemma ZerothPower(n: nat, d: nat, rest: nat)
    requires n == Pow(d, 0) * rest
    ensures rest == n
  {
  }

  lemma RestAtMost(n: nat, d: nat, count: nat, rest: nat)
    requires d > 0 && n == Pow(d, count) * rest
    ensures rest <= n
  {
    PowPositive(d, count);
    MulAtMost(1, Pow(d, count), rest);
  }

  lemma {:induction false} PowPositive(b: nat, e: nat)
    requires b > 0
    ensures Pow(b, e) > 0
  {
    if e > 0 { PowPositive(b, e - 1); }
  }

  lemma Start(n0: nat)
    requires n0 > 0
    ensures Inv(n0, [], n0, 2)
  {
  }

  /// One candidate of the wheel.
  lemma WheelRound(bits: nat, n0: nat, events: seq<Event>, n: nat, d: nat, i: nat, count: nat, rest: nat)
    requires Width(bits) && WheelInv(bits, n0, events, n, d, i) && Square(bits, d) <= n
    requires rest > 0 && n == Pow(d, count) * rest && !Divides(d, rest) && (count > 0 <==> Divides(d, n))
    ensures d < Advance(bits, d, i)
    ensures WheelInv(bits, n0, Emitted(events, d, count), rest, Advance(bits, d, i), (i + 1) % 8)
  {
    Round(n0, events, n, d, count, rest);
    DividedOrSame(n, d, count, rest);
    WheelAdvances(bits, n0, Emitted(events, d, count), n, d, i, rest);
  }

  /// `after` is what has been emitted, and `rest` what is left, once `d` is divided out.
  lemma WheelAdvances(bits: nat, n0: nat, after: seq<Event>, n: nat, d: nat, i: nat, rest: nat)
    requires Width(bits) && i < 8 && 7 <= d < Pow2(bits) && d % 30 == Residue(i)
    requires n < Pow2(bits) && Square(bits, d) <= n && NoDivisorBelow(n, d)
    requires rest <= n && (Divides(d, n) || rest == n) && Inv(n0, after, rest, d + 1)
    ensures d < Advance(bits, d, i) && WheelInv(bits, n0, after, rest, Advance(bits, d, i), (i + 1) % 8)
  {
    WheelStep(n0, after, rest, d, i);
    CandidateAdvances(bits, n, d, i, rest);
  }

  lemma DividedOrSame(n: nat, d: nat, count: nat, rest: nat)
    requires n == Pow(d, count) * rest && (count > 0 <==> Divides(d, n))
    ensures Divides(d, n) || rest == n
  {
    if count == 0 { ZerothPower(n, d, rest); }
  }

  lemma CandidateAdvances(bits: nat, n: nat, d: nat, i: nat, rest: nat)
    requires Width(bits) && i < 8 && 7 <= d < Pow2(bits) && d % 30 == Residue(i)
    requires 0 < n < Pow2(bits) && Square(bits, d) <= n && NoDivisorBelow(n, d)
    requires 0 < rest <= n && (Divides(d, n) || rest == n) && NoDivisorBelow(rest, d + Increment(i))
    ensures Advance(bits, d, i) == d + Increment(i) && d < d + Increment(i) < Pow2(bits)
  {
    StaysInRange(bits, d, i, n, rest);
    AdvanceIs(bits, d, i);
  }

  lemma AdvanceIs(bits: nat, d: nat, i: nat)
    requires i < 8 && d + Increment(i) < Pow2(bits)
    ensures Advance(bits, d, i) == d + Increment(i)
  {
    SmallMod(d + Increment(i), Pow2(bits));
  }

  lemma SkipEven(n0: nat, events: seq<Event>, rest: nat, d: nat)
    requires d > 1 && d % 2 == 1 && Inv(n0, events, rest, d + 1)
    ensures Inv(n0, events, rest, d + 2)
  {
    if Divides(d + 1, rest) { DividesTransitive(2, d + 1, rest); }
  }

  /// The wheel only steps over multiples of 2, 3 and 5.
  lemma WheelStep(n0: nat, events: seq<Event>, rest: nat, d: nat, i: nat)
    requires i < 8 && 7 <= d && d % 30 == Residue(i) && Inv(n0, events, rest, d + 1)
    ensures Inv(n0, events, rest, d + Increment(i))
    ensures (d + Increment(i)) % 30 == Residue((i + 1) % 8)
  {
    WheelTurns(d, i);
    forall k: nat | d < k < d + Increment(i) ensures !Divides(k, rest) {
      if Divides(k, rest) {
        var s := Spoke(k, d, i);
        DividesTransitive(s, k, rest);
      }
    }
  }

  lemma WheelTurns(d: nat, i: nat)
    requires i < 8 && d % 30 == Residue(i)
    ensures (d + Increment(i)) % 30 == Residue((i + 1) % 8)
  {
  }

  lemma Spoke(k: nat, d: nat, i: nat) returns (s: nat)
    requires i < 8 && d % 30 == Residue(i) && d < k < d + Increment(i)
    ensures 1 < s < 6 && Divides(s, k)
  {
    var x := Residue(i) + (k - d);
    assert k == 30 * (d / 30) + x;
    MultiplesOf30(d / 30, x);
    assert x % 2 == 0 || x % 3 == 0 || x % 5 == 0;
    s := if x % 2 == 0 then 2 else if x % 3 == 0 then 3 else 5;
  }

  lemma MultiplesOf30(q: int, x: int)
    ensures (30 * q + x) % 2 == x % 2 && (30 * q + x) % 3 == x % 3 && (30 * q + x) % 5 == x % 5
  {
    ModShift(x, 2, 15 * q);
    ModShift(x, 3, 10 * q);
    ModShift(x, 5, 6 * q);
  }

  lemma WidthIs(bits: nat)
    requires Width(bits)
    ensures Pow2(bits) == match bits case 8 => 256 case 16 => 65536 case 32 => 4294967296 case _ => 18446744073709551616
  {
    WordSizes();
  }

  /// A divisor of the one number on the wheel from which the next increment would wrap.
  function LastFactor(bits: nat): nat { match bits case 8 => 11 case 32 => 9241 case _ => 13 }

  lemma LastIsComposite(bits: nat)
    requires Width(bits)
    ensures 1 < LastFactor(bits) < Pow2(bits) - 3 && Divides(LastFactor(bits), Pow2(bits) - 3)
    ensures Pow2(bits) % 30 == 16
  {
    WidthIs(bits);
    Composites(bits, Pow2(bits));
  }

  lemma Composites(bits: nat, m: nat)
    requires Width(bits)
    requires m == match bits case 8 => 256 case 16 => 65536 case 32 => 4294967296 case _ => 18446744073709551616
    ensures 1 < LastFactor(bits) < m - 3 && Divides(LastFactor(bits), m - 3) && m % 30 == 16
  {
  }

  /// The candidate never wraps, however far `d * d` does.
  lemma StaysInRange(bits: nat, d: nat, i: nat, n: nat, rest: nat)
    requires Width(bits) && i < 8 && 7 <= d < Pow2(bits) && d % 30 == Residue(i)
    requires 0 < n < Pow2(bits) && Square(bits, d) <= n && NoDivisorBelow(n, d)
    requires 0 < rest <= n && (Divides(d, n) || rest == n) && NoDivisorBelow(rest, d + Increment(i))
    ensures d + Increment(i) < Pow2(bits)
  {
    var m := Pow2(bits);
    if rest > 1 {
      DividesItself(rest);
    } else if m - 6 <= d {
      LastIsComposite(bits);
      LastSpokes(m, d, i);
      if d == m - 3 { NotTheLast(bits, n, d); }
    }
  }

  lemma LastSpokes(m: nat, d: nat, i: nat)
    requires i < 8 && d % 30 == Residue(i) && m % 30 == 16 && m - 6 <= d < m
    ensures d == m - 3 || (d == m - 5 && i == 1)
  {
  }

  lemma NotTheLast(bits: nat, n: nat, d: nat)
    requires Width(bits) && d == Pow2(bits) - 3 && 0 < n < Pow2(bits)
    requires Square(bits, d) <= n && NoDivisorBelow(n, d)
    ensures !Divides(d, n) && n != 1
  {
    LastIsComposite(bits);
    if Divides(d, n) { DividesTransitive(LastFactor(bits), d, n); }
    SquareOfLast(bits);
  }

  lemma SquareOfLast(bits: nat)
    requires Width(bits)
    ensures Pow2(bits) > 9 && Square(bits, Pow2(bits) - 3) >= 9
  {
    WidthIs(bits);
    SquareMod(Pow2(bits));
  }

  lemma SquareMod(m: nat)
    requires m > 9
    ensures (m - 3) * (m - 3) % m == 9 && (m - 3) * (m - 3) >= 9
  {
    assert (m - 3) * (m - 3) == (m - 6) * m + 9;
    MulAtMost(0, m - 6, m);
    DivModUnique((m - 3) * (m - 3), m, m - 6, 9);
  }

  /// As long as the square of the candidate can be represented, the loop goes on iff that does not exceed what is left.
  lemma TestIsExact(bits: nat, d: nat, n: nat)
    requires bits >= 32 ==> d * d < Pow2(bits)
    ensures Square(bits, d) <= n <==> d * d <= n
  {
    if bits >= 32 { SmallMod(d * d, Pow2(bits)); }
  }

  /// In 8 and 16 bits, the squares are computed in `int`: those of the first candidate and of every one that follows a
  /// candidate the loop has gone on with can be represented.
  lemma NarrowSquaresFit(bits: nat, d: nat, i: nat, n: nat)
    requires Width(bits) && bits < 32 && i < 8 && n < Pow2(bits) && (d + Increment(i) == 7 || Square(bits, d) <= n)
    ensures Square(bits, d + Increment(i)) < 0x8000_0000
  {
    WidthIs(bits);
    if d >= 256 { MulAtMost(256, d, 256); MulAtMost(256, d, d); }
    SquareBelow(d + Increment(i), 262);
  }

  lemma SquareBelow(x: nat, b: nat)
    requires x <= b
    ensures x * x <= b * b
  {
    MulAtMost(x, b, x);
    MulAtMost(x, b, b);
  }

  /// When the loop ends, what is left is 1 or a prime not below the candidate.
  lemma RestIsPrime(bits: nat, n: nat, d: nat)
    requires d >= 7 && n > 0 && Square(bits, d) > n && NoDivisorBelow(n, d)
    ensures n == 1 || (Prime(n) && d <= n)
  {
    SquareAtMost(bits, d);
    if n > 1 {
      DividesItself(n);
      forall k: nat | 1 < k < n ensures !Divides(k, n) {
        if Divides(k, n) { BothLarge(n, d, k); }
      }
    }
  }

  /// Wrapping does not enlarge.
  lemma SquareAtMost(bits: nat, d: nat)
    ensures Square(bits, d) <= d * d
  {
    ModAtMost(d * d, Pow2(bits));
  }

  lemma ModAtMost(a: nat, m: nat)
    requires m > 0
    ensures a % m <= a
  {
    if a < m { SmallMod(a, m); }
  }

  lemma DividesItself(n: nat)
    requires n > 0
    ensures Divides(n, n)
  {
    DividesMultiple(n, 1);
  }

  lemma Finish(bits: nat, n0: nat, events: seq<Event>, n: nat, d: nat)
    requires d >= 7 && Square(bits, d) > n && Inv(n0, events, n, d)
    ensures n > 1 ==> Primes(Emitted(events, n, 1)) && Product(Emitted(events, n, 1)) == n0
    ensures n == 1 ==> Primes(events) && Product(events) == n0
  {
    RestIsPrime(bits, n, d);
    if n > 1 {
      assert Pow(n, 1) == n * Pow(n, 0);
      Emit(events, n, 1, n0, n, 1);
    }
  }

  lemma BothLarge(n: nat, d: nat, k: nat)
    requires n > 1 && NoDivisorBelow(n, d) && 1 < k < n && Divides(k, n)
    ensures d * d <= n
  {
    var q := Quotient(k, n);
    if q <= 0 { MulAtMost(q, 0, k); }
    assert q != 1;
    DividesMultiple(q, k);
    assert Divides(q, n);
    MulAtMost(d, q, d);
    MulAtMost(d, k, q);
    assert q * k == k * q && q * d == d * q;
  }

  // ----- the sinks

  /// `FlatFactorization`: appends the key once per count.
  function FlatSink(events: seq<Event>): seq<nat> {
    if |events| == 0 then []
    else FlatSink(events[..|events| - 1]) + Repeat<nat>(events[|events| - 1].key, events[|events| - 1].count)
  }

  /// `MapFactorization`: `emplace` leaves an existing entry alone.
  function MapSink(events: seq<Event>): map<nat, nat> {
    if |events| == 0 then map[]
    else
      var m, e := MapSink(events[..|events| - 1]), events[|events| - 1];
      if e.key in m then m else m[e.key := e.count]
  }

  method FactorizeFlat(bits: nat, n: nat) returns (factors: seq<nat>)
    requires Width(bits) && 0 < n < Pow2(bits)
    ensures IsFactorization(factors, n)
  {
    var events := Factorize(bits, n);
    factors := FlatSink(events);
    FlatIsFactorization(events);
  }

  method FactorizeMap(bits: nat, n: nat) returns (powers: map<nat, nat>)
    requires Width(bits) && 0 < n < Pow2(bits)
    ensures forall factors :: IsFactorization(factors, n) ==> Counts(powers, factors)
    ensures exists factors :: IsFactorization(factors, n)
  {
    var events := Factorize(bits, n);
    powers := MapSink(events);
    FlatIsFactorization(events);
    MapIsCounts(events);
    forall factors | IsFactorization(factors, n) ensures factors == FlatSink(events) {
      FactorizationIsUnique(factors, FlatSink(events), n);
    }
  }

  function ProductOf(factors: seq<nat>): nat {
    if |factors| == 0 then 1 else ProductOf(factors[..|factors| - 1]) * factors[|factors| - 1]
  }

  /// A non-decreasing list of primes with product `n`.
  ghost predicate IsFactorization(factors: seq<nat>, n: nat) {
    && (forall i :: 0 <= i < |factors| ==> Prime(factors[i]))
    && (forall i, j :: 0 <= i < j < |factors| ==> factors[i] <= factors[j])
    && ProductOf(factors) == n
  }

  /// The map holds exactly the multiplicities of the list.
  ghost predicate Counts(powers: map<nat, nat>, factors: seq<nat>) {
    forall p: nat :: (p in powers <==> p in factors) && (p in powers ==> powers[p] == multiset(factors)[p])
  }

  lemma {:induction false} RepeatProduct(factors: seq<nat>, k: nat, count: nat)
    ensures ProductOf(factors + Repeat<nat>(k, count)) == ProductOf(factors) * Pow(k, count)
  {
    if count == 0 {
      assert factors + Repeat<nat>(k, count) == factors;
    } else {
      RepeatProduct(factors, k, count - 1);
      var longer := factors + Repeat<nat>(k, count);
      assert longer[..|longer| - 1] == factors + Repeat<nat>(k, count - 1);
      Regroup(ProductOf(factors), Pow(k, count - 1), k);
    }
  }

  lemma Regroup(a: nat, b: nat, c: nat)
    ensures a * b * c == a * (c * b)
  {
  }

  lemma {:induction false} RepeatMembers(k: nat, count: nat)
    ensures forall p: nat :: multiset(Repeat<nat>(k, count))[p] == if p == k then count else 0
  {
    if count > 0 { RepeatMembers(k, count - 1); }
  }

  lemma {:induction false} FlatProduct(events: seq<Event>)
    ensures ProductOf(FlatSink(events)) == Product(events)
  {
    if |events| > 0 {
      var rest, e := events[..|events| - 1], events[|events| - 1];
      FlatProduct(rest);
      RepeatProduct(FlatSink(rest), e.key, e.count);
    }
  }

  /// The flat list is made of the keys, in order.
  lemma {:induction false} FlatAscends(events: seq<Event>)
    requires Primes(events)
    ensures forall i :: 0 <= i < |FlatSink(events)| ==>
              |events| > 0 && Prime(FlatSink(events)[i]) && FlatSink(events)[i] <= events[|events| - 1].key
    ensures forall i, j :: 0 <= i < j < |FlatSink(events)| ==> FlatSink(events)[i] <= FlatSink(events)[j]
  {
    if |events| == 0 {
      assert FlatSink(events) == [];
    } else {
      var rest, e := events[..|events| - 1], events[|events| - 1];
      FlatAscends(rest);
      RepeatMembers(e.key, e.count);
      var f, r := FlatSink(rest), Repeat<nat>(e.key, e.count);
      assert FlatSink(events) == f + r;
      assert |rest| > 0 ==> rest[|rest| - 1].key < e.key;
      forall i | 0 <= i < |f + r| ensures Prime((f + r)[i]) && (f + r)[i] <= e.key {
        assert (f + r)[i] == if i < |f| then f[i] else r[i - |f|];
      }
      forall i, j | 0 <= i < j < |f + r| ensures (f + r)[i] <= (f + r)[j] {
        assert j >= |f| ==> (f + r)[j] == e.key;
      }
    }
  }

  lemma FlatIsFactorization(events: seq<Event>)
    requires Primes(events)
    ensures IsFactorization(FlatSink(events), Product(events))
  {
    FlatProduct(events);
    FlatAscends(events);
  }

  lemma {:induction false} MapKeys(events: seq<Event>)
    requires Primes(events)
    ensures forall p :: p in MapSink(events) ==> |events| > 0 && p <= events[|events| - 1].key
  {
    if |events| > 0 {
      var rest := events[..|events| - 1];
      MapKeys(rest);
      assert |rest| > 0 ==> rest[|rest| - 1].key < events[|events| - 1].key;
    }
  }

  /// No key is emplaced twice.
  lemma EmplacedOnce(events: seq<Event>, i: nat)
    requires Primes(events) && i < |events|
    ensures events[i].key !in MapSink(events[..i])
  {
    MapKeys(events[..i]);
  }

  /// So the map has the multiplicities of the flat list.
  lemma {:induction false} MapIsCounts(events: seq<Event>)
    requires Primes(events)
    ensures Counts(MapSink(events), FlatSink(events))
  {
    if |events| > 0 {
      var rest, e := events[..|events| - 1], events[|events| - 1];
      MapIsCounts(rest);
      EmplacedOnce(events, |events| - 1);
      RepeatMembers(e.key, e.count);
      forall p: nat
        ensures multiset(FlatSink(events))[p] == multiset(FlatSink(rest))[p] + if p == e.key then e.count else 0
      {}
      CountsStep(MapSink(rest), FlatSink(rest), e, FlatSink(events));
    }
  }

  lemma CountsStep(powers: map<nat, nat>, factors: seq<nat>, e: Event, factors': seq<nat>)
    requires Counts(powers, factors) && e.key !in powers && e.count > 0
    requires forall p: nat :: multiset(factors')[p] == multiset(factors)[p] + if p == e.key then e.count else 0
    ensures Counts(powers[e.key := e.count], factors')
  {
    forall p: nat ensures p in factors' <==> p in factors || p == e.key {
      assert p in multiset(factors') <==> p in factors';
      assert p in multiset(factors) <==> p in factors;
    }
    assert e.key !in factors;
  }

  // ----- there is only one factorization

  lemma {:induction false} PrimeOfProduct(p: nat, factors: seq<nat>)
    requires Prime(p) && Divides(p, ProductOf(factors))
    requires forall i :: 0 <= i < |factors| ==> Prime(factors[i])
    ensures p in factors
  {
    if |factors| == 0 {
      DividesAtMost(p, 1);
    } else {
      var rest, q := factors[..|factors| - 1], factors[|factors| - 1];
      if Divides(p, q) {
        DividesAtMost(p, q);
      } else {
        OnlyDivisor(p, q);
        assert ProductOf(factors) == q * ProductOf(rest);
        Euclid(p, q, ProductOf(rest));
        PrimeOfProduct(p, rest);
      }
    }
  }

  /// A prime has no divisor in common with a number that it does not divide.
  lemma OnlyDivisor(p: nat, q: nat)
    requires Prime(p) && !Divides(p, q)
    ensures Coprime(q, p)
  {
    forall d: nat | d > 1 && Divides(d, q) ensures !Divides(d, p) {
      if Divides(d, p) { DividesAtMost(d, p); }
    }
  }

  lemma LastDivides(factors: seq<nat>)
    requires |factors| > 0 && factors[|factors| - 1] > 0
    ensures Divides(factors[|factors| - 1], ProductOf(factors))
  {
    DividesMultiple(factors[|factors| - 1], ProductOf(factors[..|factors| - 1]));
  }

  lemma LargestAtMost(f: seq<nat>, g: seq<nat>, n: nat)
    requires IsFactorization(f, n) && IsFactorization(g, n) && |f| > 0
    ensures |g| > 0 && f[|f| - 1] <= g[|g| - 1]
  {
    LastDivides(f);
    PrimeOfProduct(f[|f| - 1], g);
    var i :| 0 <= i < |g| && g[i] == f[|f| - 1];
  }

  lemma {:induction false} FactorizationIsUnique(f: seq<nat>, g: seq<nat>, n: nat)
    requires IsFactorization(f, n) && IsFactorization(g, n)
    ensures f == g
    decreases |f|
  {
    if |f| > 0 { LargestAtMost(f, g, n); }
    if |g| > 0 { LargestAtMost(g, f, n); }
    if |f| > 0 {
      var p := f[|f| - 1];
      var f', g' := f[..|f| - 1], g[..|g| - 1];
      MulCancels(ProductOf(f'), ProductOf(g'), p);
      FactorizationIsUnique(f', g', ProductOf(f'));
      assert f == f' + [p] && g == g' + [p];
    }
  }
}
