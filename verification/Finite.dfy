/** Counting arguments on initial segments of the natural numbers. */
module Finite {
  ghost predicate MapsInto(n: nat, f: nat -> nat) { forall x: nat :: x < n ==> f(x) < n }

  ghost predicate InjectiveBelow(n: nat, f: nat -> nat) {
    forall x: nat, y: nat :: x < n && y < n && f(x) == f(y) ==> x == y
  }

  ghost predicate Hits(n: nat, f: nat -> nat, y: nat) { exists x: nat :: x < n && f(x) == y }

  /// `f` permutes `[0, n)`.
  ghost predicate PermutesBelow(n: nat, f: nat -> nat) {
    && MapsInto(n, f)
    && InjectiveBelow(n, f)
    && forall y: nat :: y < n ==> Hits(n, f, y)
  }

  ghost function Below(n: nat): (s: set<nat>)
    ensures forall x: nat :: x in s <==> x < n
    ensures |s| == n
  {
    if n == 0 then {} else Below(n - 1) + {n - 1}
  }

  ghost function Image(n: nat, f: nat -> nat): set<nat> { if n == 0 then {} else Image(n - 1, f) + {f(n - 1)} }

  lemma {:induction false} ImageIsHits(n: nat, f: nat -> nat, y: nat)
    ensures y in Image(n, f) <==> Hits(n, f, y)
  {
    if n > 0 {
      ImageIsHits(n - 1, f, y);
      assert Hits(n, f, y) <==> Hits(n - 1, f, y) || f(n - 1) == y;
    }
  }

  lemma LastIsNew(n: nat, f: nat -> nat)
    requires n > 0 && InjectiveBelow(n, f)
    ensures !Hits(n - 1, f, f(n - 1)) && InjectiveBelow(n - 1, f)
  {
  }

  lemma {:induction false} SizeOfImage(n: nat, f: nat -> nat)
    requires InjectiveBelow(n, f)
    ensures |Image(n, f)| == n
  {
    if n > 0 {
      SizeOfImage(n - 1, f);
      LastIsNew(n, f);
      ImageIsHits(n - 1, f, f(n - 1));
    }
  }

  lemma {:induction false} SubsetSize(a: set<nat>, b: set<nat>)
    requires a <= b
    ensures |a| <= |b|
  {
    if a != {} {
      var x :| x in a;
      SubsetSize(a - {x}, b - {x});
    }
  }

  /// A map of `[0, n)` into itself without collisions hits everything.
  lemma InjectiveIsPermutation(n: nat, f: nat -> nat)
    requires MapsInto(n, f) && InjectiveBelow(n, f)
    ensures PermutesBelow(n, f)
  {
    SizeOfImage(n, f);
    forall y: nat ensures y in Image(n, f) ==> y in Below(n) { ImageIsHits(n, f, y); }
    forall y: nat | y < n ensures Hits(n, f, y) {
      ImageIsHits(n, f, y);
      if y !in Image(n, f) { SubsetSize(Image(n, f), Below(n) - {y}); }
    }
  }
}
