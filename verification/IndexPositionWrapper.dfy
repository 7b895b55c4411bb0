/**
 `BasePosIndexWrapper` (include/thesauros/utility/index-position-wrapper.hpp): a position kept beside its index by
 carries and borrows, digit by digit, in unsigned arithmetic that wraps.
 */
module IndexPositionWrapper {
  import opened Arith
  import opened MixedRadix

  /// `SingleIndexManager` and `DualIndexManager`: the second moves two indices of different origin and width.
  datatype IndexManager = Single(idx: nat) | Dual(idx: nat, posIdx: nat) {
    function PosIndex(): nat { if Single? then idx else posIdx }

    /// The indices can be represented.
    predicate Fits(idxMod: nat, posMod: nat) { PosIndex() < posMod && (Dual? ==> idx < idxMod) }

    function Add(off: int, idxMod: nat, posMod: nat): IndexManager
      requires idxMod > 0 && posMod > 0
    {
      match this
      case Single(i) => Single((i + off) % posMod)
      case Dual(i, p) => Dual((i + off) % idxMod, (p + off) % posMod)
    }
  }

  lemma {:induction false} FlatCarry(pos: seq<int>, next: seq<int>, sizes: seq<nat>, k: nat, c: int, n: nat)
    requires 1 <= k < |pos| == |sizes| && n <= |pos| == |next|
    requires next == pos[k := pos[k] - c * sizes[k]][k - 1 := pos[k - 1] + c]
    ensures Flat(next, sizes, n) == Flat(pos, sizes, n) + if n == k then c else 0
  {
    if n > 0 {
      FlatCarry(pos, next, sizes, k, c, n - 1);
      assert next[n - 1] == pos[n - 1] - (if n - 1 == k then c * sizes[k] else 0) + if n == k then c else 0;
      if n - 1 == k { Distribute(Flat(pos, sizes, k), c, sizes[k]); }
    }
  }

  lemma Distribute(f: int, c: int, s: int)
    ensures (f + c) * s == f * s + c * s
  {
  }

  lemma FlatLast(pos: seq<int>, next: seq<int>, sizes: seq<nat>, c: int)
    requires 1 <= |pos| == |sizes| && next == pos[|pos| - 1 := pos[|pos| - 1] + c]
    ensures Flat(next, sizes, |sizes|) == Flat(pos, sizes, |sizes|) + c
  {
    var n := |pos|;
    assert next[..n - 1] == pos[..n - 1];
    FlatPrefix(next, pos, sizes, n - 1);
  }

  /// A position with all coordinates but the first in range is that of its index.
  lemma IsPosition(pos: seq<int>, sizes: seq<nat>, index: int)
    requires 1 <= |pos| == |sizes| && Positive(sizes) && Normal(pos, sizes, |pos|) && Flat(pos, sizes, |pos|) == index
    ensures pos == IndexToPosition(index, sizes, |sizes|)
    ensures index >= 0 <==> pos[0] >= 0
    ensures index < Total(sizes) <==> pos[0] < sizes[0]
  {
    PositionOfFlat(pos, sizes, |pos|);
    FlatSign(pos, sizes, |pos|);
    FlatInRange(pos, sizes, |pos|);
    ProductSplit(sizes, 0, |sizes|);
    assert pos[..|pos|] == pos;
  }

  class Wrapper {
    const idxMod: nat
    const posMod: nat
    const dims: seq<nat>
    var pos: seq<int>
    var man: IndexManager

    ghost predicate Shape()
      reads this
    {
      && idxMod > 0
      && |dims| >= 2
      && (forall k :: 0 <= k < |dims| ==> 0 < dims[k] < posMod)
      && Total(dims) < posMod
    }

    /// The position is the one of the index.
    ghost predicate Valid()
      reads this
    {
      && Shape()
      && man.Fits(idxMod, posMod)
      && pos == IndexToPosition(man.PosIndex(), dims, |dims|)
    }

    lemma Unpack()
      requires Valid()
      ensures |pos| == |dims| && Normal(pos, dims, |dims|) && Flat(pos, dims, |dims|) == man.PosIndex() && 0 <= pos[0]
      ensures man.PosIndex() < Total(dims) <==> pos[0] < dims[0]
    {
      PositionShape(man.PosIndex(), dims, |dims|);
      FlatOfPosition(man.PosIndex(), dims, |dims|);
      IsPosition(pos, dims, man.PosIndex());
    }

    /// From an index, and from a position.
    constructor FromIndex(idxMod: nat, posMod: nat, man: IndexManager, dims: seq<nat>)
      requires idxMod > 0 && |dims| >= 2 && (forall k :: 0 <= k < |dims| ==> 0 < dims[k] < posMod)
      requires Total(dims) < posMod && man.Fits(idxMod, posMod)
      ensures Valid() && this.man == man && this.dims == dims && this.idxMod == idxMod && this.posMod == posMod
    {
      this.idxMod, this.posMod, this.man, this.dims := idxMod, posMod, man, dims;
      this.pos := IndexToPosition(man.PosIndex(), dims, |dims|);
    }

    constructor FromPosition(idxMod: nat, posMod: nat, pos: seq<int>, dims: seq<nat>)
      requires idxMod > 0 && |dims| >= 2 && (forall k :: 0 <= k < |dims| ==> 0 < dims[k] < posMod)
      requires Total(dims) < posMod && InBox(pos, dims)
      ensures Valid() && this.pos == pos && this.dims == dims
    {
      PosRoundTrip(pos, dims);
      this.idxMod, this.posMod, this.pos, this.dims := idxMod, posMod, pos, dims;
      this.man := Single(PosToIndex(pos, dims));
    }

    /// `operator++`, up to the position one past the end.
    method Increment()
      requires Valid() && man.PosIndex() < Total(dims)
      modifies this
      ensures Valid() && man.PosIndex() == old(man.PosIndex()) + 1
      ensures man.Single? == old(man.Single?)
      ensures man.Single? ==> man.idx == (old(man.idx) + 1) % posMod
      ensures man.Dual? ==> man.idx == (old(man.idx) + 1) % idxMod && man.posIdx == (old(man.posIdx) + 1) % posMod
    {
      var n := |dims|;
      Unpack();
      Stays(man, 1, idxMod, posMod);
      man := man.Add(1, idxMod, posMod);
      CarryStart(pos, dims, posMod);
      pos := pos[n - 1 := (pos[n - 1] + 1) % posMod];
      var k := n - 1;
      while k >= 1
        invariant 0 <= k < n && Carried(pos, dims, k) && Flat(pos, dims, n) == man.PosIndex()
        modifies this`pos
      {
        CarryStep(pos, dims, posMod, k);
        Carry(k);
        k := k - 1;
      }
      IsPosition(pos, dims, man.PosIndex());
    }

    /// `operator--`, from the position one past the end at the earliest.
    method Decrement()
      requires Valid() && 1 <= man.PosIndex() <= Total(dims)
      modifies this
      ensures Valid() && man.PosIndex() == old(man.PosIndex()) - 1
      ensures man.Single? == old(man.Single?)
      ensures man.Single? ==> man.idx == (old(man.idx) - 1) % posMod
      ensures man.Dual? ==> man.idx == (old(man.idx) - 1) % idxMod && man.posIdx == (old(man.posIdx) - 1) % posMod
    {
      var n := |dims|;
      Unpack();
      AtMostEnd(pos, dims, man.PosIndex());
      Stays(man, -1, idxMod, posMod);
      man := man.Add(-1, idxMod, posMod);
      BorrowStart(pos, dims, posMod);
      pos := pos[n - 1 := (pos[n - 1] - 1) % posMod];
      var k := n - 1;
      while k >= 1
        invariant 0 <= k < n && Borrowing(pos, dims, posMod, k, man.PosIndex())
        modifies this`pos
      {
        BorrowStep(pos, dims, posMod, k, man.PosIndex());
        Borrow(k);
        k := k - 1;
      }
      BorrowEnd(pos, dims, posMod, man.PosIndex());
    }

    /// One digit of either.
    method Carry(k: nat)
      requires posMod > 0 && 1 <= k < |pos| == |dims|
      modifies this`pos
      ensures pos == CarryAt(old(pos), dims, posMod, k)
    {
      var over := pos[k] == dims[k];
      pos := pos[k := if over then 0 else pos[k]];
      pos := pos[k - 1 := (pos[k - 1] + if over then 1 else 0) % posMod];
    }

    method Borrow(k: nat)
      requires posMod > 0 && 1 <= k < |pos| == |dims|
      modifies this`pos
      ensures pos == BorrowAt(old(pos), dims, posMod, k)
    {
      var under := pos[k] == posMod - 1;
      pos := pos[k := if under then dims[k] - 1 else pos[k]];
      pos := pos[k - 1 := (pos[k - 1] + if under then -1 else 0) % posMod];
    }

    /// `operator+=` and `operator-=`: jumps compute the position anew.
    method Jump(off: int)
      requires Valid()
      modifies this
      ensures Valid()
      ensures man.Single? == old(man.Single?)
      ensures man.Single? ==> man.idx == (old(man.idx) + off) % posMod
      ensures man.Dual? ==> man.idx == (old(man.idx) + off) % idxMod && man.posIdx == (old(man.posIdx) + off) % posMod
    {
      man := man.Add(off, idxMod, posMod);
      pos := IndexToPosition(man.PosIndex(), dims, |dims|);
    }
  }

  // ----- both indices

  /// As long as neither wraps, both indices move by the same amount, so that their difference is kept.
  lemma DifferenceIsKept(idx: nat, posIdx: nat, off: int, idxMod: nat, posMod: nat)
    requires 0 <= idx + off < idxMod && 0 <= posIdx + off < posMod
    ensures (idx + off) % idxMod - (posIdx + off) % posMod == idx - posIdx
  {
    SmallMod(idx + off, idxMod);
    SmallMod(posIdx + off, posMod);
  }

  /// Whether it wraps or not, an index that is moved there and back is where it was.
  lemma ThereAndBack(idx: nat, off: int, mod: nat)
    requires idx < mod
    ensures ((idx + off) % mod - off) % mod == idx
  {
    ModSum(idx + off, -off, mod);
    SmallMod(idx, mod);
  }

  // ----- carries

  ghost predicate SizesFit(dims: seq<nat>, posMod: nat) {
    |dims| >= 2 && posMod > 0 && forall k :: 0 <= k < |dims| ==> 0 < dims[k] < posMod
  }

  /// An index that stays in the range of its type does not wrap.
  lemma Stays(man: IndexManager, off: int, idxMod: nat, posMod: nat)
    requires idxMod > 0 && 0 <= man.PosIndex() + off < posMod
    ensures man.Add(off, idxMod, posMod).PosIndex() == man.PosIndex() + off
  {
    SmallMod(man.PosIndex() + off, posMod);
  }

  /// The coordinates are in range, up to `k`, which may have reached its end.
  ghost predicate Carried(p: seq<int>, dims: seq<nat>, k: nat) {
    |p| == |dims| && forall j :: 0 <= j < |p| ==> 0 <= p[j] && if j == k then p[j] <= dims[j] else p[j] < dims[j]
  }

  lemma CarryStart(p: seq<int>, dims: seq<nat>, posMod: nat)
    requires SizesFit(dims, posMod) && |p| == |dims| && Normal(p, dims, |dims|) && 0 <= p[0] < dims[0]
    ensures var next := p[|dims| - 1 := (p[|dims| - 1] + 1) % posMod];
            Carried(next, dims, |dims| - 1) && Flat(next, dims, |dims|) == Flat(p, dims, |dims|) + 1
  {
    SmallMod(p[|dims| - 1] + 1, posMod);
    FlatLast(p, p[|dims| - 1 := (p[|dims| - 1] + 1) % posMod], dims, 1);
  }

  function CarryAt(p: seq<int>, dims: seq<nat>, posMod: nat, k: nat): seq<int>
    requires posMod > 0 && 1 <= k < |p| == |dims|
  {
    if p[k] == dims[k] then p[k := 0][k - 1 := (p[k - 1] + 1) % posMod] else p[k - 1 := p[k - 1] % posMod]
  }

  lemma CarryStep(p: seq<int>, dims: seq<nat>, posMod: nat, k: nat)
    requires SizesFit(dims, posMod) && 1 <= k < |dims| && Carried(p, dims, k)
    ensures var next := CarryAt(p, dims, posMod, k);
            Carried(next, dims, k - 1) && Flat(next, dims, |dims|) == Flat(p, dims, |dims|)
  {
    var c := if p[k] == dims[k] then 1 else 0;
    SmallMod(p[k - 1] + c, posMod);
    FlatCarry(p, CarryAt(p, dims, posMod, k), dims, k, c, |dims|);
  }

  // ----- borrows

  /// `PosSize(x)` of a coordinate or of -1.
  function Stored(x: int, posMod: nat): int { if x == -1 then posMod - 1 else x }

  /// The coordinates as signed numbers, in which a borrowed-from zero is -1 until it is replaced, have the index.
  ghost predicate Borrowing(p: seq<int>, dims: seq<nat>, posMod: nat, k: nat, index: int) {
    exists signed: seq<int> :: Borrowed(p, signed, dims, posMod, k) && Flat(signed, dims, |dims|) == index
  }

  /// The coordinates up to `k` are as `signed` says, -1 being represented by the largest number.
  ghost predicate Borrowed(p: seq<int>, signed: seq<int>, dims: seq<nat>, posMod: nat, k: nat) {
    && |p| == |dims| == |signed|
    && (forall j :: 0 <= j < |p| ==> p[j] == Stored(signed[j], posMod))
    && (forall j :: 0 <= j < |p| ==> -1 <= signed[j] <= dims[j] && (j != k ==> 0 <= signed[j]))
    && (forall j :: 1 <= j < |p| ==> signed[j] < dims[j])
  }

  lemma BorrowStart(p: seq<int>, dims: seq<nat>, posMod: nat)
    requires SizesFit(dims, posMod) && |p| == |dims| && Normal(p, dims, |dims|) && 0 <= p[0] <= dims[0]
    ensures var n := |dims|;
            Borrowing(p[n - 1 := (p[n - 1] - 1) % posMod], dims, posMod, n - 1, Flat(p, dims, n) - 1)
  {
    var n := |dims|;
    var signed := p[n - 1 := p[n - 1] - 1];
    FlatLast(p, signed, dims, -1);
    Wraps(p[n - 1] - 1, posMod);
    BorrowsLast(p, signed, p[n - 1 := (p[n - 1] - 1) % posMod], dims, posMod);
  }

  lemma BorrowsLast(p: seq<int>, signed: seq<int>, q: seq<int>, dims: seq<nat>, posMod: nat)
    requires SizesFit(dims, posMod) && |p| == |dims| && Normal(p, dims, |dims|) && 0 <= p[0] <= dims[0]
    requires signed == p[|dims| - 1 := p[|dims| - 1] - 1] && q == p[|dims| - 1 := Stored(p[|dims| - 1] - 1, posMod)]
    ensures Borrowing(q, dims, posMod, |dims| - 1, Flat(signed, dims, |dims|))
  {
    assert Borrowed(q, signed, dims, posMod, |dims| - 1);
  }

  function BorrowAt(p: seq<int>, dims: seq<nat>, posMod: nat, k: nat): seq<int>
    requires posMod > 0 && 1 <= k < |p| == |dims|
  {
    var last := dims[k] as int - 1;
    if p[k] == posMod - 1 then p[k := last][k - 1 := (p[k - 1] - 1) % posMod] else p[k - 1 := p[k - 1] % posMod]
  }

  lemma BorrowStep(p: seq<int>, dims: seq<nat>, posMod: nat, k: nat, index: int)
    requires SizesFit(dims, posMod) && 1 <= k < |dims| && Borrowing(p, dims, posMod, k, index)
    ensures |p| == |dims| && Borrowing(BorrowAt(p, dims, posMod, k), dims, posMod, k - 1, index)
  {
    var signed: seq<int> :| Borrowed(p, signed, dims, posMod, k) && Flat(signed, dims, |dims|) == index;
    var next := BorrowSigned(p, signed, dims, posMod, k);
  }

  lemma BorrowSigned(p: seq<int>, signed: seq<int>, dims: seq<nat>, posMod: nat, k: nat) returns (next: seq<int>)
    requires SizesFit(dims, posMod) && 1 <= k < |dims| && Borrowed(p, signed, dims, posMod, k)
    ensures Borrowed(BorrowAt(p, dims, posMod, k), next, dims, posMod, k - 1)
    ensures Flat(next, dims, |dims|) == Flat(signed, dims, |dims|)
  {
    var c := if p[k] == posMod - 1 then -1 else 0;
    next := signed[k := signed[k] - c * dims[k]][k - 1 := signed[k - 1] + c];
    FlatCarry(signed, next, dims, k, c, |dims|);
    Wraps(signed[k - 1] + c, posMod);
  }

  lemma BorrowEnd(p: seq<int>, dims: seq<nat>, posMod: nat, index: nat)
    requires SizesFit(dims, posMod) && Borrowing(p, dims, posMod, 0, index)
    ensures p == IndexToPosition(index, dims, |dims|)
  {
    var signed: seq<int> :| Borrowed(p, signed, dims, posMod, 0) && Flat(signed, dims, |dims|) == index;
    IsPosition(signed, dims, index);
    assert p == signed;
  }

  lemma Wraps(x: int, posMod: nat)
    requires posMod > 0 && -1 <= x < posMod
    ensures x % posMod == Stored(x, posMod)
  {
    if x == -1 { DivModUnique(x, posMod, -1, posMod - 1); } else { SmallMod(x, posMod); }
  }

  lemma AtMostEnd(p: seq<int>, dims: seq<nat>, index: int)
    requires 1 <= |p| == |dims| && Positive(dims) && Normal(p, dims, |dims|)
    requires Flat(p, dims, |dims|) == index <= Total(dims)
    ensures p[0] <= dims[0]
  {
    if p[0] > dims[0] {
      var lower := p[0 := p[0] - 1];
      FlatFirst(p, lower, dims, |dims|);
      IsPosition(lower, dims, Flat(lower, dims, |dims|));
    }
  }

  /// Lowering the first coordinate lowers the index.
  lemma {:induction false} FlatFirst(p: seq<int>, q: seq<int>, sizes: seq<nat>, n: nat)
    requires 1 <= n <= |p| == |q| == |sizes| && q == p[0 := p[0] - 1]
    requires Positive(sizes)
    ensures Flat(q, sizes, n) < Flat(p, sizes, n)
  {
    if n == 1 {
      assert Flat(p, sizes, 0) == 0 && Flat(q, sizes, 0) == 0;
    } else {
      FlatFirst(p, q, sizes, n - 1);
      MulCancels(Flat(q, sizes, n - 1), Flat(p, sizes, n - 1), sizes[n - 1]);
    }
  }
}
