/**
 The index segmenters (include/thesauros/utility/index-segmentation.hpp) and the law that makes them usable:
 the ranges of the segments partition the index range, and `segment_of` names the one an index lies in.
 */
module Segmentation {
  import opened Arith
  import Divisor

  /// The segmenters and their adapters. The source derives the offset and the affine segmenter from the uniform
  /// one and lets the blocked one hold a uniform segmenter of the blocks; here any segmenter can be the base.
  datatype Segmenter =
    | Uniform(u: UniformSegmenter)
    | Offset(base: Segmenter, offset: nat)
    | Affine(base: Segmenter, factor: nat, offset: nat)
    | Blocked(base: Segmenter, bits: nat, size: nat, block: nat)
    | Padded(base: Segmenter, n0: nat, n1: nat)
  {
    /// `segment_num`
    function Num(): nat { if Uniform? then u.num else base.Num() }

    /// `segment_start`
    function Start(s: nat): nat {
      match this
      case Uniform(u) => if u.num > 0 then u.Start(s) else 0
      case Offset(b, o) => b.Start(s) + o
      case Affine(b, f, o) => Scale(b.Start(s), f, o)
      case Blocked(b, w, n, k) => Boundary(w, n, k, b.Start(s))
      case Padded(b, n0, n1) => if s == 0 then 0 else b.Start(s) + n0
    }

    /// `segment_end`
    function End(s: nat): nat {
      match this
      case Uniform(u) => if u.num > 0 then u.End(s) else 0
      case Offset(b, o) => b.End(s) + o
      case Affine(b, f, o) => Scale(b.End(s), f, o)
      case Blocked(b, w, n, k) => Boundary(w, n, k, b.End(s))
      case Padded(b, n0, n1) => if s + 1 == b.Num() then b.End(s) + n0 + n1 else b.End(s) + n0
    }

    /// `segment_of`
    function Of(i: nat): nat {
      match this
      case Uniform(u) => if u.num > 0 then u.Of(i) else 0
      case Offset(b, o) => if i < o then 0 else b.Of(i - o)
      case Affine(b, f, o) => b.Of(Unscale(i, f, o))
      case Blocked(b, _, _, k) => b.Of(Unscale(i, k, 0))
      case Padded(b, n0, n1) =>
        if b.Num() == 0 || i < b.Start(0) + n0 then 0
        else if i >= b.End(b.Num() - 1) + n0 then b.Num() - 1
        else b.Of(if i < n0 then 0 else i - n0)
    }
  }

  /// The ranges are contiguous and cover `[first, last)`.
  ghost predicate Ranges(g: Segmenter, first: nat, last: nat) {
    && 0 < g.Num()
    && g.Start(0) == first
    && g.End(g.Num() - 1) == last
    && (forall s: nat :: s < g.Num() ==> first <= g.Start(s) <= g.End(s) <= last)
    && (forall s: nat, t: nat :: t == s + 1 && t < g.Num() ==> g.End(s) == g.Start(t))
  }

  /// `segment_of` finds the segment an index lies in.
  ghost predicate Finds(g: Segmenter, i: nat, s: nat) {
    g.Of(i) < g.Num() && (g.Of(i) == s <==> g.Start(s) <= i < g.End(s))
  }

  ghost predicate Partitions(g: Segmenter, first: nat, last: nat) {
    Ranges(g, first, last) && forall i: nat, s: nat :: first <= i < last && s < g.Num() ==> Finds(g, i, s)
  }

  function Min(a: nat, b: nat): nat { if a < b then a else b }

  function DivCeil(a: nat, b: nat): nat
    requires b > 0
  {
    a / b + if a % b != 0 then 1 else 0
  }

  // ----- UniformIndexSegmenter

  datatype UniformSegmenter = UniformSegmenter(bits: nat, size: nat, num: nat) {
    /// There are segments, and the longest possible segment length can be represented.
    predicate Valid() { 0 < num && size < Pow2(bits) && size / num + 1 < Pow2(bits) }

    function Quot(): nat
      requires num > 0
    {
      size / num
    }

    function Rest(): nat
      requires num > 0
    {
      size % num
    }

    function Start(s: nat): nat
      requires num > 0
    {
      s * Quot() + Min(Rest(), s)
    }

    function End(s: nat): nat
      requires num > 0
    {
      Start(s + 1)
    }

    /// Divides by the two precomputed divisors `div + 1` and, if there is one, `div`.
    function Of(i: nat): nat
      requires num > 0
    {
      var ref := Rest() * (Quot() + 1);
      if i <= ref then Divisor.Div(i, Divisor.Make(bits, Quot() + 1))
      else if Quot() == 0 then 0 else Rest() + Divisor.Div(i - ref, Divisor.Make(bits, Quot()))
    }

    lemma Ends()
      requires num > 0
      ensures Start(0) == 0 && Start(num) == size
    {
      DivModOf(size, num);
      assert num * Quot() == Quot() * num;
    }

    /// The lengths differ by at most one, the longer segments coming first.
    lemma Lengths(s: nat)
      requires num > 0
      ensures End(s) - Start(s) == size / num + if s < size % num then 1 else 0
    {
      assert (s + 1) * Quot() == s * Quot() + Quot();
    }

    lemma StartMonotone(s: nat, t: nat)
      requires num > 0 && s <= t
      ensures Start(s) <= Start(t)
    {
      MulAtMost(s, t, Quot());
    }

    /// `segment_of` yields the segment the index lies in.
    lemma OfIsInside(i: nat)
      requires Valid() && i < size
      ensures Of(i) < num && Start(Of(i)) <= i < End(Of(i))
    {
      var ref := Rest() * (Quot() + 1);
      if i <= ref {
        Divisor.DivIsExact(bits, i, Quot() + 1);
        OfLong(i, i / (Quot() + 1));
      } else {
        TailHasLength(i);
        Divisor.DivIsExact(bits, i - ref, Quot());
        OfShort(i, (i - ref) / Quot());
      }
    }

    lemma TailHasLength(i: nat)
      requires num > 0 && Rest() * (Quot() + 1) < i < size
      ensures Quot() > 0
    {
      DivModOf(size, num);
    }

    /// Among the segments of length `div + 1`, and at the first index after them.
    lemma OfLong(i: nat, k: nat)
      requires Valid() && i < size && i <= Rest() * (Quot() + 1) && k == i / (Quot() + 1)
      ensures k < num && Start(k) <= i < End(k)
    {
      InHead(Quot(), Rest(), i, k);
      if k == Rest() { NotLast(k, i); }
    }

    lemma NotLast(r: nat, i: nat)
      requires Valid() && r == Rest() && i == r * (Quot() + 1) && i < size
      ensures Quot() > 0
    {
      DivModOf(size, num);
    }

    lemma OfShort(i: nat, k: nat)
      requires Valid() && Quot() > 0 && Rest() * (Quot() + 1) < i < size && k == (i - Rest() * (Quot() + 1)) / Quot()
      ensures Rest() + k < num && Start(Rest() + k) <= i < End(Rest() + k)
    {
      var q, r := Quot(), Rest();
      DivModOf(size, num);
      InTail(q, r, num, size, i, k);
    }

    lemma StartsBelow(s: nat, t: nat)
      requires num > 0 && s < t <= num
      ensures Start(s) <= End(s) <= Start(t) <= size
    {
      Ends();
      StartMonotone(s, s + 1);
      StartMonotone(s + 1, t);
      StartMonotone(t, num);
    }

    lemma OfIsUnique(i: nat, s: nat)
      requires Valid() && i < size && s < num
      ensures Of(i) < num && (Of(i) == s <==> Start(s) <= i < End(s))
    {
      OfIsInside(i);
      if Of(i) < s { StartsBelow(Of(i), s); } else if s < Of(i) { StartsBelow(s, Of(i)); }
    }

    lemma UniformPartitions()
      requires Valid()
      ensures Partitions(Uniform(this), 0, size)
    {
      var g := Uniform(this);
      Ends();
      forall s: nat | s < num ensures 0 <= g.Start(s) <= g.End(s) <= size { StartsBelow(s, num); }
      forall i: nat, s: nat | 0 <= i < size && s < num ensures Finds(g, i, s) {
        OfIsUnique(i, s);
      }
    }
  }

  /// Where an index in the `r` longer segments, or just after them, lies.
  lemma InHead(q: nat, r: nat, i: nat, k: nat)
    requires i <= r * (q + 1) && k == i / (q + 1)
    ensures k <= r && (k == r ==> i == r * (q + 1))
    ensures k * q + k <= i < (k + 1) * q + k + 1
  {
    DivModOf(i, q + 1);
    MulCancels(k, r, q + 1);
    assert k * (q + 1) == k * q + k && (k + 1) * q == k * q + q;
  }

  /// Where an index after the `r` longer segments lies.
  lemma InTail(q: nat, r: nat, num: nat, size: nat, i: nat, k: nat)
    requires 0 < q && size == q * num + r && r < num && r * (q + 1) < i < size && k == (i - r * (q + 1)) / q
    ensures r + k < num && (r + k) * q + r <= i < (r + k + 1) * q + r
  {
    var ref := r * (q + 1);
    DivModOf(i - ref, q);
    assert size - ref == (num - r) * q by { assert (num - r) * q == num * q - r * q && num * q == q * num; }
    MulCancels(k, num - r, q);
    assert (r + k) * q == r * q + k * q && (r + k + 1) * q == (r + k) * q + q;
  }

  // ----- OffsetUniformIndexSegmenter and AffineUniformIndexSegmenter

  /// `factor * x + offset`
  function Scale(x: nat, factor: nat, offset: nat): nat { factor * x + offset }

  /// `(index - offset) / factor`, for an index that is not below the offset.
  function Unscale(i: nat, factor: nat, offset: nat): nat {
    if i < offset || factor == 0 then 0 else (i - offset) / factor
  }

  lemma ScaleAdjoint(i: nat, x: nat, factor: nat, offset: nat)
    requires factor > 0 && offset <= i
    ensures Scale(x, factor, offset) <= i <==> x <= Unscale(i, factor, offset)
  {
    var j := (i - offset) / factor;
    DivModOf(i - offset, factor);
    MulCancels(x, j + 1, factor);
    MulCancels(x, j, factor);
    assert factor * x == x * factor && (j + 1) * factor == j * factor + factor;
  }

  lemma ScaleAscends(x: nat, y: nat, factor: nat, offset: nat)
    requires x <= y
    ensures Scale(x, factor, offset) <= Scale(y, factor, offset)
    ensures Scale(0, factor, offset) == offset
  {
    MulAtMost(x, y, factor);
  }

  lemma AffineFinds(b: Segmenter, size: nat, factor: nat, offset: nat, i: nat, s: nat)
    requires Ranges(b, 0, size) && factor > 0 && s < b.Num() && offset <= i && Finds(b, Unscale(i, factor, offset), s)
    ensures Finds(Affine(b, factor, offset), i, s)
  {
    ScaleAdjoint(i, b.Start(s), factor, offset);
    ScaleAdjoint(i, b.End(s), factor, offset);
  }

  lemma AffinePartitions(b: Segmenter, size: nat, factor: nat, offset: nat)
    requires Partitions(b, 0, size) && factor > 0
    ensures Partitions(Affine(b, factor, offset), offset, Scale(size, factor, offset))
  {
    var g, last := Affine(b, factor, offset), Scale(size, factor, offset);
    ScaleAscends(0, 0, factor, offset);
    forall s: nat | s < b.Num() ensures offset <= g.Start(s) <= g.End(s) <= last {
      assert 0 <= b.Start(s) <= b.End(s) <= size;
      ScaleAscends(0, b.Start(s), factor, offset);
      ScaleAscends(b.Start(s), b.End(s), factor, offset);
      ScaleAscends(b.End(s), size, factor, offset);
    }
    forall i: nat, s: nat | offset <= i < last && s < b.Num() ensures Finds(g, i, s) {
      ScaleAdjoint(i, size, factor, offset);
      assert Finds(b, Unscale(i, factor, offset), s);
      AffineFinds(b, size, factor, offset, i, s);
    }
  }

  lemma OffsetPartitions(b: Segmenter, size: nat, offset: nat)
    requires Partitions(b, 0, size)
    ensures Partitions(Offset(b, offset), offset, size + offset)
  {
    forall i: nat, s: nat | offset <= i < size + offset && s < b.Num() ensures Finds(Offset(b, offset), i, s) {
      assert Finds(b, i - offset, s);
    }
  }

  /// Every segment has the length of that of the base.
  lemma OffsetLengths(b: Segmenter, offset: nat, s: nat)
    ensures var g := Offset(b, offset); g.End(s) - g.Start(s) == b.End(s) - b.Start(s)
  {
  }

  /// Every segment has `factor` times the length of that of the base.
  lemma AffineLengths(b: Segmenter, factor: nat, offset: nat, s: nat)
    ensures var g := Affine(b, factor, offset); g.End(s) - g.Start(s) == factor * (b.End(s) - b.Start(s))
  {
    assert factor * (b.End(s) - b.Start(s)) == factor * b.End(s) - factor * b.Start(s);
  }

  /// The segmenters of the source, over the uniform one.
  lemma AffineUniformPartitions(u: UniformSegmenter, factor: nat, offset: nat)
    requires u.Valid() && factor > 0
    ensures Partitions(Affine(Uniform(u), factor, offset), offset, Scale(u.size, factor, offset))
    ensures Partitions(Offset(Uniform(u), offset), offset, u.size + offset)
  {
    u.UniformPartitions();
    AffinePartitions(Uniform(u), u.size, factor, offset);
    OffsetPartitions(Uniform(u), u.size, offset);
  }

  // ----- BlockedIndexSegmenter

  /// `saturate_cast<Size>(a * b)`: the product is formed first, and wraps unless the type is promoted.
  function Saturated(bits: nat, a: nat, b: nat): nat {
    if bits >= 32 then a * b % Pow2(bits) else Min(a * b, Pow2(bits) - 1)
  }

  /// The first index of block `x`, or the end of the indices.
  function Boundary(bits: nat, size: nat, block: nat, x: nat): nat { Min(Saturated(bits, block, x), size) }

  /// The end of the last block, which may lie beyond the indices, can be represented.
  predicate Fits(bits: nat, size: nat, block: nat)
    requires block > 0
  {
    bits >= 32 ==> block * DivCeil(size, block) < Pow2(bits)
  }

  lemma BlocksCover(size: nat, block: nat)
    requires block > 0
    ensures size <= block * DivCeil(size, block) < size + block
  {
    DivModOf(size, block);
    assert block * (size / block) == size / block * block && block * (size / block + 1) == size / block * block + block;
  }

  /// A boundary that can be represented is not affected by the cast.
  lemma BoundaryIs(bits: nat, size: nat, block: nat, x: nat)
    requires block > 0 && size < Pow2(bits) && Fits(bits, size, block) && x <= DivCeil(size, block)
    ensures Boundary(bits, size, block, x) == Min(Scale(x, block, 0), size)
  {
    ScaleAscends(x, DivCeil(size, block), block, 0);
    if bits >= 32 { DivModUnique(block * x, Pow2(bits), 0, block * x); }
  }

  /// No block is split: a boundary is the end of the indices or a multiple of the block size.
  lemma NoBlockIsSplit(bits: nat, size: nat, block: nat, x: nat)
    requires block > 0 && size < Pow2(bits) && Fits(bits, size, block) && x <= DivCeil(size, block)
    ensures Boundary(bits, size, block, x) == size || Boundary(bits, size, block, x) % block == 0
  {
    BoundaryIs(bits, size, block, x);
    ScaleIsMultiple(x, block);
  }

  lemma ScaleIsMultiple(x: nat, block: nat)
    requires block > 0
    ensures Scale(x, block, 0) % block == 0
  {
    MultipleMod(x, block);
    assert block * x == x * block;
  }

  lemma BoundaryAdjoint(bits: nat, size: nat, block: nat, i: nat, x: nat)
    requires block > 0 && size < Pow2(bits) && Fits(bits, size, block) && x <= DivCeil(size, block) && i < size
    ensures Boundary(bits, size, block, x) <= i <==> x <= Unscale(i, block, 0)
  {
    BoundaryIs(bits, size, block, x);
    ScaleAdjoint(i, x, block, 0);
  }

  lemma BoundaryAscends(bits: nat, size: nat, block: nat, x: nat, y: nat)
    requires block > 0 && size < Pow2(bits) && Fits(bits, size, block) && x <= y <= DivCeil(size, block)
    ensures Boundary(bits, size, block, x) <= Boundary(bits, size, block, y)
    ensures Boundary(bits, size, block, 0) == 0 && Boundary(bits, size, block, DivCeil(size, block)) == size
  {
    BlocksCover(size, block);
    BoundaryIs(bits, size, block, 0);
    BoundaryIs(bits, size, block, x);
    BoundaryIs(bits, size, block, y);
    BoundaryIs(bits, size, block, DivCeil(size, block));
    ScaleAscends(x, y, block, 0);
  }

  lemma InBlock(bits: nat, size: nat, block: nat, i: nat)
    requires block > 0 && size < Pow2(bits) && Fits(bits, size, block) && i < size
    ensures Unscale(i, block, 0) < DivCeil(size, block)
  {
    BlocksCover(size, block);
    ScaleAdjoint(i, DivCeil(size, block), block, 0);
  }

  lemma BlockedFinds(b: Segmenter, bits: nat, size: nat, block: nat, n: nat, i: nat, s: nat)
    requires block > 0 && size < Pow2(bits) && Fits(bits, size, block) && n == DivCeil(size, block) && Ranges(b, 0, n)
    requires s < b.Num() && i < size && Finds(b, Unscale(i, block, 0), s)
    ensures Finds(Blocked(b, bits, size, block), i, s)
  {
    assert 0 <= b.Start(s) <= b.End(s) <= n;
    BoundaryAdjoint(bits, size, block, i, b.Start(s));
    BoundaryAdjoint(bits, size, block, i, b.End(s));
  }

  lemma BlockedPartitions(b: Segmenter, bits: nat, size: nat, block: nat, n: nat)
    requires block > 0 && size < Pow2(bits) && Fits(bits, size, block)
    requires n == DivCeil(size, block) && Partitions(b, 0, n)
    ensures Partitions(Blocked(b, bits, size, block), 0, size)
  {
    var g := Blocked(b, bits, size, block);
    BoundaryAscends(bits, size, block, 0, n);
    forall s: nat | s < b.Num() ensures 0 <= g.Start(s) <= g.End(s) <= size {
      assert 0 <= b.Start(s) <= b.End(s) <= n;
      BoundaryAscends(bits, size, block, b.Start(s), b.End(s));
    }
    forall i: nat, s: nat | i < size && s < b.Num() ensures Finds(g, i, s) {
      InBlock(bits, size, block, i);
      assert Finds(b, Unscale(i, block, 0), s);
      BlockedFinds(b, bits, size, block, n, i, s);
    }
  }

  /// Every segment consists of whole blocks, as many as the base has, except that the last block ends with the indices.
  lemma BlockedLengths(b: Segmenter, bits: nat, size: nat, block: nat, n: nat, s: nat)
    requires block > 0 && size < Pow2(bits) && Fits(bits, size, block) && n == DivCeil(size, block)
    requires Ranges(b, 0, n) && s < b.Num() && b.Start(s) < n
    ensures var g := Blocked(b, bits, size, block);
            g.Start(s) == block * b.Start(s) && g.End(s) == if b.End(s) == n then size else block * b.End(s)
  {
    assert b.Start(s) <= b.End(s) <= n;
    BlocksCover(size, block);
    BoundaryIs(bits, size, block, b.Start(s));
    BoundaryIs(bits, size, block, b.End(s));
    BelowLast(size, block, b.Start(s));
    if b.End(s) < n { BelowLast(size, block, b.End(s)); }
  }

  lemma BelowLast(size: nat, block: nat, x: nat)
    requires block > 0 && x < DivCeil(size, block)
    ensures block * x < size
  {
    BlocksCover(size, block);
    MulAtMost(x + 1, DivCeil(size, block), block);
    assert (x + 1) * block == block * x + block && block * DivCeil(size, block) == DivCeil(size, block) * block;
  }

  /// When the end of the last block wraps, the last segment ends too early.
  lemma BoundaryWraps(bits: nat, size: nat, block: nat)
    requires 0 < block < Pow2(bits) && size < Pow2(bits) && !Fits(bits, size, block)
    ensures Boundary(bits, size, block, DivCeil(size, block)) < size
  {
    BlocksCover(size, block);
    var p := block * DivCeil(size, block);
    DivModUnique(p, Pow2(bits), 1, p - Pow2(bits));
  }

  /// The partition law holds exactly when the end of the last block can be represented.
  lemma BlockedPartitionsIff(b: Segmenter, bits: nat, size: nat, block: nat, n: nat)
    requires 0 < block < Pow2(bits) && size < Pow2(bits) && n == DivCeil(size, block) && Partitions(b, 0, n)
    ensures Partitions(Blocked(b, bits, size, block), 0, size) <==> Fits(bits, size, block)
  {
    if Fits(bits, size, block) {
      BlockedPartitions(b, bits, size, block, n);
    } else {
      BoundaryWraps(bits, size, block);
    }
  }

  lemma BlockedUniformPartitionsIff(bits: nat, size: nat, num: nat, block: nat)
    requires 0 < block < Pow2(bits) && size < Pow2(bits) && UniformSegmenter(bits, DivCeil(size, block), num).Valid()
    ensures var b := Uniform(UniformSegmenter(bits, DivCeil(size, block), num));
            Partitions(Blocked(b, bits, size, block), 0, size) <==> Fits(bits, size, block)
  {
    var u := UniformSegmenter(bits, DivCeil(size, block), num);
    u.UniformPartitions();
    BlockedPartitionsIff(Uniform(u), bits, size, block, u.size);
  }

  /// One instance of the failure: nearly 2^32 indices in blocks of 2^31 end where they begin.
  lemma BlockedCounterexample()
    ensures DivCeil(4294967295, 2147483648) == 2
    ensures Boundary(32, 4294967295, 2147483648, 0) == Boundary(32, 4294967295, 2147483648, 2) == 0
  {
    assert Pow2(32) == 4294967296 by { WordSizes(); }
  }

  // ----- PaddedIndexSegmenter

  lemma PaddedFinds(b: Segmenter, size: nat, n0: nat, n1: nat, i: nat, s: nat)
    requires Ranges(b, 0, size) && i < size + n0 + n1 && s < b.Num()
    requires n0 <= i < size + n0 ==> Finds(b, i - n0, s)
    ensures Finds(Padded(b, n0, n1), i, s)
  {
    if i < n0 {
      PaddedBefore(b, size, n0, n1, i, s);
    } else if i < size + n0 {
      PaddedInside(b, size, n0, n1, i, s);
    } else {
      PaddedBehind(b, size, n0, n1, i, s);
    }
  }

  lemma PaddedBefore(b: Segmenter, size: nat, n0: nat, n1: nat, i: nat, s: nat)
    requires Ranges(b, 0, size) && i < n0 && s < b.Num()
    ensures Finds(Padded(b, n0, n1), i, s)
  {
    assert 0 <= b.Start(s) <= b.End(s);
  }

  lemma PaddedInside(b: Segmenter, size: nat, n0: nat, n1: nat, i: nat, s: nat)
    requires Ranges(b, 0, size) && n0 <= i < size + n0 && s < b.Num() && Finds(b, i - n0, s)
    ensures Finds(Padded(b, n0, n1), i, s)
  {
    assert Padded(b, n0, n1).Of(i) == b.Of(i - n0);
    assert s == 0 ==> b.Start(s) == 0;
    assert s + 1 == b.Num() ==> b.End(s) == size;
  }

  lemma PaddedBehind(b: Segmenter, size: nat, n0: nat, n1: nat, i: nat, s: nat)
    requires Ranges(b, 0, size) && size + n0 <= i < size + n0 + n1 && s < b.Num()
    ensures Finds(Padded(b, n0, n1), i, s)
  {
    assert b.Start(s) <= b.End(s) <= size;
  }

  /// The first and the last segment are longer by the padding, all others as long as those of the base.
  lemma PaddedLengths(b: Segmenter, size: nat, n0: nat, n1: nat, s: nat)
    requires Ranges(b, 0, size) && s < b.Num()
    ensures var g := Padded(b, n0, n1);
            g.End(s) - g.Start(s) ==
            b.End(s) - b.Start(s) + (if s == 0 then n0 else 0) + if s == b.Num() - 1 then n1 else 0
  {
  }

  /// Padding keeps the partition law, for any segmenter that starts at 0.
  lemma PaddedPartitions(b: Segmenter, size: nat, n0: nat, n1: nat)
    requires Partitions(b, 0, size)
    ensures Partitions(Padded(b, n0, n1), 0, size + n0 + n1)
  {
    forall i: nat, s: nat | i < size + n0 + n1 && s < b.Num() ensures Finds(Padded(b, n0, n1), i, s) {
      assert n0 <= i < size + n0 ==> Finds(b, i - n0, s);
      PaddedFinds(b, size, n0, n1, i, s);
    }
  }

  /// The comment on the adapter allows any start of the wrapped segmenter, but the first segment always starts at 0.
  lemma PaddedPartitionsIff(b: Segmenter, first: nat, last: nat, n0: nat, n1: nat)
    requires Partitions(b, first, last)
    ensures Partitions(Padded(b, n0, n1), first, last + n0 + n1) <==> first == 0
  {
    if first == 0 { PaddedPartitions(b, last, n0, n1); } else { assert Padded(b, n0, n1).Start(0) == 0; }
  }

  /// Any segmenter moved to start at 1 is an instance of the failure: with an index of padding before it, its first
  /// segment starts at 0 instead of 1.
  lemma PaddedFails(b: Segmenter, size: nat)
    requires Partitions(b, 0, size)
    ensures Partitions(Offset(b, 1), 1, size + 1) && !Partitions(Padded(Offset(b, 1), 1, 0), 1, size + 2)
    ensures Padded(Offset(b, 1), 1, 0).Start(0) == 0
  {
    OffsetPartitions(b, size, 1);
    PaddedPartitionsIff(Offset(b, 1), 1, size + 1, 1, 0);
  }
}
