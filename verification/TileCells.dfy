/**
 The cells of a tile, one by one and in vectors, and the whole tiled traversal
 (include/thesauros/algorithms/ranges/for-each-tile.hpp).
 */
module TileCells {
  import opened Arith
  import opened Sequences
  import opened Tiling
  import MixedRadix

  ghost predicate RangesOk(tile: seq<Range>, strides: seq<nat>) {
    1 <= |tile| == |strides| && forall d :: 0 <= d < |tile| ==> tile[d].Ok()
  }

  // ----- tile_for_each, cell by cell

  /// What is visited under index `i` of the axis after `coords`.
  function CellsAt(strides: seq<nat>, tile: seq<Range>, index: int, coords: seq<nat>, i: nat): seq<Visit>
    requires RangesOk(tile, strides) && |coords| < |tile|
    decreases |tile| - |coords|, 0, 1
  {
    if |coords| + 1 < |tile| then Cells(strides, tile, index + i * strides[|coords|], coords + [i])
    else [Visit(index + i, coords + [i])]
  }

  function CellsFrom(strides: seq<nat>, tile: seq<Range>, index: int, coords: seq<nat>, lo: nat, hi: nat): seq<Visit>
    requires RangesOk(tile, strides) && |coords| < |tile|
    decreases |tile| - |coords|, 1, if lo < hi then hi - lo else 0
  {
    if lo >= hi then []
    else CellsAt(strides, tile, index, coords, lo) + CellsFrom(strides, tile, index, coords, lo + 1, hi)
  }

  function Cells(strides: seq<nat>, tile: seq<Range>, index: int, coords: seq<nat>): seq<Visit>
    requires RangesOk(tile, strides) && |coords| < |tile|
    decreases |tile| - |coords|, 2, 0
  {
    CellsFrom(strides, tile, index, coords, tile[|coords|].lo, tile[|coords|].hi)
  }

  lemma CellsBack(strides: seq<nat>, tile: seq<Range>, index: int, coords: seq<nat>, lo: nat, hi: nat)
    requires RangesOk(tile, strides) && |coords| < |tile| && lo < hi
    ensures Reverse(CellsFrom(strides, tile, index, coords, lo, hi)) ==
            Reverse(CellsFrom(strides, tile, index, coords, lo + 1, hi)) +
            Reverse(CellsAt(strides, tile, index, coords, lo))
  {
    ReverseConcat(CellsAt(strides, tile, index, coords, lo), CellsFrom(strides, tile, index, coords, lo + 1, hi));
  }

  method TileForEach(dir: Direction, strides: seq<nat>, tile: seq<Range>, index: int, coords: seq<nat>)
    returns (trace: seq<Visit>)
    requires RangesOk(tile, strides) && |coords| < |tile|
    ensures trace == Directed(dir, Cells(strides, tile, index, coords))
    decreases |tile| - |coords|, 2
  {
    var begin, end := tile[|coords|].lo, tile[|coords|].hi;
    if dir == Forward {
      trace := AxisForward(strides, tile, index, coords, begin, end);
    } else {
      trace := AxisBackward(strides, tile, index, coords, begin, end);
    }
  }

  method AxisForward(strides: seq<nat>, tile: seq<Range>, index: int, coords: seq<nat>, begin: nat, end: nat)
    returns (trace: seq<Visit>)
    requires RangesOk(tile, strides) && |coords| < |tile| && begin <= end
    ensures trace == CellsFrom(strides, tile, index, coords, begin, end)
    decreases |tile| - |coords|, 1
  {
    trace := [];
    var i := begin;
    while i < end
      invariant begin <= i <= end
      invariant CellsFrom(strides, tile, index, coords, begin, end) ==
                trace + CellsFrom(strides, tile, index, coords, i, end)
    {
      var sub := CellOrAxis(Forward, strides, tile, index, coords, i);
      Associative(trace, sub, CellsFrom(strides, tile, index, coords, i + 1, end));
      trace := trace + sub;
      i := i + 1;
    }
  }

  method AxisBackward(strides: seq<nat>, tile: seq<Range>, index: int, coords: seq<nat>, begin: nat, end: nat)
    returns (trace: seq<Visit>)
    requires RangesOk(tile, strides) && |coords| < |tile| && begin <= end
    ensures trace == Reverse(CellsFrom(strides, tile, index, coords, begin, end))
    decreases |tile| - |coords|, 1
  {
    trace := [];
    var i := end;
    while i > begin
      invariant begin <= i <= end
      invariant trace == Reverse(CellsFrom(strides, tile, index, coords, i, end))
    {
      i := i - 1;
      var sub := CellOrAxis(Backward, strides, tile, index, coords, i);
      CellsBack(strides, tile, index, coords, i, end);
      trace := trace + sub;
    }
  }

  /// The body of the loops: the next axis, or the callback.
  method CellOrAxis(dir: Direction, strides: seq<nat>, tile: seq<Range>, index: int, coords: seq<nat>, i: nat)
    returns (sub: seq<Visit>)
    requires RangesOk(tile, strides) && |coords| < |tile|
    ensures sub == Directed(dir, CellsAt(strides, tile, index, coords, i))
    decreases |tile| - |coords|, 0
  {
    if |coords| + 1 < |tile| {
      var next := index + i * strides[|coords|];
      sub := TileForEach(dir, strides, tile, next, coords + [i]);
      assert CellsAt(strides, tile, index, coords, i) == Cells(strides, tile, next, coords + [i]);
    } else {
      sub := [Visit(index + i, coords + [i])];
      LastAxis(dir, strides, tile, index, coords, i);
    }
  }

  lemma LastAxis(dir: Direction, strides: seq<nat>, tile: seq<Range>, index: int, coords: seq<nat>, i: nat)
    requires RangesOk(tile, strides) && |coords| + 1 == |tile|
    ensures Directed(dir, CellsAt(strides, tile, index, coords, i)) == [Visit(index + i, coords + [i])]
  {
    ReverseOne(Visit(index + i, coords + [i]));
  }

  // ----- every cell of the tile once

  function CountVisits(vs: seq<Visit>, pos: seq<nat>): nat {
    if |vs| == 0 then 0 else (if vs[0].pos == pos then 1 else 0) + CountVisits(vs[1..], pos)
  }

  lemma {:induction false} CountConcat(a: seq<Visit>, b: seq<Visit>, pos: seq<nat>)
    ensures CountVisits(a + b, pos) == CountVisits(a, pos) + CountVisits(b, pos)
  {
    if |a| == 0 {
      assert a + b == b;
    } else {
      CountConcat(a[1..], b, pos);
      assert (a + b)[1..] == a[1..] + b;
    }
  }

  lemma {:induction false} CountReverse(a: seq<Visit>, pos: seq<nat>)
    ensures CountVisits(Reverse(a), pos) == CountVisits(a, pos)
  {
    if |a| > 0 {
      var n := |a| - 1;
      CountReverse(a[..n], pos);
      assert a == a[..n] + [a[n]];
      CountConcat(a[..n], [a[n]], pos);
      CountConcat([a[n]], Reverse(a[..n]), pos);
    }
  }

  lemma {:induction false} CellsOnce(strides: seq<nat>, tile: seq<Range>, index: int, coords: seq<nat>, pos: seq<nat>)
    requires RangesOk(tile, strides) && |coords| < |tile| == |pos|
    ensures CountVisits(Cells(strides, tile, index, coords), pos) ==
            if coords == pos[..|coords|] && InTile(tile, pos, |coords|) then 1 else 0
    decreases |tile| - |coords|, 2, 0
  {
    CellsFromOnce(strides, tile, index, coords, pos, tile[|coords|].lo, tile[|coords|].hi);
  }

  lemma {:induction false} CellsFromOnce(strides: seq<nat>, tile: seq<Range>, index: int, coords: seq<nat>,
                                         pos: seq<nat>, lo: nat, hi: nat)
    requires RangesOk(tile, strides) && |coords| < |tile| == |pos|
    ensures CountVisits(CellsFrom(strides, tile, index, coords, lo, hi), pos) ==
            if coords == pos[..|coords|] && lo <= pos[|coords|] < hi && InTile(tile, pos, |coords| + 1) then 1 else 0
    decreases |tile| - |coords|, 1, if lo < hi then hi - lo else 0
  {
    if lo < hi {
      var at := CellsAt(strides, tile, index, coords, lo);
      CellsAtOnce(strides, tile, index, coords, pos, lo);
      CellsFromOnce(strides, tile, index, coords, pos, lo + 1, hi);
      CountConcat(at, CellsFrom(strides, tile, index, coords, lo + 1, hi), pos);
    }
  }

  lemma {:induction false} CellsAtOnce(strides: seq<nat>, tile: seq<Range>, index: int, coords: seq<nat>,
                                       pos: seq<nat>, i: nat)
    requires RangesOk(tile, strides) && |coords| < |tile| == |pos|
    ensures CountVisits(CellsAt(strides, tile, index, coords, i), pos) ==
            if coords == pos[..|coords|] && pos[|coords|] == i && InTile(tile, pos, |coords| + 1) then 1 else 0
    decreases |tile| - |coords|, 0, 1
  {
    var d := |coords|;
    var next := coords + [i];
    assert next == pos[..d + 1] <==> coords == pos[..d] && pos[d] == i by {
      assert pos[..d + 1] == pos[..d] + [pos[d]];
      if next == pos[..d + 1] { assert next[..d] == pos[..d + 1][..d] && next[d] == pos[..d + 1][d]; }
    }
    if d + 1 < |tile| {
      CellsOnce(strides, tile, index + i * strides[d], next, pos);
    } else {
      assert pos[..d + 1] == pos;
      assert [Visit(index + i, next)][1..] == [];
    }
  }

  // ----- the flat index

  /// The dot product of a position with the strides; the stride of the last axis is 1.
  function Dot(strides: seq<nat>, pos: seq<nat>, n: nat): int
    requires n <= |pos| && n <= |strides|
  {
    if n == 0 then 0 else Dot(strides, pos, n - 1) + pos[n - 1] * if n == |strides| then 1 else strides[n - 1]
  }

  lemma {:induction false} DotExtends(strides: seq<nat>, coords: seq<nat>, i: nat, n: nat)
    requires n <= |coords| < |strides|
    ensures Dot(strides, coords + [i], n) == Dot(strides, coords, n)
  {
    if n > 0 { DotExtends(strides, coords, i, n - 1); }
  }

  /// Every visit passes the flat index of its position.
  ghost predicate Indexed(strides: seq<nat>, vs: seq<Visit>) {
    forall k :: 0 <= k < |vs| ==> |vs[k].pos| == |strides| && vs[k].index == Dot(strides, vs[k].pos, |strides|)
  }

  lemma {:induction false} CellsIndexed(strides: seq<nat>, tile: seq<Range>, index: int, coords: seq<nat>, lo: nat,
                                        hi: nat)
    requires RangesOk(tile, strides) && |coords| < |tile| && index == Dot(strides, coords, |coords|)
    ensures Indexed(strides, CellsFrom(strides, tile, index, coords, lo, hi))
    decreases |tile| - |coords|, 1, if lo < hi then hi - lo else 0
  {
    if lo < hi {
      var at, rest := CellsAt(strides, tile, index, coords, lo), CellsFrom(strides, tile, index, coords, lo + 1, hi);
      CellsAtIndexed(strides, tile, index, coords, lo);
      CellsIndexed(strides, tile, index, coords, lo + 1, hi);
      IndexedConcat(strides, at, rest);
    }
  }

  lemma IndexedConcat(strides: seq<nat>, a: seq<Visit>, b: seq<Visit>)
    requires Indexed(strides, a) && Indexed(strides, b)
    ensures Indexed(strides, a + b)
  {
  }

  lemma {:induction false} CellsAtIndexed(strides: seq<nat>, tile: seq<Range>, index: int, coords: seq<nat>, i: nat)
    requires RangesOk(tile, strides) && |coords| < |tile| && index == Dot(strides, coords, |coords|)
    ensures Indexed(strides, CellsAt(strides, tile, index, coords, i))
    decreases |tile| - |coords|, 0, 1
  {
    var d := |coords|;
    var next := coords + [i];
    DotExtends(strides, coords, i, d);
    if d + 1 < |tile| {
      CellsIndexed(strides, tile, index + i * strides[d], next, tile[d + 1].lo, tile[d + 1].hi);
    } else {
      assert Dot(strides, next, d + 1) == index + i;
    }
  }

  /// With the postfix products of the sizes as strides, that is `position_to_index`.
  lemma {:induction false} DotIsPositionToIndex(sizes: seq<nat>, strides: seq<nat>, pos: seq<nat>, n: nat)
    requires n <= |pos| == |sizes| == |strides|
    requires forall d :: 0 <= d < |sizes| ==> strides[d] == MixedRadix.ProductFrom(sizes, d + 1)
    ensures Dot(strides, pos, n) == MixedRadix.PositionToIndex(pos, MixedRadix.PostfixProducts(sizes), n)
  {
    if n > 0 { DotIsPositionToIndex(sizes, strides, pos, n - 1); }
  }

  // ----- tile_for_each, vectorized

  /// The callback of one piece of a row.
  function RowVisit(index: int, coords: seq<nat>, p: Piece): VecVisit
    requires p.range.Ok()
  {
    VecVisit(index + p.range.lo, coords + [p.range.lo], p.range.hi - p.range.lo, p.full)
  }

  /// The vectors of one row along the last axis.
  function Row(index: int, coords: seq<nat>, ps: seq<Piece>): seq<VecVisit>
    requires forall k :: 0 <= k < |ps| ==> ps[k].range.Ok()
  {
    if |ps| == 0 then []
    else [RowVisit(index, coords, ps[0])] + Row(index, coords, ps[1..])
  }

  lemma PiecesOk(lo: nat, hi: nat, v: nat)
    requires lo <= hi && v > 0
    ensures forall k :: 0 <= k < |Pieces(lo, hi, v)| ==> Pieces(lo, hi, v)[k].range.Ok()
  {
    PiecesCoverOnce(lo, hi, v, 0);
  }

  function RowOf(index: int, coords: seq<nat>, lo: nat, hi: nat, v: nat): seq<VecVisit>
    requires lo <= hi && v > 0
  {
    PiecesOk(lo, hi, v);
    Row(index, coords, Pieces(lo, hi, v))
  }

  function VecAt(strides: seq<nat>, tile: seq<Range>, v: nat, index: int, coords: seq<nat>, i: nat): seq<VecVisit>
    requires RangesOk(tile, strides) && |coords| + 1 < |tile| && v > 0
    decreases |tile| - |coords|, 0, 1
  {
    VecCells(strides, tile, v, index + i * strides[|coords|], coords + [i])
  }

  function VecFrom(strides: seq<nat>, tile: seq<Range>, v: nat, index: int, coords: seq<nat>, lo: nat,
                   hi: nat): seq<VecVisit>
    requires RangesOk(tile, strides) && |coords| + 1 < |tile| && v > 0
    decreases |tile| - |coords|, 1, if lo < hi then hi - lo else 0
  {
    if lo >= hi then []
    else VecAt(strides, tile, v, index, coords, lo) + VecFrom(strides, tile, v, index, coords, lo + 1, hi)
  }

  function VecCells(strides: seq<nat>, tile: seq<Range>, v: nat, index: int, coords: seq<nat>): seq<VecVisit>
    requires RangesOk(tile, strides) && |coords| < |tile| && v > 0
    decreases |tile| - |coords|, 2, 0
  {
    var r := tile[|coords|];
    if |coords| + 1 == |tile| then RowOf(index, coords, r.lo, r.hi, v)
    else VecFrom(strides, tile, v, index, coords, r.lo, r.hi)
  }

  /// The cells one vector covers, and those of a sequence of vectors.
  function Expand(index: int, coords: seq<nat>, x: nat, len: nat): seq<Visit>
    decreases len
  {
    if len == 0 then [] else [Visit(index, coords + [x])] + Expand(index + 1, coords, x + 1, len - 1)
  }

  function ExpandAll(vs: seq<VecVisit>): seq<Visit>
    requires forall k :: 0 <= k < |vs| ==> |vs[k].pos| > 0
  {
    if |vs| == 0 then [] else ExpandOne(vs[0]) + ExpandAll(vs[1..])
  }

  function ExpandOne(v: VecVisit): seq<Visit>
    requires |v.pos| > 0
  {
    var n := |v.pos| - 1;
    Expand(v.index, v.pos[..n], v.pos[n], v.len)
  }

  ghost predicate Placed(vs: seq<VecVisit>) { forall k :: 0 <= k < |vs| ==> |vs[k].pos| > 0 }

  lemma {:induction false} ExpandConcat(a: seq<VecVisit>, b: seq<VecVisit>)
    requires Placed(a) && Placed(b)
    ensures Placed(a + b) && ExpandAll(a + b) == ExpandAll(a) + ExpandAll(b)
  {
    if |a| == 0 {
      assert a + b == b;
    } else {
      ExpandConcat(a[1..], b);
      DropConcat(a, b);
      Associative(ExpandOne(a[0]), ExpandAll(a[1..]), ExpandAll(b));
    }
  }

  lemma {:induction false} ExpandIsCells(strides: seq<nat>, tile: seq<Range>, index: int, coords: seq<nat>, lo: nat,
                                         hi: nat)
    requires RangesOk(tile, strides) && |coords| + 1 == |tile| && lo <= hi
    ensures Expand(index + lo, coords, lo, hi - lo) == CellsFrom(strides, tile, index, coords, lo, hi)
    decreases hi - lo
  {
    if lo < hi { ExpandIsCells(strides, tile, index, coords, lo + 1, hi); }
  }

  lemma {:induction false} ExpandSplit(index: int, coords: seq<nat>, x: nat, a: nat, b: nat)
    ensures Expand(index, coords, x, a + b) == Expand(index, coords, x, a) + Expand(index + a, coords, x + a, b)
    decreases a
  {
    if a > 0 {
      ExpandSplit(index + 1, coords, x + 1, a - 1, b);
      Associative([Visit(index, coords + [x])], Expand(index + 1, coords, x + 1, a - 1),
                  Expand(index + a, coords, x + a, b));
    }
  }

  lemma {:induction false} ExpandRowOf(index: int, coords: seq<nat>, lo: nat, hi: nat, v: nat)
    requires lo <= hi && v > 0
    ensures Placed(RowOf(index, coords, lo, hi, v))
    ensures ExpandAll(RowOf(index, coords, lo, hi, v)) == Expand(index + lo, coords, lo, hi - lo)
    decreases hi - lo
  {
    if lo < hi {
      var m := if lo + v <= hi then lo + v else hi;
      ExpandRowOf(index, coords, m, hi, v);
      FirstOfRow(index, coords, lo, m, hi, v);
      ExpandRow(VecVisit(index + lo, coords + [lo], m - lo, lo + v <= hi), coords, lo, RowOf(index, coords, m, hi, v));
      ExpandSplit(index + lo, coords, lo, m - lo, hi - m);
    }
  }

  lemma FirstOfRow(index: int, coords: seq<nat>, lo: nat, m: nat, hi: nat, v: nat)
    requires lo < m <= hi && v > 0 && m == if lo + v <= hi then lo + v else hi
    ensures RowOf(index, coords, lo, hi, v) ==
            [VecVisit(index + lo, coords + [lo], m - lo, lo + v <= hi)] + RowOf(index, coords, m, hi, v)
  {
    PiecesOk(lo, hi, v);
    PiecesOk(m, hi, v);
    var p := Piece(Range(lo, m), lo + v <= hi);
    assert Pieces(lo, hi, v) == [p] + Pieces(m, hi, v);
    RowCons(index, coords, p, Pieces(m, hi, v));
  }

  lemma ExpandRow(head: VecVisit, coords: seq<nat>, lo: nat, rest: seq<VecVisit>)
    requires head.pos == coords + [lo] && Placed(rest)
    ensures Placed([head] + rest)
    ensures ExpandAll([head] + rest) == Expand(head.index, coords, lo, head.len) + ExpandAll(rest)
  {
    assert (coords + [lo])[..|coords|] == coords;
    assert ([head] + rest)[1..] == rest;
  }

  /// Full vectors and tails together cover exactly the cells of the tile, in order.
  lemma {:induction false} VectorsCoverCells(strides: seq<nat>, tile: seq<Range>, v: nat, index: int, coords: seq<nat>)
    requires RangesOk(tile, strides) && |coords| < |tile| && v > 0
    ensures Placed(VecCells(strides, tile, v, index, coords))
    ensures ExpandAll(VecCells(strides, tile, v, index, coords)) == Cells(strides, tile, index, coords)
    decreases |tile| - |coords|, 2, 0
  {
    var r := tile[|coords|];
    if |coords| + 1 == |tile| {
      ExpandRowOf(index, coords, r.lo, r.hi, v);
      ExpandIsCells(strides, tile, index, coords, r.lo, r.hi);
    } else {
      VecFromCover(strides, tile, v, index, coords, r.lo, r.hi);
    }
  }

  lemma {:induction false} VecFromCover(strides: seq<nat>, tile: seq<Range>, v: nat, index: int, coords: seq<nat>,
                                        lo: nat, hi: nat)
    requires RangesOk(tile, strides) && |coords| + 1 < |tile| && v > 0
    ensures Placed(VecFrom(strides, tile, v, index, coords, lo, hi))
    ensures ExpandAll(VecFrom(strides, tile, v, index, coords, lo, hi)) ==
            CellsFrom(strides, tile, index, coords, lo, hi)
    decreases |tile| - |coords|, 1, if lo < hi then hi - lo else 0
  {
    if lo < hi {
      var head := VecAt(strides, tile, v, index, coords, lo);
      var rest := VecFrom(strides, tile, v, index, coords, lo + 1, hi);
      assert VecFrom(strides, tile, v, index, coords, lo, hi) == head + rest;
      VectorsCoverCells(strides, tile, v, index + lo * strides[|coords|], coords + [lo]);
      VecFromCover(strides, tile, v, index, coords, lo + 1, hi);
      ExpandConcat(head, rest);
      assert ExpandAll(head) == CellsAt(strides, tile, index, coords, lo);
    }
  }

  /// A full visit has exactly `v` cells, a tail at least one and fewer.
  ghost predicate Sized(vs: seq<VecVisit>, v: nat) {
    forall k :: 0 <= k < |vs| ==> if vs[k].full then vs[k].len == v else 0 < vs[k].len < v
  }

  lemma {:induction false} PiecesSized(lo: nat, hi: nat, v: nat, index: int, coords: seq<nat>)
    requires lo <= hi && v > 0
    ensures Sized(RowOf(index, coords, lo, hi, v), v)
    decreases hi - lo
  {
    PiecesOk(lo, hi, v);
    var ps := Pieces(lo, hi, v);
    if lo + v <= hi {
      PiecesSized(lo + v, hi, v, index, coords);
      assert ps[1..] == Pieces(lo + v, hi, v);
    } else if lo != hi {
      assert ps == [Piece(Range(lo, hi), false)] + [];
      RowCons(index, coords, ps[0], []);
    }
  }

  lemma SizedConcat(a: seq<VecVisit>, b: seq<VecVisit>, v: nat)
    requires Sized(a, v) && Sized(b, v)
    ensures Sized(a + b, v)
  {
  }

  lemma {:induction false} VecFromSized(strides: seq<nat>, tile: seq<Range>, v: nat, index: int, coords: seq<nat>,
                                        lo: nat, hi: nat)
    requires RangesOk(tile, strides) && |coords| + 1 < |tile| && v > 0
    ensures Sized(VecFrom(strides, tile, v, index, coords, lo, hi), v)
    decreases |tile| - |coords|, 1, if lo < hi then hi - lo else 0
  {
    if lo < hi {
      VecCellsSized(strides, tile, v, index + lo * strides[|coords|], coords + [lo]);
      VecFromSized(strides, tile, v, index, coords, lo + 1, hi);
      SizedConcat(VecAt(strides, tile, v, index, coords, lo), VecFrom(strides, tile, v, index, coords, lo + 1, hi), v);
    }
  }

  lemma {:induction false} VecCellsSized(strides: seq<nat>, tile: seq<Range>, v: nat, index: int, coords: seq<nat>)
    requires RangesOk(tile, strides) && |coords| < |tile| && v > 0
    ensures Sized(VecCells(strides, tile, v, index, coords), v)
    decreases |tile| - |coords|, 2, 0
  {
    var r := tile[|coords|];
    if |coords| + 1 == |tile| {
      PiecesSized(r.lo, r.hi, v, index, coords);
    } else {
      VecFromSized(strides, tile, v, index, coords, r.lo, r.hi);
    }
  }

  /// One row. Without a tail the length must be a multiple of the vector size, as the code asserts.
  method VecRow(dir: Direction, index: int, coords: seq<nat>, lo: nat, hi: nat, v: nat,
                hasPart: bool) returns (trace: seq<VecVisit>)
    requires lo <= hi && v > 0 && (!hasPart ==> (hi - lo) % v == 0)
    ensures trace == Directed(dir, RowOf(index, coords, lo, hi, v))
    ensures !hasPart ==> forall k :: 0 <= k < |trace| ==> trace[k].full
  {
    PiecesOk(lo, hi, v);
    var pieces;
    if hasPart { pieces := Unroll(dir, lo, hi, v); } else { pieces := UnrollFull(dir, lo, hi, v); }
    trace := EmitRow(index, coords, pieces);
    if dir == Backward { RowReverse(index, coords, Pieces(lo, hi, v)); }
  }

  /// The callback for every piece of a row.
  method EmitRow(index: int, coords: seq<nat>, pieces: seq<Piece>) returns (trace: seq<VecVisit>)
    requires forall k :: 0 <= k < |pieces| ==> pieces[k].range.Ok()
    ensures trace == Row(index, coords, pieces) && |trace| == |pieces|
    ensures forall k :: 0 <= k < |trace| ==> trace[k].full == pieces[k].full
  {
    trace := [];
    var k := 0;
    while k < |pieces|
      invariant k <= |pieces| && |trace| == k
      invariant trace == Row(index, coords, pieces[..k])
      invariant forall j :: 0 <= j < |trace| ==> trace[j].full == pieces[j].full
    {
      var r := pieces[k].range;
      RowAppend(index, coords, pieces, k);
      trace := trace + [VecVisit(index + r.lo, coords + [r.lo], r.hi - r.lo, pieces[k].full)];
      k := k + 1;
    }
    assert pieces[..|pieces|] == pieces;
  }

  lemma {:induction false} RowReverse(index: int, coords: seq<nat>, ps: seq<Piece>)
    requires forall k :: 0 <= k < |ps| ==> ps[k].range.Ok()
    ensures Row(index, coords, Reverse(ps)) == Reverse(Row(index, coords, ps))
  {
    if |ps| > 0 {
      var n := |ps| - 1;
      RowReverse(index, coords, ps[..n]);
      RowAppend(index, coords, ps, n);
      assert ps[..n + 1] == ps;
      ReverseSnoc(Row(index, coords, ps[..n]), RowVisit(index, coords, ps[n]));
      assert Reverse(ps) == [ps[n]] + Reverse(ps[..n]);
      RowCons(index, coords, ps[n], Reverse(ps[..n]));
    }
  }

  lemma RowCons(index: int, coords: seq<nat>, p: Piece, ps: seq<Piece>)
    requires p.range.Ok() && forall k :: 0 <= k < |ps| ==> ps[k].range.Ok()
    ensures Row(index, coords, [p] + ps) == [RowVisit(index, coords, p)] + Row(index, coords, ps)
  {
    assert ([p] + ps)[1..] == ps;
  }

  lemma {:induction false} RowAppend(index: int, coords: seq<nat>, ps: seq<Piece>, k: nat)
    requires k < |ps| && forall j :: 0 <= j < |ps| ==> ps[j].range.Ok()
    ensures Row(index, coords, ps[..k + 1]) == Row(index, coords, ps[..k]) + [RowVisit(index, coords, ps[k])]
  {
    if k == 0 {
      assert ps[..1][1..] == [] && ps[..0] == [];
    } else {
      RowAppend(index, coords, ps[1..], k - 1);
      assert ps[..k + 1][1..] == ps[1..][..k] && ps[..k][1..] == ps[1..][..k - 1];
    }
  }

  /// The loops of the instance without a tail.
  method UnrollFull(dir: Direction, lo: nat, hi: nat, v: nat) returns (trace: seq<Piece>)
    requires lo <= hi && v > 0 && (hi - lo) % v == 0
    ensures trace == Directed(dir, Pieces(lo, hi, v))
    ensures forall k :: 0 <= k < |trace| ==> trace[k].full
  {
    PiecesSplit(lo, hi, v);
    ghost var q: int := (hi - lo) / v;
    if dir == Forward { trace := FullForward(lo, hi, v, q); } else { trace := FullBackward(lo, hi, v, q); }
  }

  method FullForward(lo: nat, hi: nat, v: nat, ghost q0: int) returns (trace: seq<Piece>)
    requires lo <= hi && v > 0 && FullUpTo(lo, hi, v, q0)
    ensures trace == Pieces(lo, hi, v) && forall k :: 0 <= k < |trace| ==> trace[k].full
  {
    trace := [];
    var i := lo;
    ghost var q := q0;
    while i < hi
      invariant lo <= i <= hi && FullUpTo(i, hi, v, q)
      invariant Pieces(lo, hi, v) == trace + Pieces(i, hi, v)
      invariant forall k :: 0 <= k < |trace| ==> trace[k].full
    {
      PiecesLast(i, hi, v, q);
      NextFull(i, hi, v, q);
      trace := trace + [Piece(Range(i, i + v), true)];
      i := i + v;
      q := q - 1;
    }
  }

  method FullBackward(lo: nat, hi: nat, v: nat, ghost q0: int) returns (trace: seq<Piece>)
    requires lo <= hi && v > 0 && FullUpTo(lo, hi, v, q0)
    ensures trace == Reverse(Pieces(lo, hi, v)) && forall k :: 0 <= k < |trace| ==> trace[k].full
  {
    trace := [];
    var i := hi;
    ghost var q := q0;
    while i > lo
      invariant lo <= i && FullUpTo(lo, i, v, q)
      invariant Reverse(Pieces(lo, hi, v)) == trace + Reverse(Pieces(lo, i, v))
      invariant forall k :: 0 <= k < |trace| ==> trace[k].full
      decreases i
    {
      PiecesLast(lo, i, v, q);
      ReverseSnoc(Pieces(lo, i - v, v), Piece(Range(i - v, i), true));
      Associative(trace, [Piece(Range(i - v, i), true)], Reverse(Pieces(lo, i - v, v)));
      trace := trace + [Piece(Range(i - v, i), true)];
      q := q - 1;
      i := i - v;
    }
  }

  lemma NextFull(i: nat, hi: nat, v: nat, q: int)
    requires FullUpTo(i, hi, v, q)
    ensures FullUpTo(i + v, hi, v, q - 1)
  {
    assert (q - 1) * v == q * v - v;
  }

  lemma VecBack(strides: seq<nat>, tile: seq<Range>, v: nat, index: int, coords: seq<nat>, lo: nat, hi: nat)
    requires RangesOk(tile, strides) && |coords| + 1 < |tile| && v > 0 && lo < hi
    ensures Reverse(VecFrom(strides, tile, v, index, coords, lo, hi)) ==
            Reverse(VecFrom(strides, tile, v, index, coords, lo + 1, hi)) +
            Reverse(VecAt(strides, tile, v, index, coords, lo))
  {
    ReverseConcat(VecAt(strides, tile, v, index, coords, lo), VecFrom(strides, tile, v, index, coords, lo + 1, hi));
  }

  method TileForEachVec(dir: Direction, strides: seq<nat>, tile: seq<Range>, v: nat, hasPart: bool, index: int,
                        coords: seq<nat>)
    returns (trace: seq<VecVisit>)
    requires RangesOk(tile, strides) && |coords| < |tile| && v > 0
    requires !hasPart ==> (tile[|tile| - 1].hi - tile[|tile| - 1].lo) % v == 0
    ensures trace == Directed(dir, VecCells(strides, tile, v, index, coords))
    ensures !hasPart ==> forall k :: 0 <= k < |trace| ==> trace[k].full
    decreases |tile| - |coords|, 1
  {
    var begin, end := tile[|coords|].lo, tile[|coords|].hi;
    if |coords| + 1 == |tile| {
      trace := VecRow(dir, index, coords, begin, end, v, hasPart);
    } else if dir == Forward {
      trace := VecAxisForward(strides, tile, v, hasPart, index, coords, begin, end);
    } else {
      trace := VecAxisBackward(strides, tile, v, hasPart, index, coords, begin, end);
    }
  }

  method VecAxisForward(strides: seq<nat>, tile: seq<Range>, v: nat, hasPart: bool, index: int, coords: seq<nat>,
                        begin: nat, end: nat)
    returns (trace: seq<VecVisit>)
    requires RangesOk(tile, strides) && |coords| + 1 < |tile| && v > 0 && begin <= end
    requires !hasPart ==> (tile[|tile| - 1].hi - tile[|tile| - 1].lo) % v == 0
    ensures trace == VecFrom(strides, tile, v, index, coords, begin, end)
    ensures !hasPart ==> forall k :: 0 <= k < |trace| ==> trace[k].full
    decreases |tile| - |coords|, 0
  {
    trace := [];
    var i := begin;
    while i < end
      invariant begin <= i <= end
      invariant VecFrom(strides, tile, v, index, coords, begin, end) ==
                trace + VecFrom(strides, tile, v, index, coords, i, end)
      invariant !hasPart ==> forall k :: 0 <= k < |trace| ==> trace[k].full
    {
      var next := index + i * strides[|coords|];
      var sub := TileForEachVec(Forward, strides, tile, v, hasPart, next, coords + [i]);
      assert VecAt(strides, tile, v, index, coords, i) == VecCells(strides, tile, v, next, coords + [i]);
      Associative(trace, sub, VecFrom(strides, tile, v, index, coords, i + 1, end));
      trace := trace + sub;
      i := i + 1;
    }
  }

  method VecAxisBackward(strides: seq<nat>, tile: seq<Range>, v: nat, hasPart: bool, index: int, coords: seq<nat>,
                         begin: nat, end: nat)
    returns (trace: seq<VecVisit>)
    requires RangesOk(tile, strides) && |coords| + 1 < |tile| && v > 0 && begin <= end
    requires !hasPart ==> (tile[|tile| - 1].hi - tile[|tile| - 1].lo) % v == 0
    ensures trace == Reverse(VecFrom(strides, tile, v, index, coords, begin, end))
    ensures !hasPart ==> forall k :: 0 <= k < |trace| ==> trace[k].full
    decreases |tile| - |coords|, 0
  {
    trace := [];
    var i := end;
    while i > begin
      invariant begin <= i <= end
      invariant trace == Reverse(VecFrom(strides, tile, v, index, coords, i, end))
      invariant !hasPart ==> forall k :: 0 <= k < |trace| ==> trace[k].full
    {
      i := i - 1;
      var next := index + i * strides[|coords|];
      var sub := TileForEachVec(Backward, strides, tile, v, hasPart, next, coords + [i]);
      assert VecAt(strides, tile, v, index, coords, i) == VecCells(strides, tile, v, next, coords + [i]);
      VecBack(strides, tile, v, index, coords, i, end);
      trace := trace + sub;
    }
  }
}
