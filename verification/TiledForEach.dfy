/** The two `tiled_for_each` of include/thesauros/algorithms/ranges/for-each-tile.hpp: tiles, and the cells in them. */
module TiledForEach {
  import opened Arith
  import opened Sequences
  import opened Tiling
  import opened TileCells

  ghost predicate TilesOk(ts: seq<Tile>, strides: seq<nat>) {
    forall k :: 0 <= k < |ts| ==> RangesOk(ts[k].ranges, strides)
  }

  /// The visits of a sequence of tiles.
  function Visits(strides: seq<nat>, ts: seq<Tile>): seq<Visit>
    requires TilesOk(ts, strides)
  {
    if |ts| == 0 then [] else Cells(strides, ts[0].ranges, 0, []) + Visits(strides, ts[1..])
  }

  function VecVisits(strides: seq<nat>, v: nat, ts: seq<Tile>): seq<VecVisit>
    requires TilesOk(ts, strides) && v > 0
  {
    if |ts| == 0 then [] else VecCells(strides, ts[0].ranges, v, 0, []) + VecVisits(strides, v, ts[1..])
  }

  // ----- what the tiles are like

  ghost predicate PiecesFit(ps: seq<Piece>) { forall k :: 0 <= k < |ps| ==> ps[k].range.Ok() }

  lemma AxisPiecesFit(ranges: seq<Range>, tileSizes: seq<nat>, fixed: map<nat, nat>, d: nat)
    requires BoxOk(ranges, tileSizes, fixed) && d < |ranges|
    ensures PiecesFit(AxisPieces(ranges, tileSizes, fixed, d))
    ensures d !in fixed ==> forall k :: 0 <= k < |AxisPieces(ranges, tileSizes, fixed, d)| ==>
              var p := AxisPieces(ranges, tileSizes, fixed, d)[k]; p.full <==> p.range.hi - p.range.lo == tileSizes[d]
  {
    if d !in fixed { PiecesCoverOnce(ranges[d].lo, ranges[d].hi, tileSizes[d], 0); }
  }

  /// A tile consists of as many ranges as the box, and is full iff its last range has the tile size.
  ghost predicate TileOk(t: Tile, tileSizes: seq<nat>) {
    && 1 <= |t.ranges| == |tileSizes|
    && (forall d :: 0 <= d < |t.ranges| ==> t.ranges[d].Ok())
    && (t.full <==> t.ranges[|t.ranges| - 1].hi - t.ranges[|t.ranges| - 1].lo == tileSizes[|t.ranges| - 1])
  }

  lemma {:induction false} TilesAreOk(ranges: seq<Range>, tileSizes: seq<nat>, fixed: map<nat, nat>, args: seq<Range>)
    requires BoxOk(ranges, tileSizes, fixed) && |args| < |ranges| && forall d :: 0 <= d < |args| ==> args[d].Ok()
    ensures forall k :: 0 <= k < |Tiles(ranges, tileSizes, fixed, args)| ==>
              TileOk(Tiles(ranges, tileSizes, fixed, args)[k], tileSizes)
    decreases |ranges| - |args|, 1, 0
  {
    AxisPiecesFit(ranges, tileSizes, fixed, |args|);
    TilesOverOk(ranges, tileSizes, fixed, args, AxisPieces(ranges, tileSizes, fixed, |args|));
  }

  lemma {:induction false} TilesOverOk(ranges: seq<Range>, tileSizes: seq<nat>, fixed: map<nat, nat>,
                                       args: seq<Range>, ps: seq<Piece>)
    requires BoxOk(ranges, tileSizes, fixed) && |args| < |ranges| && forall d :: 0 <= d < |args| ==> args[d].Ok()
    requires PiecesFit(ps)
    requires |args| + 1 == |ranges| ==>
               forall k :: 0 <= k < |ps| ==> (ps[k].full <==> ps[k].range.hi - ps[k].range.lo == tileSizes[|args|])
    ensures forall k :: 0 <= k < |TilesOver(ranges, tileSizes, fixed, args, ps)| ==>
              TileOk(TilesOver(ranges, tileSizes, fixed, args, ps)[k], tileSizes)
    decreases |ranges| - |args|, 0, |ps|
  {
    if |ps| > 0 {
      var next := args + [ps[0].range];
      TilesOverOk(ranges, tileSizes, fixed, args, ps[1..]);
      if |args| + 1 == |ranges| {
        assert TileOk(Tile(next, ps[0].full), tileSizes);
      } else {
        TilesAreOk(ranges, tileSizes, fixed, next);
      }
    }
  }

  // ----- the traversals

  lemma {:induction false} VisitsConcat(strides: seq<nat>, a: seq<Tile>, b: seq<Tile>)
    requires TilesOk(a, strides) && TilesOk(b, strides)
    ensures TilesOk(a + b, strides) && Visits(strides, a + b) == Visits(strides, a) + Visits(strides, b)
  {
    if |a| == 0 {
      assert a + b == b;
    } else {
      VisitsConcat(strides, a[1..], b);
      DropConcat(a, b);
      Associative(Cells(strides, a[0].ranges, 0, []), Visits(strides, a[1..]), Visits(strides, b));
    }
  }

  /// The tiles handled so far, in forward order.
  function Grow(dir: Direction, done: seq<Tile>,
                t: Tile): seq<Tile> { if dir == Forward then done + [t] else [t] + done }

  lemma VisitsGrow(dir: Direction, strides: seq<nat>, done: seq<Tile>, t: Tile)
    requires TilesOk(done, strides) && RangesOk(t.ranges, strides)
    ensures TilesOk(Grow(dir, done, t), strides)
    ensures Directed(dir, Visits(strides, Grow(dir, done, t))) ==
            Directed(dir, Visits(strides, done)) + Directed(dir, Cells(strides, t.ranges, 0, []))
  {
    assert [t][1..] == [];
    assert Visits(strides, [t]) == Cells(strides, t.ranges, 0, []) + [];
    if dir == Forward {
      VisitsConcat(strides, done, [t]);
    } else {
      VisitsConcat(strides, [t], done);
      ReverseConcat(Visits(strides, [t]), Visits(strides, done));
    }
  }

  method EachTile(dir: Direction, strides: seq<nat>, tiles: seq<Tile>, ghost all: seq<Tile>) returns (trace: seq<Visit>)
    requires TilesOk(all, strides) && tiles == Directed(dir, all)
    ensures trace == Directed(dir, Visits(strides, all))
  {
    trace := [];
    ghost var done: seq<Tile> := [];
    var k := 0;
    while k < |tiles|
      invariant k <= |tiles| == |all| && TilesOk(done, strides)
      invariant done == if dir == Forward then all[..k] else all[|all| - k..]
      invariant trace == Directed(dir, Visits(strides, done))
    {
      var t := tiles[k];
      assert RangesOk(t.ranges, strides);
      var sub := TileForEach(dir, strides, t.ranges, 0, []);
      VisitsGrow(dir, strides, done, t);
      done := Grow(dir, done, t);
      trace := trace + sub;
      k := k + 1;
    }
    assert done == all;
  }

  method Scalar(dir: Direction, strides: seq<nat>, ranges: seq<Range>, tileSizes: seq<nat>, fixed: map<nat, nat>)
    returns (trace: seq<Visit>)
    requires BoxOk(ranges, tileSizes, fixed) && |strides| == |ranges|
    ensures TilesOk(Tiles(ranges, tileSizes, fixed, []), strides)
    ensures trace == Directed(dir, Visits(strides, Tiles(ranges, tileSizes, fixed, [])))
    ensures forall pos: seq<nat> :: |pos| == |ranges| ==>
              CountVisits(trace, pos) == if InBox(ranges, fixed, pos) then 1 else 0
  {
    TilesAreOk(ranges, tileSizes, fixed, []);
    var tiles := ForEachTile(dir, ranges, tileSizes, fixed, []);
    trace := EachTile(dir, strides, tiles, Tiles(ranges, tileSizes, fixed, []));
    forall pos: seq<nat> | |pos| == |ranges|
      ensures CountVisits(trace, pos) == if InBox(ranges, fixed, pos) then 1 else 0
    {
      VisitsEveryCellOnce(dir, strides, ranges, tileSizes, fixed, pos);
    }
  }

  // ----- every cell of the box once

  lemma {:induction false} VisitsCount(strides: seq<nat>, ts: seq<Tile>, pos: seq<nat>)
    requires TilesOk(ts, strides) && |pos| == |strides|
    ensures CountVisits(Visits(strides, ts), pos) == CountTiles(ts, pos)
  {
    if |ts| > 0 {
      VisitsCount(strides, ts[1..], pos);
      CellsOnce(strides, ts[0].ranges, 0, [], pos);
      CountConcat(Cells(strides, ts[0].ranges, 0, []), Visits(strides, ts[1..]), pos);
    }
  }

  lemma {:induction false} VisitsIndexed(strides: seq<nat>, ts: seq<Tile>)
    requires TilesOk(ts, strides)
    ensures Indexed(strides, Visits(strides, ts))
  {
    if |ts| > 0 {
      VisitsIndexed(strides, ts[1..]);
      var r := ts[0].ranges[0];
      assert Dot(strides, [], 0) == 0;
      CellsIndexed(strides, ts[0].ranges, 0, [], r.lo, r.hi);
      IndexedConcat(strides, Cells(strides, ts[0].ranges, 0, []), Visits(strides, ts[1..]));
    }
  }

  /// In either direction every cell of the box is visited exactly once and no other cell at all, and the index
  /// passed along is the dot product of the position with the strides.
  lemma VisitsEveryCellOnce(dir: Direction, strides: seq<nat>, ranges: seq<Range>, tileSizes: seq<nat>,
                            fixed: map<nat, nat>, pos: seq<nat>)
    requires BoxOk(ranges, tileSizes, fixed) && |strides| == |ranges| == |pos|
    ensures TilesOk(Tiles(ranges, tileSizes, fixed, []), strides)
    ensures var trace := Directed(dir, Visits(strides, Tiles(ranges, tileSizes, fixed, [])));
            && CountVisits(trace, pos) == (if InBox(ranges, fixed, pos) then 1 else 0)
            && Indexed(strides, trace)
  {
    var ts := Tiles(ranges, tileSizes, fixed, []);
    TilesAreOk(ranges, tileSizes, fixed, []);
    TilesCoverOnce(ranges, tileSizes, fixed, pos);
    VisitsCount(strides, ts, pos);
    VisitsIndexed(strides, ts);
    CountReverse(Visits(strides, ts), pos);
  }

  // ----- vectorized

  lemma {:induction false} VecConcat(strides: seq<nat>, v: nat, a: seq<Tile>, b: seq<Tile>)
    requires TilesOk(a, strides) && TilesOk(b, strides) && v > 0
    ensures TilesOk(a + b, strides)
    ensures VecVisits(strides, v, a + b) == VecVisits(strides, v, a) + VecVisits(strides, v, b)
  {
    if |a| == 0 {
      assert a + b == b;
    } else {
      VecConcat(strides, v, a[1..], b);
      DropConcat(a, b);
      Associative(VecCells(strides, a[0].ranges, v, 0, []), VecVisits(strides, v, a[1..]), VecVisits(strides, v, b));
    }
  }

  lemma VecGrow(dir: Direction, strides: seq<nat>, v: nat, done: seq<Tile>, t: Tile)
    requires TilesOk(done, strides) && RangesOk(t.ranges, strides) && v > 0
    ensures TilesOk(Grow(dir, done, t), strides)
    ensures Directed(dir, VecVisits(strides, v, Grow(dir, done, t))) ==
            Directed(dir, VecVisits(strides, v, done)) + Directed(dir, VecCells(strides, t.ranges, v, 0, []))
  {
    assert [t][1..] == [];
    assert VecVisits(strides, v, [t]) == VecCells(strides, t.ranges, v, 0, []) + [];
    if dir == Forward {
      VecConcat(strides, v, done, [t]);
    } else {
      VecConcat(strides, v, [t], done);
      ReverseConcat(VecVisits(strides, v, [t]), VecVisits(strides, v, done));
    }
  }

  /// In a full tile the assertion that no tail is left over always holds.
  lemma NoTail(t: Tile, tileSizes: seq<nat>, v: nat)
    requires TileOk(t, tileSizes) && v > 0 && tileSizes[|tileSizes| - 1] % v == 0 && t.full
    ensures (t.ranges[|t.ranges| - 1].hi - t.ranges[|t.ranges| - 1].lo) % v == 0
  {
  }

  /// The callback of one tile, which expects no tail iff the tile is full.
  method OneTileVec(dir: Direction, strides: seq<nat>, v: nat, tileSizes: seq<nat>, t: Tile)
    returns (trace: seq<VecVisit>)
    requires RangesOk(t.ranges, strides) && TileOk(t, tileSizes) && v > 0 && tileSizes[|tileSizes| - 1] % v == 0
    ensures trace == Directed(dir, VecCells(strides, t.ranges, v, 0, []))
  {
    if t.full { NoTail(t, tileSizes, v); }
    trace := TileForEachVec(dir, strides, t.ranges, v, !t.full, 0, []);
  }

  method EachTileVec(dir: Direction, strides: seq<nat>, v: nat, tileSizes: seq<nat>, tiles: seq<Tile>,
                     ghost all: seq<Tile>)
    returns (trace: seq<VecVisit>)
    requires TilesOk(all, strides) && tiles == Directed(dir, all) && v > 0
    requires forall k :: 0 <= k < |all| ==> TileOk(all[k], tileSizes)
    requires |tileSizes| > 0 && tileSizes[|tileSizes| - 1] % v == 0
    ensures trace == Directed(dir, VecVisits(strides, v, all))
  {
    trace := [];
    var k := 0;
    while k < |tiles|
      invariant k <= |tiles| && VecDone(dir, strides, v, all, k, trace)
    {
      var t := tiles[k];
      assert RangesOk(t.ranges, strides) && TileOk(t, tileSizes);
      var sub := OneTileVec(dir, strides, v, tileSizes, t);
      VecStep(dir, strides, v, all, k, trace, sub);
      trace := trace + sub;
      k := k + 1;
    }
    assert all[..|all|] == all && all[0..] == all;
  }

  /// The tiles visited first.
  function Part(dir: Direction, all: seq<Tile>, k: nat): seq<Tile>
    requires k <= |all|
  {
    if dir == Forward then all[..k] else all[|all| - k..]
  }

  ghost predicate VecDone(dir: Direction, strides: seq<nat>, v: nat, all: seq<Tile>, k: nat, trace: seq<VecVisit>) {
    k <= |all| && v > 0 && TilesOk(Part(dir, all, k), strides) &&
    trace == Directed(dir, VecVisits(strides, v, Part(dir, all, k)))
  }

  lemma VecStep(dir: Direction, strides: seq<nat>, v: nat, all: seq<Tile>, k: nat, trace: seq<VecVisit>,
                sub: seq<VecVisit>)
    requires VecDone(dir, strides, v, all, k, trace) && k < |all|
    requires var t := Directed(dir, all)[k];
             RangesOk(t.ranges, strides) && sub == Directed(dir, VecCells(strides, t.ranges, v, 0, []))
    ensures VecDone(dir, strides, v, all, k + 1, trace + sub)
  {
    var t := Directed(dir, all)[k];
    VecGrow(dir, strides, v, Part(dir, all, k), t);
    assert Part(dir, all, k + 1) == Grow(dir, Part(dir, all, k), t);
  }

  method Vectorized(dir: Direction, strides: seq<nat>, ranges: seq<Range>, tileSizes: seq<nat>, fixed: map<nat, nat>,
                    v: nat)
    returns (trace: seq<VecVisit>)
    requires BoxOk(ranges, tileSizes, fixed) && |strides| == |ranges| && v > 0
    requires forall d :: 0 <= d < |tileSizes| && d !in fixed ==> tileSizes[d] % v == 0
    ensures TilesOk(Tiles(ranges, tileSizes, fixed, []), strides)
    ensures trace == Directed(dir, VecVisits(strides, v, Tiles(ranges, tileSizes, fixed, [])))
    ensures Placed(trace) && Sized(trace, v)
    ensures forall pos: seq<nat> :: |pos| == |ranges| ==>
              CountVisits(ExpandAll(trace), pos) == if InBox(ranges, fixed, pos) then 1 else 0
  {
    TilesAreOk(ranges, tileSizes, fixed, []);
    var tiles := ForEachTile(dir, ranges, tileSizes, fixed, []);
    trace := EachTileVec(dir, strides, v, tileSizes, tiles, Tiles(ranges, tileSizes, fixed, []));
    VectorsAreSized(strides, v, Tiles(ranges, tileSizes, fixed, []));
    forall pos: seq<nat> | |pos| == |ranges|
      ensures Placed(trace) && CountVisits(ExpandAll(trace), pos) == if InBox(ranges, fixed, pos) then 1 else 0
    {
      VectorsVisitOnce(dir, strides, v, ranges, tileSizes, fixed, pos);
    }
  }

  /// Full vectors and tails together cover the same cells in the same order as the scalar traversal, each once.
  lemma {:induction false} VectorsCoverTheBox(strides: seq<nat>, v: nat, ts: seq<Tile>)
    requires TilesOk(ts, strides) && v > 0
    ensures Placed(VecVisits(strides, v, ts)) && ExpandAll(VecVisits(strides, v, ts)) == Visits(strides, ts)
  {
    if |ts| > 0 {
      VectorsCoverTheBox(strides, v, ts[1..]);
      VectorsCoverCells(strides, ts[0].ranges, v, 0, []);
      ExpandConcat(VecCells(strides, ts[0].ranges, v, 0, []), VecVisits(strides, v, ts[1..]));
    }
  }

  /// Over the whole box, full visits have exactly `v` cells and tails at least one and fewer.
  lemma {:induction false} VectorsAreSized(strides: seq<nat>, v: nat, ts: seq<Tile>)
    requires TilesOk(ts, strides) && v > 0
    ensures Sized(VecVisits(strides, v, ts), v)
  {
    if |ts| > 0 {
      VecCellsSized(strides, ts[0].ranges, v, 0, []);
      VectorsAreSized(strides, v, ts[1..]);
      SizedConcat(VecCells(strides, ts[0].ranges, v, 0, []), VecVisits(strides, v, ts[1..]), v);
    }
  }

  lemma {:induction false} ExpandReverse(vs: seq<VecVisit>, pos: seq<nat>)
    requires Placed(vs)
    ensures Placed(Reverse(vs)) && CountVisits(ExpandAll(Reverse(vs)), pos) == CountVisits(ExpandAll(vs), pos)
  {
    if |vs| > 0 {
      var n := |vs| - 1;
      assert vs == vs[..n] + [vs[n]];
      ExpandReverse(vs[..n], pos);
      ExpandConcat(vs[..n], [vs[n]]);
      ExpandConcat([vs[n]], Reverse(vs[..n]));
      CountConcat(ExpandAll(vs[..n]), ExpandAll([vs[n]]), pos);
      CountConcat(ExpandAll([vs[n]]), ExpandAll(Reverse(vs[..n])), pos);
    }
  }

  /// In either direction, the vectors and tails cover every cell of the box exactly once and no other.
  lemma VectorsVisitOnce(dir: Direction, strides: seq<nat>, v: nat, ranges: seq<Range>, tileSizes: seq<nat>,
                         fixed: map<nat, nat>, pos: seq<nat>)
    requires BoxOk(ranges, tileSizes, fixed) && |strides| == |ranges| == |pos| && v > 0
    ensures TilesOk(Tiles(ranges, tileSizes, fixed, []), strides)
    ensures var trace := Directed(dir, VecVisits(strides, v, Tiles(ranges, tileSizes, fixed, [])));
            Placed(trace) && CountVisits(ExpandAll(trace), pos) == if InBox(ranges, fixed, pos) then 1 else 0
  {
    var ts := Tiles(ranges, tileSizes, fixed, []);
    VisitsEveryCellOnce(Forward, strides, ranges, tileSizes, fixed, pos);
    VectorsCoverTheBox(strides, v, ts);
    ExpandReverse(VecVisits(strides, v, ts), pos);
  }
}
