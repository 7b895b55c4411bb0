/**
 The order of the tiled traversals (include/thesauros/algorithms/ranges/for-each-tile.hpp): pieces and tiles lie on a
 grid from the beginning of each range, and come, like the cells of a tile, in lexicographic order.
 */
module TileOrder {
  import opened Arith
  import opened Sequences
  import opened Tiling
  import opened TileCells
  import MixedRadix

  // ----- the grid

  /// Piece `k` begins `k` tile sizes after the beginning and ends with its tile size or the interval.
  lemma {:induction false} PieceAt(begin: nat, end: nat, tile: nat, k: nat)
    requires begin <= end && tile > 0 && k < |Pieces(begin, end, tile)|
    ensures var r := Pieces(begin, end, tile)[k].range;
            r.lo == begin + k * tile < end && r.hi == if r.lo + tile <= end then r.lo + tile else end
    decreases end - begin
  {
    if k > 0 {
      assert k * tile == (k - 1) * tile + tile;
      PieceAt(begin + tile, end, tile, k - 1);
    }
  }

  /// A range of a tile: the fixed index, or a step of the grid.
  ghost predicate OnGrid(ranges: seq<Range>, tileSizes: seq<nat>, fixed: map<nat, nat>, d: nat, r: Range)
    requires d < |ranges| == |tileSizes|
  {
    if d in fixed then r == Range(fixed[d], fixed[d] + 1)
    else
      exists k: nat :: var lo := ranges[d].lo + k * tileSizes[d];
        r == Range(lo, if lo + tileSizes[d] <= ranges[d].hi then lo + tileSizes[d] else ranges[d].hi)
  }

  ghost predicate AllOnGrid(ranges: seq<Range>, tileSizes: seq<nat>, fixed: map<nat, nat>, rs: seq<Range>) {
    |rs| <= |ranges| == |tileSizes| && forall d :: 0 <= d < |rs| ==> OnGrid(ranges, tileSizes, fixed, d, rs[d])
  }

  lemma AxisOnGrid(ranges: seq<Range>, tileSizes: seq<nat>, fixed: map<nat, nat>, d: nat, i: nat)
    requires BoxOk(ranges, tileSizes, fixed) && d < |ranges| && i < |AxisPieces(ranges, tileSizes, fixed, d)|
    ensures OnGrid(ranges, tileSizes, fixed, d, AxisPieces(ranges, tileSizes, fixed, d)[i].range)
  {
    if d !in fixed { PieceAt(ranges[d].lo, ranges[d].hi, tileSizes[d], i); }
  }

  lemma {:induction false} TilesOverOnGrid(ranges: seq<Range>, tileSizes: seq<nat>, fixed: map<nat, nat>,
                                           args: seq<Range>, ps: seq<Piece>, k: nat)
    requires BoxOk(ranges, tileSizes, fixed) && |args| < |ranges| && AllOnGrid(ranges, tileSizes, fixed, args)
    requires forall i :: 0 <= i < |ps| ==> OnGrid(ranges, tileSizes, fixed, |args|, ps[i].range)
    requires k < |TilesOver(ranges, tileSizes, fixed, args, ps)|
    ensures var rs := TilesOver(ranges, tileSizes, fixed, args, ps)[k].ranges;
            |rs| == |ranges| && AllOnGrid(ranges, tileSizes, fixed, rs)
    decreases |ranges| - |args|, 0, |ps|
  {
    var head, next := HeadTiles(ranges, tileSizes, fixed, args, ps[0]), args + [ps[0].range];
    if k >= |head| {
      TilesOverOnGrid(ranges, tileSizes, fixed, args, ps[1..], k - |head|);
    } else if |args| + 1 < |ranges| {
      TilesOnGrid(ranges, tileSizes, fixed, next, k);
    }
  }

  /// Every tile has as many ranges as the box, each of them on the grid.
  lemma {:induction false} TilesOnGrid(ranges: seq<Range>, tileSizes: seq<nat>, fixed: map<nat, nat>,
                                       args: seq<Range>, k: nat)
    requires BoxOk(ranges, tileSizes, fixed) && |args| < |ranges| && AllOnGrid(ranges, tileSizes, fixed, args)
    requires k < |Tiles(ranges, tileSizes, fixed, args)|
    ensures var rs := Tiles(ranges, tileSizes, fixed, args)[k].ranges;
            |rs| == |ranges| && AllOnGrid(ranges, tileSizes, fixed, rs)
    decreases |ranges| - |args|, 1, 0
  {
    var ps := AxisPieces(ranges, tileSizes, fixed, |args|);
    forall i | 0 <= i < |ps| ensures OnGrid(ranges, tileSizes, fixed, |args|, ps[i].range) {
      AxisOnGrid(ranges, tileSizes, fixed, |args|, i);
    }
    TilesOverOnGrid(ranges, tileSizes, fixed, args, ps, k);
  }

  // ----- lexicographic order

  /// `a` comes before `b` in lexicographic order.
  ghost predicate Before(a: seq<nat>, b: seq<nat>) { exists d: nat :: DiffersAt(a, b, d) }

  ghost predicate DiffersAt(a: seq<nat>, b: seq<nat>, d: nat) { d < |a| && d < |b| && a[..d] == b[..d] && a[d] < b[d] }

  ghost predicate Ascending(ks: seq<seq<nat>>) { forall i, j :: 0 <= i < j < |ks| ==> Before(ks[i], ks[j]) }

  /// All begin with `prefix`, and go on with at least `lo`.
  ghost predicate From(ks: seq<seq<nat>>, prefix: seq<nat>, lo: nat) {
    forall i :: 0 <= i < |ks| ==> |prefix| < |ks[i]| && ks[i][..|prefix|] == prefix && ks[i][|prefix|] >= lo
  }

  ghost predicate Under(ks: seq<seq<nat>>, prefix: seq<nat>) {
    forall i :: 0 <= i < |ks| ==> |prefix| <= |ks[i]| && ks[i][..|prefix|] == prefix
  }

  lemma UnderIsFrom(ks: seq<seq<nat>>, prefix: seq<nat>, x: nat)
    requires Under(ks, prefix + [x])
    ensures From(ks, prefix, x) && forall i :: 0 <= i < |ks| ==> ks[i][|prefix|] == x
  {
    forall i | 0 <= i < |ks| ensures |prefix| < |ks[i]| && ks[i][..|prefix|] == prefix && ks[i][|prefix|] == x {
      var n := |prefix| + 1;
      assert ks[i][..n][..|prefix|] == ks[i][..|prefix|] && ks[i][..n][|prefix|] == ks[i][|prefix|];
    }
  }

  lemma AscendingConcat(a: seq<seq<nat>>, b: seq<seq<nat>>, prefix: seq<nat>, x: nat)
    requires Ascending(a) && Ascending(b) && Under(a, prefix + [x]) && From(b, prefix, x + 1)
    ensures Ascending(a + b) && From(a + b, prefix, x)
  {
    UnderIsFrom(a, prefix, x);
    var c := a + b;
    forall i, j | 0 <= i < j < |c| ensures Before(c[i], c[j]) {
      if i < |a| <= j { assert DiffersAt(a[i], b[j - |a|], |prefix|); }
      if |a| <= i { assert Before(b[i - |a|], b[j - |a|]); }
    }
  }

  // ----- cells

  function Positions(vs: seq<Visit>): (r: seq<seq<nat>>)
    ensures |r| == |vs| && forall i :: 0 <= i < |vs| ==> r[i] == vs[i].pos
  {
    seq(|vs|, i requires 0 <= i < |vs| => vs[i].pos)
  }

  /// The cells of a tile are visited in lexicographic order.
  lemma {:induction false} CellsInOrder(strides: seq<nat>, tile: seq<Range>, index: int, coords: seq<nat>)
    requires RangesOk(tile, strides) && |coords| < |tile|
    ensures Ascending(Positions(Cells(strides, tile, index, coords)))
    ensures Under(Positions(Cells(strides, tile, index, coords)), coords)
    decreases |tile| - |coords|, 2, 0
  {
    CellsFromInOrder(strides, tile, index, coords, tile[|coords|].lo, tile[|coords|].hi);
  }

  lemma {:induction false} CellsFromInOrder(strides: seq<nat>, tile: seq<Range>, index: int, coords: seq<nat>, lo: nat,
                                            hi: nat)
    requires RangesOk(tile, strides) && |coords| < |tile|
    ensures var ks := Positions(CellsFrom(strides, tile, index, coords, lo, hi));
            Ascending(ks) && From(ks, coords, lo)
    decreases |tile| - |coords|, 1, if lo < hi then hi - lo else 0
  {
    if lo < hi {
      var at, rest := CellsAt(strides, tile, index, coords, lo), CellsFrom(strides, tile, index, coords, lo + 1, hi);
      CellsAtInOrder(strides, tile, index, coords, lo);
      CellsFromInOrder(strides, tile, index, coords, lo + 1, hi);
      AscendingConcat(Positions(at), Positions(rest), coords, lo);
      assert Positions(at + rest) == Positions(at) + Positions(rest);
    }
  }

  lemma {:induction false} CellsAtInOrder(strides: seq<nat>, tile: seq<Range>, index: int, coords: seq<nat>, i: nat)
    requires RangesOk(tile, strides) && |coords| < |tile|
    ensures var ks := Positions(CellsAt(strides, tile, index, coords, i));
            Ascending(ks) && Under(ks, coords + [i])
    decreases |tile| - |coords|, 0, 1
  {
    if |coords| + 1 < |tile| {
      var next := index + i * strides[|coords|];
      CellsInOrder(strides, tile, next, coords + [i]);
      assert CellsAt(strides, tile, index, coords, i) == Cells(strides, tile, next, coords + [i]);
    }
  }

  /// A position that comes before another one of the box has the smaller index.
  lemma {:induction false} BeforeIsLess(sizes: seq<nat>, a: seq<nat>, b: seq<nat>, d: nat, n: nat)
    requires DiffersAt(a, b, d) && d < n <= |a| == |b| == |sizes|
    requires MixedRadix.InBox(a, sizes) && MixedRadix.InBox(b, sizes)
    ensures MixedRadix.Flat(a, sizes, n) < MixedRadix.Flat(b, sizes, n)
  {
    var x, y := MixedRadix.Flat(a, sizes, n - 1), MixedRadix.Flat(b, sizes, n - 1);
    if n == d + 1 {
      MixedRadix.FlatPrefix(a, b, sizes, d);
    } else {
      BeforeIsLess(sizes, a, b, d, n - 1);
      MulAtMost(x + 1, y, sizes[n - 1]);
      assert (x + 1) * sizes[n - 1] == x * sizes[n - 1] + sizes[n - 1];
    }
  }

  /// With the postfix products of the sizes as strides, a tile within them is visited in the order of the flat index.
  lemma CellsInLinearOrder(sizes: seq<nat>, strides: seq<nat>, tile: seq<Range>, i: nat, j: nat)
    requires RangesOk(tile, strides) && |sizes| == |strides|
    requires forall d :: 0 <= d < |sizes| ==> strides[d] == MixedRadix.ProductFrom(sizes, d + 1)
    requires forall d :: 0 <= d < |sizes| ==> tile[d].hi <= sizes[d]
    requires i < j < |Cells(strides, tile, 0, [])|
    ensures Cells(strides, tile, 0, [])[i].index < Cells(strides, tile, 0, [])[j].index
  {
    var vs := Cells(strides, tile, 0, []);
    CellsInOrder(strides, tile, 0, []);
    CellsIndexed(strides, tile, 0, [], tile[0].lo, tile[0].hi);
    var a, b := vs[i].pos, vs[j].pos;
    assert Before(Positions(vs)[i], Positions(vs)[j]);
    var d: nat :| DiffersAt(a, b, d);
    CellInBox(sizes, strides, tile, i);
    CellInBox(sizes, strides, tile, j);
    BeforeIsLess(sizes, a, b, d, |sizes|);
    IndexIsFlat(sizes, strides, a);
    IndexIsFlat(sizes, strides, b);
  }

  lemma IndexIsFlat(sizes: seq<nat>, strides: seq<nat>, pos: seq<nat>)
    requires |pos| == |sizes| == |strides|
    requires forall d :: 0 <= d < |sizes| ==> strides[d] == MixedRadix.ProductFrom(sizes, d + 1)
    ensures Dot(strides, pos, |strides|) == MixedRadix.Flat(pos, sizes, |sizes|)
  {
    DotIsPositionToIndex(sizes, strides, pos, |pos|);
    MixedRadix.PositionToIndexIsFlat(pos, sizes);
  }

  lemma {:induction false} CountOne(vs: seq<Visit>, i: nat)
    requires i < |vs|
    ensures CountVisits(vs, vs[i].pos) > 0
  {
    if i > 0 { CountOne(vs[1..], i - 1); }
  }

  lemma {:induction false} InTileAt(tile: seq<Range>, pos: seq<nat>, from: nat, d: nat)
    requires from <= d < |tile| && InTile(tile, pos, from)
    ensures d < |pos| && tile[d].Has(pos[d])
    decreases d - from
  {
    if from < d { InTileAt(tile, pos, from + 1, d); }
  }

  lemma CellInBox(sizes: seq<nat>, strides: seq<nat>, tile: seq<Range>, i: nat)
    requires RangesOk(tile, strides) && |sizes| == |strides| && i < |Cells(strides, tile, 0, [])|
    requires forall d :: 0 <= d < |sizes| ==> tile[d].hi <= sizes[d]
    ensures MixedRadix.InBox(Cells(strides, tile, 0, [])[i].pos, sizes)
  {
    var pos := Cells(strides, tile, 0, [])[i].pos;
    assert Dot(strides, [], 0) == 0;
    CellsIndexed(strides, tile, 0, [], tile[0].lo, tile[0].hi);
    CountOne(Cells(strides, tile, 0, []), i);
    CellsOnce(strides, tile, 0, [], pos);
    forall d | 0 <= d < |sizes| ensures 0 <= pos[d] < sizes[d] { InTileAt(tile, pos, 0, d); }
  }

  // ----- tiles

  function Corner(rs: seq<Range>): (r: seq<nat>)
    ensures |r| == |rs| && forall d :: 0 <= d < |rs| ==> r[d] == rs[d].lo
  {
    seq(|rs|, d requires 0 <= d < |rs| => rs[d].lo)
  }

  function Corners(ts: seq<Tile>): (r: seq<seq<nat>>)
    ensures |r| == |ts| && forall i :: 0 <= i < |ts| ==> r[i] == Corner(ts[i].ranges)
  {
    seq(|ts|, i requires 0 <= i < |ts| => Corner(ts[i].ranges))
  }

  ghost predicate PiecesAscend(ps: seq<Piece>, lo: nat) {
    (forall i :: 0 <= i < |ps| ==> lo <= ps[i].range.lo) &&
    forall i, j :: 0 <= i < j < |ps| ==> ps[i].range.lo < ps[j].range.lo
  }

  lemma AxisAscends(ranges: seq<Range>, tileSizes: seq<nat>, fixed: map<nat, nat>, d: nat)
    requires BoxOk(ranges, tileSizes, fixed) && d < |ranges|
    ensures PiecesAscend(AxisPieces(ranges, tileSizes, fixed, d), 0)
  {
    if d !in fixed {
      var ps, tile := AxisPieces(ranges, tileSizes, fixed, d), tileSizes[d];
      forall i: nat, j: nat | i < j < |ps| ensures ps[i].range.lo < ps[j].range.lo {
        PieceAt(ranges[d].lo, ranges[d].hi, tile, i);
        PieceAt(ranges[d].lo, ranges[d].hi, tile, j);
        MulCancels(i, j, tile);
      }
    }
  }

  /// The tiles are visited in the lexicographic order of their first positions.
  lemma {:induction false} TilesInOrder(ranges: seq<Range>, tileSizes: seq<nat>, fixed: map<nat, nat>, args: seq<Range>)
    requires BoxOk(ranges, tileSizes, fixed) && |args| < |ranges|
    ensures Ascending(Corners(Tiles(ranges, tileSizes, fixed, args)))
    ensures Under(Corners(Tiles(ranges, tileSizes, fixed, args)), Corner(args))
    decreases |ranges| - |args|, 1, 0
  {
    AxisAscends(ranges, tileSizes, fixed, |args|);
    TilesOverInOrder(ranges, tileSizes, fixed, args, AxisPieces(ranges, tileSizes, fixed, |args|), 0);
  }

  lemma CornersConcat(a: seq<Tile>, b: seq<Tile>, prefix: seq<nat>, x: nat)
    requires Ascending(Corners(a)) && Under(Corners(a), prefix + [x])
    requires Ascending(Corners(b)) && From(Corners(b), prefix, x + 1)
    ensures Ascending(Corners(a + b)) && From(Corners(a + b), prefix, x)
  {
    AscendingConcat(Corners(a), Corners(b), prefix, x);
    assert Corners(a + b) == Corners(a) + Corners(b);
  }

  lemma FromLower(ks: seq<seq<nat>>, prefix: seq<nat>, x: nat, lo: nat)
    requires From(ks, prefix, x) && lo <= x
    ensures From(ks, prefix, lo)
  {
  }

  lemma {:induction false} TilesOverInOrder(ranges: seq<Range>, tileSizes: seq<nat>, fixed: map<nat, nat>,
                                            args: seq<Range>, ps: seq<Piece>, lo: nat)
    requires BoxOk(ranges, tileSizes, fixed) && |args| < |ranges| && PiecesAscend(ps, lo)
    ensures var ks := Corners(TilesOver(ranges, tileSizes, fixed, args, ps));
            Ascending(ks) && From(ks, Corner(args), lo)
    decreases |ranges| - |args|, 0, |ps|, 1
  {
    if |ps| > 0 {
      var x := ps[0].range.lo;
      var head := HeadTiles(ranges, tileSizes, fixed, args, ps[0]);
      var rest := TilesOver(ranges, tileSizes, fixed, args, ps[1..]);
      HeadInOrder(ranges, tileSizes, fixed, args, ps[0], |ps|);
      TilesOverInOrder(ranges, tileSizes, fixed, args, ps[1..], x + 1);
      CornersConcat(head, rest, Corner(args), x);
      FromLower(Corners(head + rest), Corner(args), x, lo);
    }
  }

  lemma {:induction false} HeadInOrder(ranges: seq<Range>, tileSizes: seq<nat>, fixed: map<nat, nat>,
                                       args: seq<Range>, p: Piece, n: nat)
    requires BoxOk(ranges, tileSizes, fixed) && |args| < |ranges|
    ensures var ks := Corners(HeadTiles(ranges, tileSizes, fixed, args, p));
            Ascending(ks) && Under(ks, Corner(args) + [p.range.lo])
    decreases |ranges| - |args|, 0, n, 0
  {
    var next := args + [p.range];
    assert Corner(next) == Corner(args) + [p.range.lo];
    if |args| + 1 < |ranges| { TilesInOrder(ranges, tileSizes, fixed, next); }
  }
}
