/**
 Tiled traversal of a box (include/thesauros/algorithms/ranges/for-each-tile.hpp). A traversal is modelled by the
 sequence of its callbacks. The functions give the forward sequences, and the methods, which loop as the code
 does, are proved to produce them forwards or reversed.
 */
module Tiling {
  import opened Arith
  import opened Sequences
  import MixedRadix

  datatype Direction = Forward | Backward

  datatype Range = Range(lo: nat, hi: nat) {
    predicate Ok() { lo <= hi }

    predicate Has(x: nat) { lo <= x < hi }
  }

  /// One callback of `for_each_tile_unroll`.
  datatype Piece = Piece(range: Range, full: bool)

  /// One callback of `for_each_tile`.
  datatype Tile = Tile(ranges: seq<Range>, full: bool)

  /// One callback of the scalar `tile_for_each`, and one of the vectorized one, on `len` cells.
  datatype Visit = Visit(index: int, pos: seq<nat>)

  datatype VecVisit = VecVisit(index: int, pos: seq<nat>, len: nat, full: bool)

  function Directed<T>(dir: Direction, s: seq<T>): seq<T> { if dir == Forward then s else Reverse(s) }

  // ----- for_each_tile_unroll

  function Pieces(begin: nat, end: nat, tile: nat): seq<Piece>
    requires begin <= end && tile > 0
    decreases end - begin
  {
    if begin + tile <= end then [Piece(Range(begin, begin + tile), true)] + Pieces(begin + tile, end, tile)
    else if begin != end then [Piece(Range(begin, end), false)] else []
  }

  method UnrollForward(begin: nat, end: nat, tile: nat) returns (trace: seq<Piece>)
    requires begin <= end && tile > 0
    ensures trace == Pieces(begin, end, tile)
  {
    trace := [];
    var i := begin;
    while i + tile <= end
      invariant begin <= i <= end
      invariant Pieces(begin, end, tile) == trace + Pieces(i, end, tile)
    {
      trace := trace + [Piece(Range(i, i + tile), true)];
      i := i + tile;
    }
    if i != end { trace := trace + [Piece(Range(i, end), false)]; }
  }

  method UnrollBackward(begin: nat, end: nat, tile: nat) returns (trace: seq<Piece>)
    requires begin <= end && tile > 0
    ensures trace == Reverse(Pieces(begin, end, tile))
  {
    PiecesSplit(begin, end, tile);
    var fullEnd := FullEnd(begin, end, tile);
    trace := if fullEnd != end then [Piece(Range(fullEnd, end), false)] else [];
    ReverseConcat(Pieces(begin, fullEnd, tile), trace);
    ReverseOne(Piece(Range(fullEnd, end), false));
    ghost var q: int := (end - begin) / tile;
    var i := fullEnd;
    while i > begin
      invariant begin <= i && FullUpTo(begin, i, tile, q)
      invariant Reverse(Pieces(begin, end, tile)) == trace + Reverse(Pieces(begin, i, tile))
      decreases i
    {
      PiecesLast(begin, i, tile, q);
      ReverseSnoc(Pieces(begin, i - tile, tile), Piece(Range(i - tile, i), true));
      Associative(trace, [Piece(Range(i - tile, i), true)], Reverse(Pieces(begin, i - tile, tile)));
      trace := trace + [Piece(Range(i - tile, i), true)];
      q := q - 1;
      i := i - tile;
    }
  }

  method Unroll(dir: Direction, begin: nat, end: nat, tile: nat) returns (trace: seq<Piece>)
    requires begin <= end && tile > 0
    ensures trace == Directed(dir, Pieces(begin, end, tile))
  {
    if dir == Forward { trace := UnrollForward(begin, end, tile); } else { trace := UnrollBackward(begin, end, tile); }
  }

  /// `[begin, i)` consists of `q` full pieces.
  ghost predicate FullUpTo(begin: nat, i: nat, tile: nat, q: int) { i == begin + q * tile }

  function FullEnd(begin: nat, end: nat, tile: nat): (m: nat)
    requires begin <= end && tile > 0
    ensures begin <= m <= end
  {
    DivModOf(end - begin, tile);
    MulAtMost(0, (end - begin) / tile, tile);
    end - (end - begin) % tile
  }

  /// The full pieces end at the last multiple.
  lemma {:induction false} PiecesSplit(begin: nat, end: nat, tile: nat)
    requires begin <= end && tile > 0
    ensures var m := FullEnd(begin, end, tile);
            && FullUpTo(begin, m, tile, (end - begin) / tile)
            && Pieces(begin, end, tile) ==
               Pieces(begin, m, tile) + if m != end then [Piece(Range(m, end), false)] else []
    decreases end - begin
  {
    DivModOf(end - begin, tile);
    var q := (end - begin) / tile;
    if begin + tile <= end {
      DivModUnique(end - begin - tile, tile, q - 1, (end - begin) % tile);
      PiecesSplit(begin + tile, end, tile);
    } else {
      DivModUnique(end - begin, tile, 0, end - begin);
    }
  }

  lemma {:induction false} PiecesLast(begin: nat, i: nat, tile: nat, q: int)
    requires begin < i && tile > 0 && FullUpTo(begin, i, tile, q)
    ensures begin + tile <= i && FullUpTo(begin, i - tile, tile, q - 1)
    ensures Pieces(begin, i, tile) == Pieces(begin, i - tile, tile) + [Piece(Range(i - tile, i), true)]
    decreases i - begin
  {
    if q <= 0 { MulAtMost(q, 0, tile); }
    MulAtMost(1, q, tile);
    assert (q - 1) * tile == q * tile - tile;
    if begin + tile < i {
      PiecesLast(begin + tile, i, tile, q - 1);
    }
  }

  /// How many pieces an index lies in.
  function InPieces(ps: seq<Piece>, x: nat): nat {
    if |ps| == 0 then 0 else (if ps[0].range.Has(x) then 1 else 0) + InPieces(ps[1..], x)
  }

  lemma {:induction false} PiecesCoverOnce(begin: nat, end: nat, tile: nat, x: nat)
    requires begin <= end && tile > 0
    ensures InPieces(Pieces(begin, end, tile), x) == if begin <= x < end then 1 else 0
    ensures forall k :: 0 <= k < |Pieces(begin, end, tile)| ==>
              var p := Pieces(begin, end, tile)[k];
              begin <= p.range.lo < p.range.hi <= end && (p.full <==> p.range.hi - p.range.lo == tile)
    decreases end - begin
  {
    if begin + tile <= end {
      var rest := Pieces(begin + tile, end, tile);
      PiecesCoverOnce(begin + tile, end, tile, x);
      assert Pieces(begin, end, tile)[1..] == rest;
    } else if begin != end {
      assert Pieces(begin, end, tile)[1..] == [];
    }
  }

  // ----- for_each_tile

  /// The ranges that are traversed: a fixed axis contributes a single index.
  function Axis(ranges: seq<Range>, fixed: map<nat, nat>, d: nat): Range
    requires d < |ranges|
  {
    if d in fixed then Range(fixed[d], fixed[d] + 1) else ranges[d]
  }

  ghost predicate BoxOk(ranges: seq<Range>, tileSizes: seq<nat>, fixed: map<nat, nat>) {
    && 1 <= |ranges| == |tileSizes|
    && (forall d :: 0 <= d < |ranges| ==> ranges[d].Ok() && tileSizes[d] > 0)
    && |ranges| - 1 !in fixed
  }

  /// The pieces of one axis. Whether a tile counts as full is decided by its last axis alone.
  function AxisPieces(ranges: seq<Range>, tileSizes: seq<nat>, fixed: map<nat, nat>, d: nat): seq<Piece>
    requires BoxOk(ranges, tileSizes, fixed) && d < |ranges|
  {
    if d in fixed then [Piece(Axis(ranges, fixed, d), true)] else Pieces(ranges[d].lo, ranges[d].hi, tileSizes[d])
  }

  /// The tiles whose first ranges are `args`.
  function Tiles(ranges: seq<Range>, tileSizes: seq<nat>, fixed: map<nat, nat>, args: seq<Range>): seq<Tile>
    requires BoxOk(ranges, tileSizes, fixed) && |args| < |ranges|
    decreases |ranges| - |args|, 1, 0, 0
  {
    TilesOver(ranges, tileSizes, fixed, args, AxisPieces(ranges, tileSizes, fixed, |args|))
  }

  function TilesOver(ranges: seq<Range>, tileSizes: seq<nat>, fixed: map<nat, nat>, args: seq<Range>,
                     ps: seq<Piece>): seq<Tile>
    requires BoxOk(ranges, tileSizes, fixed) && |args| < |ranges|
    decreases |ranges| - |args|, 0, |ps|
  {
    if |ps| == 0 then []
    else
      (if |args| + 1 == |ranges| then [Tile(args + [ps[0].range], ps[0].full)]
       else Tiles(ranges, tileSizes, fixed, args + [ps[0].range]))
      + TilesOver(ranges, tileSizes, fixed, args, ps[1..])
  }

  lemma {:induction false} TilesOverConcat(ranges: seq<Range>, tileSizes: seq<nat>, fixed: map<nat, nat>,
                                           args: seq<Range>, a: seq<Piece>, b: seq<Piece>)
    requires BoxOk(ranges, tileSizes, fixed) && |args| < |ranges|
    ensures TilesOver(ranges, tileSizes, fixed, args, a + b) ==
            TilesOver(ranges, tileSizes, fixed, args, a) + TilesOver(ranges, tileSizes, fixed, args, b)
    decreases |a|
  {
    if |a| == 0 {
      assert a + b == b;
    } else {
      TilesOverConcat(ranges, tileSizes, fixed, args, a[1..], b);
      DropConcat(a, b);
      Associative(HeadTiles(ranges, tileSizes, fixed, args, a[0]), TilesOver(ranges, tileSizes, fixed, args, a[1..]),
                  TilesOver(ranges, tileSizes, fixed, args, b));
    }
  }

  method ForEachTile(dir: Direction, ranges: seq<Range>, tileSizes: seq<nat>, fixed: map<nat, nat>, args: seq<Range>)
    returns (trace: seq<Tile>)
    requires BoxOk(ranges, tileSizes, fixed) && |args| < |ranges|
    ensures trace == Directed(dir, Tiles(ranges, tileSizes, fixed, args))
    decreases |ranges| - |args|, 1
  {
    ghost var all := AxisPieces(ranges, tileSizes, fixed, |args|);
    var pieces := EachPiece(dir, ranges, tileSizes, fixed, |args|);
    trace := [];
    var k := 0;
    while k < |pieces|
      invariant k <= |pieces| && TilesDone(dir, ranges, tileSizes, fixed, args, all, k, trace)
    {
      var sub := TileOrAxis(dir, ranges, tileSizes, fixed, args, pieces[k]);
      TilesStep(dir, ranges, tileSizes, fixed, args, all, k, trace, sub);
      trace := trace + sub;
      k := k + 1;
    }
    TilesEnd(dir, ranges, tileSizes, fixed, args, all, trace);
  }

  /// The pieces of one axis; a fixed one has a single one.
  method EachPiece(dir: Direction, ranges: seq<Range>, tileSizes: seq<nat>, fixed: map<nat, nat>, d: nat)
    returns (pieces: seq<Piece>)
    requires BoxOk(ranges, tileSizes, fixed) && d < |ranges|
    ensures pieces == Directed(dir, AxisPieces(ranges, tileSizes, fixed, d))
  {
    if d in fixed {
      pieces := [Piece(Axis(ranges, fixed, d), true)];
      ReverseOne(pieces[0]);
    } else {
      pieces := Unroll(dir, ranges[d].lo, ranges[d].hi, tileSizes[d]);
    }
  }

  /// The callback of one piece: the next axis, or the tile.
  method TileOrAxis(dir: Direction, ranges: seq<Range>, tileSizes: seq<nat>, fixed: map<nat, nat>, args: seq<Range>,
                    p: Piece)
    returns (sub: seq<Tile>)
    requires BoxOk(ranges, tileSizes, fixed) && |args| < |ranges|
    ensures sub == Directed(dir, HeadTiles(ranges, tileSizes, fixed, args, p))
    decreases |ranges| - |args|, 0
  {
    if |args| + 1 == |ranges| {
      sub := [Tile(args + [p.range], p.full)];
      ReverseOne(sub[0]);
    } else {
      sub := ForEachTile(dir, ranges, tileSizes, fixed, args + [p.range]);
    }
  }

  /// The first `k` of all pieces in the given direction are done.
  ghost predicate TilesDone(dir: Direction, ranges: seq<Range>, tileSizes: seq<nat>, fixed: map<nat, nat>,
                            args: seq<Range>, all: seq<Piece>, k: nat, trace: seq<Tile>)
  {
    BoxOk(ranges, tileSizes, fixed) && |args| < |ranges| && k <= |all| &&
    match dir
    case Forward => trace == TilesOver(ranges, tileSizes, fixed, args, all[..k])
    case Backward => trace == Reverse(TilesOver(ranges, tileSizes, fixed, args, all[|all| - k..]))
  }

  lemma TilesStep(dir: Direction, ranges: seq<Range>, tileSizes: seq<nat>, fixed: map<nat, nat>, args: seq<Range>,
                  all: seq<Piece>, k: nat, trace: seq<Tile>, sub: seq<Tile>)
    requires TilesDone(dir, ranges, tileSizes, fixed, args, all, k, trace) && k < |all|
    requires sub == Directed(dir, HeadTiles(ranges, tileSizes, fixed, args, Directed(dir, all)[k]))
    ensures TilesDone(dir, ranges, tileSizes, fixed, args, all, k + 1, trace + sub)
  {
    match dir {
      case Forward => ForwardStep(ranges, tileSizes, fixed, args, all, k);
      case Backward => BackwardStep(ranges, tileSizes, fixed, args, all, |all| - 1 - k);
    }
  }

  lemma TilesEnd(dir: Direction, ranges: seq<Range>, tileSizes: seq<nat>, fixed: map<nat, nat>, args: seq<Range>,
                 all: seq<Piece>, trace: seq<Tile>)
    requires TilesDone(dir, ranges, tileSizes, fixed, args, all, |all|, trace)
    ensures trace == Directed(dir, TilesOver(ranges, tileSizes, fixed, args, all))
  {
    assert all[..|all|] == all && all[0..] == all;
  }

  function HeadTiles(ranges: seq<Range>, tileSizes: seq<nat>, fixed: map<nat, nat>, args: seq<Range>,
                     p: Piece): seq<Tile>
    requires BoxOk(ranges, tileSizes, fixed) && |args| < |ranges|
  {
    if |args| + 1 == |ranges| then [Tile(args + [p.range], p.full)]
    else Tiles(ranges, tileSizes, fixed, args + [p.range])
  }

  lemma ForwardStep(ranges: seq<Range>, tileSizes: seq<nat>, fixed: map<nat, nat>, args: seq<Range>, all: seq<Piece>,
                    k: nat)
    requires BoxOk(ranges, tileSizes, fixed) && |args| < |ranges| && k < |all|
    ensures TilesOver(ranges, tileSizes, fixed, args, all[..k + 1]) ==
            TilesOver(ranges, tileSizes, fixed, args, all[..k]) + HeadTiles(ranges, tileSizes, fixed, args, all[k])
  {
    assert all[..k + 1] == all[..k] + [all[k]];
    TilesOverConcat(ranges, tileSizes, fixed, args, all[..k], [all[k]]);
    OnePiece(ranges, tileSizes, fixed, args, all[k]);
  }

  lemma BackwardStep(ranges: seq<Range>, tileSizes: seq<nat>, fixed: map<nat, nat>, args: seq<Range>,
                     all: seq<Piece>, j: nat)
    requires BoxOk(ranges, tileSizes, fixed) && |args| < |ranges| && j < |all|
    ensures Reverse(TilesOver(ranges, tileSizes, fixed, args, all[j..])) ==
            Reverse(TilesOver(ranges, tileSizes, fixed, args, all[j + 1..]))
            + Reverse(HeadTiles(ranges, tileSizes, fixed, args, all[j]))
  {
    assert all[j..] == [all[j]] + all[j + 1..];
    TilesOverConcat(ranges, tileSizes, fixed, args, [all[j]], all[j + 1..]);
    OnePiece(ranges, tileSizes, fixed, args, all[j]);
    ReverseConcat(HeadTiles(ranges, tileSizes, fixed, args, all[j]),
                  TilesOver(ranges, tileSizes, fixed, args, all[j + 1..]));
  }

  lemma OnePiece(ranges: seq<Range>, tileSizes: seq<nat>, fixed: map<nat, nat>, args: seq<Range>, p: Piece)
    requires BoxOk(ranges, tileSizes, fixed) && |args| < |ranges|
    ensures TilesOver(ranges, tileSizes, fixed, args, [p]) == HeadTiles(ranges, tileSizes, fixed, args, p)
  {
    assert [p][1..] == [];
  }

  // ----- which tile a cell lies in

  predicate InTile(ranges: seq<Range>, pos: seq<nat>, from: nat)
    decreases |ranges| - from
  {
    from >= |ranges| || (from < |pos| && ranges[from].Has(pos[from]) && InTile(ranges, pos, from + 1))
  }

  predicate InAxes(ranges: seq<Range>, fixed: map<nat, nat>, pos: seq<nat>, from: nat)
    decreases |ranges| - from
  {
    from >= |ranges| ||
    (from < |pos| && Axis(ranges, fixed, from).Has(pos[from]) && InAxes(ranges, fixed, pos, from + 1))
  }

  predicate InPrefix(args: seq<Range>, pos: seq<nat>, n: nat)
    requires n <= |args|
  {
    n == 0 || (n <= |pos| && args[n - 1].Has(pos[n - 1]) && InPrefix(args, pos, n - 1))
  }

  function CountTiles(ts: seq<Tile>, pos: seq<nat>): nat {
    if |ts| == 0 then 0 else (if InTile(ts[0].ranges, pos, 0) then 1 else 0) + CountTiles(ts[1..], pos)
  }

  lemma {:induction false} CountTilesConcat(a: seq<Tile>, b: seq<Tile>, pos: seq<nat>)
    ensures CountTiles(a + b, pos) == CountTiles(a, pos) + CountTiles(b, pos)
  {
    if |a| == 0 {
      assert a + b == b;
    } else {
      CountTilesConcat(a[1..], b, pos);
      assert (a + b)[1..] == a[1..] + b;
    }
  }

  lemma {:induction false} PrefixIsTile(ranges: seq<Range>, pos: seq<nat>, n: nat)
    requires n <= |ranges|
    ensures InTile(ranges, pos, 0) <==> InPrefix(ranges, pos, n) && InTile(ranges, pos, n)
  {
    if n > 0 { PrefixIsTile(ranges, pos, n - 1); }
  }

  lemma {:induction false} PrefixExtends(args: seq<Range>, r: Range, pos: seq<nat>, n: nat)
    requires n <= |args|
    ensures InPrefix(args + [r], pos, n) <==> InPrefix(args, pos, n)
  {
    if n > 0 { PrefixExtends(args, r, pos, n - 1); }
  }

  /// Of the positions that begin as `args` do, those of the box lie in exactly one tile, and no others in any.
  lemma {:induction false} TilesCount(ranges: seq<Range>, tileSizes: seq<nat>, fixed: map<nat, nat>,
                                      args: seq<Range>, pos: seq<nat>)
    requires BoxOk(ranges, tileSizes, fixed) && |args| < |ranges|
    ensures CountTiles(Tiles(ranges, tileSizes, fixed, args), pos) ==
            if InPrefix(args, pos, |args|) && InAxes(ranges, fixed, pos, |args|) then 1 else 0
    decreases |ranges| - |args|, 1, 0
  {
    var d := |args|;
    var ps := AxisPieces(ranges, tileSizes, fixed, d);
    TilesOverCount(ranges, tileSizes, fixed, args, ps, pos);
    if d < |pos| {
      var x := pos[d];
      if d in fixed { assert ps[1..] == []; } else { PiecesCoverOnce(ranges[d].lo, ranges[d].hi, tileSizes[d], x); }
      assert InPieces(ps, x) == if Axis(ranges, fixed, d).Has(x) then 1 else 0;
    }
  }

  lemma {:induction false} TilesOverCount(ranges: seq<Range>, tileSizes: seq<nat>, fixed: map<nat, nat>,
                                          args: seq<Range>, ps: seq<Piece>, pos: seq<nat>)
    requires BoxOk(ranges, tileSizes, fixed) && |args| < |ranges|
    ensures CountTiles(TilesOver(ranges, tileSizes, fixed, args, ps), pos) ==
            if InPrefix(args, pos, |args|) && |args| < |pos| && InAxes(ranges, fixed, pos, |args| + 1)
            then InPieces(ps, pos[|args|]) else 0
    decreases |ranges| - |args|, 0, |ps|, 1
  {
    if |ps| > 0 {
      TilesOverCount(ranges, tileSizes, fixed, args, ps[1..], pos);
      CountTilesConcat(HeadTiles(ranges, tileSizes, fixed, args, ps[0]),
                       TilesOver(ranges, tileSizes, fixed, args, ps[1..]), pos);
      HeadCount(ranges, tileSizes, fixed, args, ps[0], pos, |ps|);
    }
  }

  /// The tiles of one piece hold the positions whose coordinate lies in it.
  lemma {:induction false} HeadCount(ranges: seq<Range>, tileSizes: seq<nat>, fixed: map<nat, nat>, args: seq<Range>,
                                     p: Piece, pos: seq<nat>, n: nat)
    requires BoxOk(ranges, tileSizes, fixed) && |args| < |ranges|
    ensures CountTiles(HeadTiles(ranges, tileSizes, fixed, args, p), pos) ==
            if InPrefix(args, pos, |args|) && |args| < |pos| && InAxes(ranges, fixed, pos, |args| + 1) &&
               p.range.Has(pos[|args|]) then 1 else 0
    decreases |ranges| - |args|, 0, n, 0
  {
    var d, next := |args|, args + [p.range];
    PrefixExtends(args, p.range, pos, d);
    if d + 1 == |ranges| {
      PrefixIsTile(next, pos, d + 1);
      assert [Tile(next, p.full)][1..] == [];
    } else {
      TilesCount(ranges, tileSizes, fixed, next, pos);
    }
  }

  /// The positions of the box: on a fixed axis the given index, on any other those of its range.
  ghost predicate InBox(ranges: seq<Range>, fixed: map<nat, nat>, pos: seq<nat>) {
    |pos| == |ranges| && forall d :: 0 <= d < |ranges| ==>
      if d in fixed then pos[d] == fixed[d] else ranges[d].lo <= pos[d] < ranges[d].hi
  }

  lemma {:induction false} AxesAreBox(ranges: seq<Range>, fixed: map<nat, nat>, pos: seq<nat>, from: nat)
    requires from <= |ranges| == |pos|
    ensures InAxes(ranges, fixed, pos, from) <==>
            forall d :: from <= d < |ranges| ==>
              if d in fixed then pos[d] == fixed[d] else ranges[d].lo <= pos[d] < ranges[d].hi
    decreases |ranges| - from
  {
    if from < |ranges| { AxesAreBox(ranges, fixed, pos, from + 1); }
  }

  /// Every position of the box lies in exactly one tile, every other in none.
  lemma TilesCoverOnce(ranges: seq<Range>, tileSizes: seq<nat>, fixed: map<nat, nat>, pos: seq<nat>)
    requires BoxOk(ranges, tileSizes, fixed) && |pos| == |ranges|
    ensures CountTiles(Tiles(ranges, tileSizes, fixed, []), pos) == if InBox(ranges, fixed, pos) then 1 else 0
  {
    TilesCount(ranges, tileSizes, fixed, [], pos);
    AxesAreBox(ranges, fixed, pos, 0);
  }
}
