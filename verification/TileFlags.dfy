/**
 Which tiles `detail::for_each_tile` calls full (include/thesauros/algorithms/ranges/for-each-tile.hpp). Its comment
 promises those that are full in all dimensions, but the last dimension alone decides.
 */
module TileFlags {
  import opened Arith
  import opened Sequences
  import opened Tiling

  /// The first `n` ranges have the tile size, unless their axis is fixed.
  ghost predicate AllFull(rs: seq<Range>, tileSizes: seq<nat>, fixed: map<nat, nat>, n: nat) {
    n <= |rs| && n <= |tileSizes| && forall d :: 0 <= d < n ==> d in fixed || rs[d].hi - rs[d].lo == tileSizes[d]
  }

  /// The tiles called full are those that are full in all dimensions.
  ghost predicate Flagged(ts: seq<Tile>, tileSizes: seq<nat>, fixed: map<nat, nat>) {
    forall k :: 0 <= k < |ts| ==> (ts[k].full <==> AllFull(ts[k].ranges, tileSizes, fixed, |tileSizes|))
  }

  /// Some axis from `d` on has no indices.
  predicate Empty(ranges: seq<Range>, fixed: map<nat, nat>, d: nat)
    decreases |ranges| - d
  {
    d < |ranges| && ((d !in fixed && ranges[d].lo >= ranges[d].hi) || Empty(ranges, fixed, d + 1))
  }

  /// Every axis from `d` on, except for the last one, is fixed or a multiple of its tile size.
  predicate Even(ranges: seq<Range>, tileSizes: seq<nat>, fixed: map<nat, nat>, d: nat)
    requires BoxOk(ranges, tileSizes, fixed)
    decreases |ranges| - d
  {
    d + 1 >= |ranges| ||
    ((d in fixed || (ranges[d].hi - ranges[d].lo) % tileSizes[d] == 0) && Even(ranges, tileSizes, fixed, d + 1))
  }

  /// The last axis has room for a full piece.
  predicate LastHasFull(ranges: seq<Range>, tileSizes: seq<nat>, fixed: map<nat, nat>)
    requires BoxOk(ranges, tileSizes, fixed)
  {
    ranges[|ranges| - 1].hi - ranges[|ranges| - 1].lo >= tileSizes[|ranges| - 1]
  }

  predicate HasPiece(ps: seq<Piece>, full: bool) { |ps| > 0 && (ps[0].full == full || HasPiece(ps[1..], full)) }

  lemma {:induction false} WhichPieces(begin: nat, end: nat, tile: nat)
    requires begin <= end && tile > 0
    ensures HasPiece(Pieces(begin, end, tile), true) <==> end - begin >= tile
    ensures HasPiece(Pieces(begin, end, tile), false) <==> (end - begin) % tile != 0
    decreases end - begin
  {
    if begin + tile <= end {
      WhichPieces(begin + tile, end, tile);
      assert Pieces(begin, end, tile)[1..] == Pieces(begin + tile, end, tile);
      ModShift(end - begin - tile, tile, 1);
    } else {
      SmallMod(end - begin, tile);
      if begin != end { assert Pieces(begin, end, tile)[1..] == []; }
    }
  }

  /// The tiles that begin with `args` and a piece that is full or not are called full correctly.
  ghost predicate HeadRight(ranges: seq<Range>, tileSizes: seq<nat>, fixed: map<nat, nat>, args: seq<Range>, full: bool)
    requires BoxOk(ranges, tileSizes, fixed)
  {
    var d, before := |args|, AllFull(args, tileSizes, fixed, |args|);
    if d + 1 == |ranges| then full ==> before
    else Empty(ranges, fixed, d + 1) || !LastHasFull(ranges, tileSizes, fixed) ||
         (before && full && Even(ranges, tileSizes, fixed, d + 1))
  }

  ghost predicate PieceOk(tileSizes: seq<nat>, fixed: map<nat, nat>, d: nat, p: Piece) {
    d < |tileSizes| && (p.full <==> d in fixed || p.range.hi - p.range.lo == tileSizes[d])
  }

  lemma {:induction false} HeadIff(ranges: seq<Range>, tileSizes: seq<nat>, fixed: map<nat, nat>, args: seq<Range>,
                                   p: Piece)
    requires BoxOk(ranges, tileSizes, fixed) && |args| < |ranges| && PieceOk(tileSizes, fixed, |args|, p)
    ensures Flagged(HeadTiles(ranges, tileSizes, fixed, args, p), tileSizes, fixed) <==>
            HeadRight(ranges, tileSizes, fixed, args, p.full)
    decreases |ranges| - |args|, 0
  {
    var d, next := |args|, args + [p.range];
    assert AllFull(next, tileSizes, fixed, d + 1) <==> AllFull(args, tileSizes, fixed, d) && p.full by {
      assert forall k :: 0 <= k < d ==> next[k] == args[k];
      assert next[d] == p.range;
    }
    if d + 1 == |ranges| {
      var t := Tile(next, p.full);
      assert HeadTiles(ranges, tileSizes, fixed, args, p) == [t];
      assert Flagged([t], tileSizes, fixed) <==>
             ([t][0].full <==> AllFull([t][0].ranges, tileSizes, fixed, |tileSizes|));
    } else {
      FlagIff(ranges, tileSizes, fixed, next);
    }
  }

  lemma {:induction false} OverIff(ranges: seq<Range>, tileSizes: seq<nat>, fixed: map<nat, nat>, args: seq<Range>,
                                   ps: seq<Piece>)
    requires BoxOk(ranges, tileSizes, fixed) && |args| < |ranges|
    requires forall k :: 0 <= k < |ps| ==> PieceOk(tileSizes, fixed, |args|, ps[k])
    ensures Flagged(TilesOver(ranges, tileSizes, fixed, args, ps), tileSizes, fixed) <==>
            (HasPiece(ps, true) ==> HeadRight(ranges, tileSizes, fixed, args, true)) &&
            (HasPiece(ps, false) ==> HeadRight(ranges, tileSizes, fixed, args, false))
    decreases |ranges| - |args|, 1, |ps|
  {
    if |ps| > 0 {
      HeadIff(ranges, tileSizes, fixed, args, ps[0]);
      OverIff(ranges, tileSizes, fixed, args, ps[1..]);
      FlaggedConcat(HeadTiles(ranges, tileSizes, fixed, args, ps[0]),
                    TilesOver(ranges, tileSizes, fixed, args, ps[1..]), tileSizes, fixed);
    }
  }

  lemma FlaggedConcat(a: seq<Tile>, b: seq<Tile>, tileSizes: seq<nat>, fixed: map<nat, nat>)
    ensures Flagged(a + b, tileSizes, fixed) <==> Flagged(a, tileSizes, fixed) && Flagged(b, tileSizes, fixed)
  {
    var c := a + b;
    if Flagged(c, tileSizes, fixed) {
      forall k | 0 <= k < |a| ensures a[k].full <==> AllFull(a[k].ranges, tileSizes, fixed, |tileSizes|) {
        assert c[k] == a[k];
      }
      forall k | 0 <= k < |b| ensures b[k].full <==> AllFull(b[k].ranges, tileSizes, fixed, |tileSizes|) {
        assert c[|a| + k] == b[k];
      }
    }
  }

  lemma {:induction false} FlagIff(ranges: seq<Range>, tileSizes: seq<nat>, fixed: map<nat, nat>, args: seq<Range>)
    requires BoxOk(ranges, tileSizes, fixed) && |args| < |ranges|
    ensures Flagged(Tiles(ranges, tileSizes, fixed, args), tileSizes, fixed) <==>
            Empty(ranges, fixed, |args|) || !LastHasFull(ranges, tileSizes, fixed) ||
            (AllFull(args, tileSizes, fixed, |args|) && Even(ranges, tileSizes, fixed, |args|))
    decreases |ranges| - |args|, 2
  {
    var d := |args|;
    var ps := AxisPieces(ranges, tileSizes, fixed, d);
    if d in fixed {
      assert ps[1..] == [];
    } else {
      PiecesCoverOnce(ranges[d].lo, ranges[d].hi, tileSizes[d], 0);
      WhichPieces(ranges[d].lo, ranges[d].hi, tileSizes[d]);
      if ranges[d].hi - ranges[d].lo < tileSizes[d] { SmallMod(ranges[d].hi - ranges[d].lo, tileSizes[d]); }
    }
    OverIff(ranges, tileSizes, fixed, args, ps);
    assert !Empty(ranges, fixed, |ranges|);
  }

  /// What the comment says holds of a box iff some axis is empty, the last one is shorter than a tile, or all others
  /// are fixed or multiples of their tile sizes.
  lemma FullInAllDimensionsIff(ranges: seq<Range>, tileSizes: seq<nat>, fixed: map<nat, nat>)
    requires BoxOk(ranges, tileSizes, fixed)
    ensures Flagged(Tiles(ranges, tileSizes, fixed, []), tileSizes, fixed) <==>
            Empty(ranges, fixed, 0) || !LastHasFull(ranges, tileSizes, fixed) || Even(ranges, tileSizes, fixed, 0)
  {
    FlagIff(ranges, tileSizes, fixed, []);
  }

  /// One row of two cells in tiles of two by two is called full.
  lemma FullInAllDimensionsFails()
    ensures var box := [Range(0, 1), Range(0, 2)];
            BoxOk(box, [2, 2], map[]) && !Flagged(Tiles(box, [2, 2], map[], []), [2, 2], map[])
  {
    FullInAllDimensionsIff([Range(0, 1), Range(0, 2)], [2, 2], map[]);
  }
}
