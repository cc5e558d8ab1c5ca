/**
 * How a subarray meets the tiling of its array: the coordinates of the
 * tiles its ranges intersect, and whether its single ND range lines up
 * with tile boundaries.
 */
module SubarrayTiles {
  import opened Types
  import opened Arith
  import opened MixedRadix
  import opened Product
  import opened Subarrays

  /** Range `r` spans tile `t`: the tile lies between the tiles of the range's two ends. */
  predicate SpansTile(dim: Dimension, r: Range, t: int)
    requires dim.extent > 0
  {
    TileIdx(dim, r.start) <= t <= TileIdx(dim, r.end)
  }

  /** Some coordinate of range `r` lies in tile `t`. */
  ghost predicate MeetsTile(dim: Dimension, r: Range, t: int)
    requires dim.extent > 0
  {
    exists x :: r.start <= x <= r.end && TileIdx(dim, x) == t
  }

  /** Every coordinate of every tile that `r` spans lies in `r`. */
  ghost predicate CoversTiles(dim: Dimension, r: Range)
    requires dim.extent > 0
  {
    forall x :: SpansTile(dim, r, TileIdx(dim, x)) ==> r.start <= x <= r.end
  }

  /** The first coordinate of tile `t`. */
  function TileStart(dim: Dimension, t: int): int {
    dim.lo + t * dim.extent
  }

  /** Range `r` starts and ends on tile boundaries. */
  predicate Aligned(dim: Dimension, r: Range)
    requires dim.extent > 0
  {
    (r.start - dim.lo) % dim.extent == 0 && (r.end - dim.lo + 1) % dim.extent == 0
  }

  /** The tiles `t, t+1, ..., count-1` that some range of `rs` spans, in increasing order. */
  function TouchedFrom(dim: Dimension, rs: seq<Range>, t: int, count: int): (ts: seq<int>)
    requires dim.extent > 0
    ensures StrictlyIncreasing(ts)
    ensures forall k :: 0 <= k < |ts| ==> t <= ts[k] < count
    ensures forall v :: v in ts <==> t <= v < count && exists j :: 0 <= j < |rs| && SpansTile(dim, rs[j], v)
    decreases count - t
  {
    if t >= count then []
    else
      var rest := TouchedFrom(dim, rs, t + 1, count);
      if exists j :: 0 <= j < |rs| && SpansTile(dim, rs[j], t) then [t] + rest else rest
  }

  /** The sorted, duplicate-free tile indices that the ranges of dimension `d` intersect. */
  function TouchedTiles(s: Subarray, d: nat): (ts: seq<int>)
    requires Valid(s) && d < |s.ranges|
    ensures StrictlyIncreasing(ts)
    ensures forall k :: 0 <= k < |ts| ==> 0 <= ts[k] < TileNum(s.domain.dims[d])
  {
    var dim := s.domain.dims[d];
    TouchedFrom(dim, s.ranges[d], 0, TileNum(dim))
  }

  function TileLists(s: Subarray): (lists: seq<seq<int>>)
    requires Valid(s)
    ensures |lists| == |s.ranges|
  {
    seq(|s.ranges|, d requires 0 <= d < |s.ranges| => TouchedTiles(s, d))
  }

  /**
   * The coordinates of the tiles the subarray intersects, in the array's
   * tile order: the cross product of the per-dimension tile lists.
   */
  function ComputeTileCoords(s: Subarray): (tcs: seq<seq<int>>)
    requires Valid(s)
    ensures |tcs| == Prod(Lengths(TileLists(s)))
    ensures forall tc :: tc in tcs ==> |tc| == DimNum(s)
  {
    var tcs := CrossProduct(TileLists(s), s.domain.tileOrder);
    CrossProductLength(TileLists(s), s.domain.tileOrder);
    assert forall tc :: tc in tcs ==> |tc| == DimNum(s) by {
      forall tc | tc in tcs
        ensures |tc| == DimNum(s)
      {
        CrossProductMember(TileLists(s), s.domain.tileOrder, tc);
      }
    }
    tcs
  }

  /** Tile `tc` intersects the ND range with id `i` along every dimension. */
  ghost predicate TileMeetsNDRange(s: Subarray, i: nat, tc: seq<int>)
    requires Wf(s) && Populated(s) && i < RangeNum(s)
  {
    |tc| == |s.ranges| &&
    forall d :: 0 <= d < |s.ranges| ==> MeetsTile(s.domain.dims[d], NDRange(s, i)[d], tc[d])
  }

  /**
   * True if the subarray has a single ND range whose 1D ranges start and
   * end on tile boundaries.
   */
  function CoincidesWithTiles(s: Subarray): (b: bool)
    requires Wf(s)
    ensures Valid(s) ==>
              (b <==> RangeNum(s) == 1 && forall d :: 0 <= d < |s.ranges| ==> CoversTiles(s.domain.dims[d], s.ranges[d][0]))
  {
    if RangeNum(s) != 1 then false
    else
      RangeNumOne(s);
      var b := forall d :: 0 <= d < |s.ranges| ==> Aligned(s.domain.dims[d], s.ranges[d][0]);
      assert Valid(s) ==> (b <==> forall d :: 0 <= d < |s.ranges| ==> CoversTiles(s.domain.dims[d], s.ranges[d][0])) by {
        if Valid(s) {
          AlignedAll(s);
        }
      }
      b
  }

  /* ---------------- tile geometry ---------------- */

  lemma TileOfStart(dim: Dimension, t: int)
    requires dim.extent > 0
    ensures TileIdx(dim, TileStart(dim, t)) == t
    ensures TileIdx(dim, TileStart(dim, t + 1) - 1) == t
  {
    MulSucc(t, dim.extent);
    TileIdxBounds(dim, TileStart(dim, t), t);
    TileIdxBounds(dim, TileStart(dim, t + 1) - 1, t);
  }

  /** A coordinate lies between the first coordinates of its tile and of the next one. */
  lemma TileContains(dim: Dimension, x: int)
    requires dim.extent > 0
    ensures TileStart(dim, TileIdx(dim, x)) <= x < TileStart(dim, TileIdx(dim, x) + 1)
  {
    TileIdxBounds(dim, x, TileIdx(dim, x));
  }

  /** For a non-empty range, spanning a tile and having a coordinate in it are the same. */
  lemma SpansIffMeets(dim: Dimension, r: Range, t: int)
    requires dim.extent > 0 && r.start <= r.end
    ensures SpansTile(dim, r, t) <==> MeetsTile(dim, r, t)
  {
    if SpansTile(dim, r, t) {
      var x := if r.start < TileStart(dim, t) then TileStart(dim, t) else r.start;
      TileOfStart(dim, t);
      if x == r.start {
        TileIdxMonotone(dim, TileStart(dim, t), r.start);
      } else {
        TileContains(dim, r.end);
        MulMonoLe(t, TileIdx(dim, r.end), dim.extent);
      }
      assert r.start <= x <= r.end && TileIdx(dim, x) == t;
    }
    if MeetsTile(dim, r, t) {
      var x :| r.start <= x <= r.end && TileIdx(dim, x) == t;
      TileIdxMonotone(dim, r.start, x);
      TileIdxMonotone(dim, x, r.end);
    }
  }

  lemma AlignedCovers(dim: Dimension, r: Range)
    requires dim.extent > 0 && r.start <= r.end
    requires Aligned(dim, r)
    ensures CoversTiles(dim, r)
  {
    var e := dim.extent;
    var a, b := TileIdx(dim, r.start), TileIdx(dim, r.end);
    var b1 := (r.end - dim.lo + 1) / e;
    assert r.start == TileStart(dim, a);
    assert r.end + 1 == TileStart(dim, b1);
    TileOfStart(dim, b1 - 1);
    assert b + 1 == b1;
    forall x | SpansTile(dim, r, TileIdx(dim, x))
      ensures r.start <= x <= r.end
    {
      var t := TileIdx(dim, x);
      TileContains(dim, x);
      MulMonoLe(a, t, e);
      MulMonoLe(t + 1, b1, e);
    }
  }

  /** A range that reaches back to the start of its first tile and on to the end of its last one is aligned. */
  lemma BoundariesAligned(dim: Dimension, r: Range)
    requires dim.extent > 0
    requires TileStart(dim, TileIdx(dim, r.start)) >= r.start
    requires TileStart(dim, TileIdx(dim, r.end) + 1) - 1 <= r.end
    ensures Aligned(dim, r)
  {
    var e := dim.extent;
    var a, b := TileIdx(dim, r.start), TileIdx(dim, r.end);
    TileContains(dim, r.start);
    TileContains(dim, r.end);
    DivModUnique(r.start - dim.lo, e, a, 0);
    DivModUnique(r.end - dim.lo + 1, e, b + 1, 0);
  }

  lemma CoversAligned(dim: Dimension, r: Range)
    requires dim.extent > 0 && r.start <= r.end
    requires CoversTiles(dim, r)
    ensures Aligned(dim, r)
  {
    var a, b := TileIdx(dim, r.start), TileIdx(dim, r.end);
    var x0, x1 := TileStart(dim, a), TileStart(dim, b + 1) - 1;
    TileOfStart(dim, a);
    TileOfStart(dim, b);
    assert SpansTile(dim, r, TileIdx(dim, x0));
    assert SpansTile(dim, r, TileIdx(dim, x1));
    BoundariesAligned(dim, r);
  }

  /** A range is aligned to tile boundaries exactly when it covers every tile it spans. */
  lemma AlignedIffCovers(dim: Dimension, r: Range)
    requires dim.extent > 0 && r.start <= r.end
    ensures Aligned(dim, r) <==> CoversTiles(dim, r)
  {
    if Aligned(dim, r) {
      AlignedCovers(dim, r);
    }
    if CoversTiles(dim, r) {
      CoversAligned(dim, r);
    }
  }

  lemma AlignedAll(s: Subarray)
    requires Valid(s) && RangeNum(s) == 1
    ensures forall d :: 0 <= d < |s.ranges| ==> |s.ranges[d]| == 1
    ensures (forall d :: 0 <= d < |s.ranges| ==> Aligned(s.domain.dims[d], s.ranges[d][0])) <==>
            (forall d :: 0 <= d < |s.ranges| ==> CoversTiles(s.domain.dims[d], s.ranges[d][0]))
  {
    RangeNumOne(s);
    forall d | 0 <= d < |s.ranges|
      ensures Aligned(s.domain.dims[d], s.ranges[d][0]) <==> CoversTiles(s.domain.dims[d], s.ranges[d][0])
    {
      assert InDomain(s.domain.dims[d], s.ranges[d][0]);
      AlignedIffCovers(s.domain.dims[d], s.ranges[d][0]);
    }
  }

  /* ---------------- tile coordinates ---------------- */

  /** The index of the first range of `rs` that spans tile `t`. */
  function SpanningRange(dim: Dimension, rs: seq<Range>, t: int): (j: nat)
    requires dim.extent > 0
    requires exists j :: 0 <= j < |rs| && SpansTile(dim, rs[j], t)
    ensures j < |rs| && SpansTile(dim, rs[j], t)
  {
    if SpansTile(dim, rs[0], t) then 0
    else
      assert exists j :: 0 <= j < |rs[1..]| && SpansTile(dim, rs[1..][j], t) by {
        var j :| 0 <= j < |rs| && SpansTile(dim, rs[j], t);
        assert rs[1..][j - 1] == rs[j];
      }
      1 + SpanningRange(dim, rs[1..], t)
  }

  /** A tile index is listed for a dimension exactly when one of its ranges has a coordinate in it. */
  lemma TouchedTilesMember(s: Subarray, d: nat, t: int)
    requires Valid(s) && d < |s.ranges|
    ensures t in TouchedTiles(s, d) <==> exists j :: 0 <= j < |s.ranges[d]| && MeetsTile(s.domain.dims[d], s.ranges[d][j], t)
  {
    var dim := s.domain.dims[d];
    var rs := s.ranges[d];
    forall j | 0 <= j < |rs|
      ensures SpansTile(dim, rs[j], t) <==> MeetsTile(dim, rs[j], t)
      ensures SpansTile(dim, rs[j], t) ==> 0 <= t < TileNum(dim)
    {
      assert InDomain(dim, rs[j]);
      SpansIffMeets(dim, rs[j], t);
      TileIdxInGrid(dim, rs[j].start);
      TileIdxInGrid(dim, rs[j].end);
    }
  }

  /** Listed in tile order, the tile coordinates are strictly increasing, hence free of duplicates. */
  lemma TileCoordsSorted(s: Subarray)
    requires Valid(s)
    ensures SortedIn(s.domain.tileOrder, ComputeTileCoords(s))
    ensures forall i, j :: 0 <= i < j < |ComputeTileCoords(s)| ==> ComputeTileCoords(s)[i] != ComputeTileCoords(s)[j]
  {
    CrossProductSorted(TileLists(s), s.domain.tileOrder);
    SortedDistinct(s.domain.tileOrder, ComputeTileCoords(s));
  }

  /** The tile coordinates are exactly the tiles that some ND range of the subarray intersects. */
  lemma TileCoordsMember(s: Subarray, tc: seq<int>)
    requires Valid(s)
    ensures tc in ComputeTileCoords(s) <==> exists i :: 0 <= i < RangeNum(s) && TileMeetsNDRange(s, i, tc)
  {
    var n := |s.ranges|;
    var lists := TileLists(s);
    CrossProductMember(lists, s.domain.tileOrder, tc);
    if tc in ComputeTileCoords(s) {
      var c := seq(n, d requires 0 <= d < n =>
        assert tc[d] in lists[d];
        SpanningRange(s.domain.dims[d], s.ranges[d], tc[d]));
      assert InBounds(Lengths(s.ranges), c);
      RangeCoordsOfIdx(s, c);
      var i := RangeIdx(s, c);
      forall d | 0 <= d < n
        ensures MeetsTile(s.domain.dims[d], NDRange(s, i)[d], tc[d])
      {
        assert NDRange(s, i)[d] == s.ranges[d][c[d]];
        assert InDomain(s.domain.dims[d], s.ranges[d][c[d]]);
        SpansIffMeets(s.domain.dims[d], s.ranges[d][c[d]], tc[d]);
      }
      assert TileMeetsNDRange(s, i, tc);
    }
    if exists i :: 0 <= i < RangeNum(s) && TileMeetsNDRange(s, i, tc) {
      var i :| 0 <= i < RangeNum(s) && TileMeetsNDRange(s, i, tc);
      var c := RangeCoords(s, i);
      forall d | 0 <= d < n
        ensures tc[d] in lists[d]
      {
        assert NDRange(s, i)[d] == s.ranges[d][c[d]];
        TouchedTilesMember(s, d, tc[d]);
      }
    }
  }

  /**
   * The position of tile `tc` in the tile coordinates list: the map from
   * tile coordinates to their index that the subarray keeps beside the list.
   */
  function TilePosition(s: Subarray, tc: seq<int>): (k: nat)
    requires Valid(s)
    requires tc in ComputeTileCoords(s)
    ensures k < |ComputeTileCoords(s)| && ComputeTileCoords(s)[k] == tc
    ensures forall j :: 0 <= j < |ComputeTileCoords(s)| && ComputeTileCoords(s)[j] == tc ==> j == k
  {
    var k := IndexOf(ComputeTileCoords(s), tc);
    TileCoordsSorted(s);
    k
  }
}
