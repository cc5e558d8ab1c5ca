/**
 * The logical domain a subarray stands for. Along each dimension its
 * cells are the coordinates of that dimension's ranges, range after
 * range in the order they were added; overlapping ranges repeat cells.
 * Over all dimensions the cells are the cross product of these lists.
 */
module SubarrayCells {
  import opened Types
  import opened MixedRadix
  import opened Product
  import opened Subarrays

  /** The coordinates `a, a+1, ..., b`; empty when `a > b`. */
  function Interval(a: int, b: int): (xs: seq<int>)
    ensures |xs| == if a <= b then b - a + 1 else 0
    ensures forall k :: 0 <= k < |xs| ==> xs[k] == a + k
    decreases b - a
  {
    if a > b then [] else [a] + Interval(a + 1, b)
  }

  /** The cells of a list of 1D ranges: each range's coordinates, concatenated in order. */
  function RangeCells(rs: seq<Range>): (cells: seq<int>)
    ensures forall k :: 0 <= k < |cells| ==> exists j :: 0 <= j < |rs| && InRange(rs[j], cells[k])
  {
    if |rs| == 0 then []
    else
      var head, rest := Interval(rs[0].start, rs[0].end), RangeCells(rs[1..]);
      assert forall k :: 0 <= k < |rest| ==> exists j :: 0 <= j < |rs| && InRange(rs[j], rest[k]) by {
        forall k | 0 <= k < |rest|
          ensures exists j :: 0 <= j < |rs| && InRange(rs[j], rest[k])
        {
          var j :| 0 <= j < |rs[1..]| && InRange(rs[1..][j], rest[k]);
          assert InRange(rs[j + 1], rest[k]);
        }
      }
      assert forall k :: 0 <= k < |head| ==> InRange(rs[0], head[k]);
      head + rest
  }

  /** The number of coordinates of a range. */
  function Size(r: Range): nat {
    if r.start <= r.end then r.end - r.start + 1 else 0
  }

  function SumSizes(rs: seq<Range>): nat {
    if |rs| == 0 then 0 else Size(rs[0]) + SumSizes(rs[1..])
  }

  /** The number of cells along each dimension. */
  function DimSizes(s: Subarray): (sizes: seq<nat>)
    ensures |sizes| == |s.ranges|
  {
    seq(|s.ranges|, d requires 0 <= d < |s.ranges| => SumSizes(s.ranges[d]))
  }

  function DimCells(s: Subarray, d: nat): seq<int>
    requires d < |s.ranges|
  {
    RangeCells(s.ranges[d])
  }

  function CellLists(s: Subarray): (lists: seq<seq<int>>)
    ensures |lists| == |s.ranges|
  {
    seq(|s.ranges|, d requires 0 <= d < |s.ranges| => DimCells(s, d))
  }

  /**
   * The cells of the subarray's logical domain, listed in the given order.
   * A cleared subarray holds no ranges and so no cells.
   */
  function Cells(s: Subarray, order: Order): (cells: seq<seq<int>>)
    ensures |s.ranges| == 0 ==> cells == []
    ensures |s.ranges| > 0 ==> |cells| == Prod(Lengths(CellLists(s)))
  {
    if |s.ranges| == 0 then []
    else
      CrossProductLength(CellLists(s), order);
      CrossProduct(CellLists(s), order)
  }

  predicate InRange(r: Range, v: int) {
    r.start <= v <= r.end
  }

  /** Cell `x` lies inside the ND range `nd`. */
  predicate InNDRange(nd: seq<Range>, x: seq<int>) {
    |x| == |nd| && forall d :: 0 <= d < |nd| ==> InRange(nd[d], x[d])
  }

  /** The index of the first range of `rs` that contains `v`. */
  function RangeWith(rs: seq<Range>, v: int): (j: nat)
    requires v in RangeCells(rs)
    ensures j < |rs| && InRange(rs[j], v)
  {
    if v in Interval(rs[0].start, rs[0].end) then 0 else 1 + RangeWith(rs[1..], v)
  }

  /* ---------------- one dimension ---------------- */

  /** Every range contributes all its coordinates, so overlaps are counted twice. */
  lemma {:induction false} RangeCellsLength(rs: seq<Range>)
    ensures |RangeCells(rs)| == SumSizes(rs)
  {
    if |rs| > 0 {
      RangeCellsLength(rs[1..]);
    }
  }

  /** A coordinate is a cell of a dimension exactly when one of its ranges contains it. */
  lemma {:induction false} RangeCellsMember(rs: seq<Range>, v: int)
    ensures v in RangeCells(rs) <==> exists j :: 0 <= j < |rs| && InRange(rs[j], v)
  {
    if |rs| > 0 {
      RangeCellsMember(rs[1..], v);
      if InRange(rs[0], v) {
        assert Interval(rs[0].start, rs[0].end)[v - rs[0].start] == v;
      }
      if exists j :: 1 <= j < |rs| && InRange(rs[j], v) {
        var j :| 1 <= j < |rs| && InRange(rs[j], v);
        assert InRange(rs[1..][j - 1], v);
      }
      if v in RangeCells(rs[1..]) {
        var j :| 0 <= j < |rs[1..]| && InRange(rs[1..][j], v);
        assert InRange(rs[j + 1], v);
      }
    }
  }

  /* ---------------- all dimensions ---------------- */

  /** A cell of the subarray lies in the ND range picked by the first range containing each of its coordinates. */
  lemma CellInSomeNDRange(s: Subarray, x: seq<int>)
    requires |s.ranges| > 0
    requires |x| == |s.ranges| && forall d :: 0 <= d < |s.ranges| ==> x[d] in CellLists(s)[d]
    ensures exists i :: 0 <= i < RangeNum(s) && InNDRange(NDRange(s, i), x)
  {
    var n := |s.ranges|;
    var c := seq(n, d requires 0 <= d < n => RangeWith(s.ranges[d], x[d]));
    assert InBounds(Lengths(s.ranges), c);
    RangeCoordsOfIdx(s, c);
    var i := RangeIdx(s, c);
    assert InNDRange(NDRange(s, i), x);
  }

  /** The cells are exactly the points lying in some ND range of the subarray. */
  lemma CellsMember(s: Subarray, order: Order, x: seq<int>)
    ensures x in Cells(s, order) <==> exists i :: 0 <= i < RangeNum(s) && InNDRange(NDRange(s, i), x)
  {
    if |s.ranges| > 0 {
      var n := |s.ranges|;
      var lists := CellLists(s);
      CrossProductMember(lists, order, x);
      if x in Cells(s, order) {
        CellInSomeNDRange(s, x);
      }
      if exists i :: 0 <= i < RangeNum(s) && InNDRange(NDRange(s, i), x) {
        var i :| 0 <= i < RangeNum(s) && InNDRange(NDRange(s, i), x);
        var c := RangeCoords(s, i);
        forall d | 0 <= d < n
          ensures x[d] in lists[d]
        {
          assert InRange(s.ranges[d][c[d]], x[d]);
          RangeCellsMember(s.ranges[d], x[d]);
        }
      }
    }
  }

  /**
   * The number of cells is the product over dimensions of the summed range
   * sizes, and zero once the subarray is cleared.
   */
  lemma CellsLength(s: Subarray, order: Order)
    ensures |Cells(s, order)| == if |s.ranges| == 0 then 0 else Prod(DimSizes(s))
  {
    if |s.ranges| > 0 {
      CrossProductLength(CellLists(s), order);
      forall d | 0 <= d < |s.ranges|
        ensures |CellLists(s)[d]| == SumSizes(s.ranges[d])
      {
        RangeCellsLength(s.ranges[d]);
      }
      assert Lengths(CellLists(s)) == DimSizes(s);
    }
  }

  /**
   * A subarray whose ranges all lie in the domain is empty exactly when it
   * has no cells: every stored range holds at least one.
   */
  lemma EmptyIffNoCells(s: Subarray, order: Order)
    requires Wf(s) && (Populated(s) ==> RangesInDomain(s))
    ensures Empty(s) <==> Cells(s, order) == []
  {
    if |s.ranges| > 0 {
      CellsLength(s, order);
      forall d | 0 <= d < |s.ranges|
        ensures DimSizes(s)[d] > 0
      {
        assert forall j :: 0 <= j < |s.ranges[d]| ==> InDomain(s.domain.dims[d], s.ranges[d][j]);
        SumSizesAtLeast(s.ranges[d]);
      }
      ProdPositive(DimSizes(s));
    }
  }

  /** A dimension left at its default covers its whole domain. */
  lemma DefaultDimCoversDomain(s: Subarray, d: nat)
    requires Wf(s) && Populated(s) && d < |s.ranges|
    requires IsDefault(s, d)
    ensures DimCells(s, d) == Interval(s.domain.dims[d].lo, s.domain.dims[d].hi)
  {
    var dim := s.domain.dims[d];
    assert s.ranges[d] == [FullRange(dim)];
    assert s.ranges[d][1..] == [];
    assert RangeCells(s.ranges[d]) == Interval(dim.lo, dim.hi) + RangeCells([]);
  }

  /** The cells of a fresh subarray are exactly the points of the array domain. */
  lemma NewCellsAreDomain(domain: ArrayDomain, layout: Layout, order: Order, x: seq<int>)
    requires ValidDomain(domain)
    ensures x in Cells(New(domain, layout), order) <==>
              |x| == |domain.dims| && forall d :: 0 <= d < |domain.dims| ==> domain.dims[d].lo <= x[d] <= domain.dims[d].hi
  {
    var s := New(domain, layout);
    var n := |domain.dims|;
    CrossProductMember(CellLists(s), order, x);
    if |x| == n {
      forall d | 0 <= d < n
        ensures x[d] in CellLists(s)[d] <==> domain.dims[d].lo <= x[d] <= domain.dims[d].hi
      {
        RangeCellsMember(s.ranges[d], x[d]);
      }
    }
  }

  /** Every non-empty range has at least one cell. */
  lemma {:induction false} SumSizesAtLeast(rs: seq<Range>)
    requires forall j :: 0 <= j < |rs| ==> rs[j].start <= rs[j].end
    ensures SumSizes(rs) >= |rs|
  {
    if |rs| > 0 {
      SumSizesAtLeast(rs[1..]);
    }
  }

  lemma SumSizesOne(rs: seq<Range>)
    requires forall j :: 0 <= j < |rs| ==> rs[j].start <= rs[j].end
    requires SumSizes(rs) == 1
    ensures |rs| == 1 && IsUnaryRange(rs[0])
  {
    SumSizesAtLeast(rs);
    assert |rs| == 1;
    assert rs[1..] == [];
  }

  /** A valid subarray is unary exactly when its logical domain is a single cell. */
  lemma UnaryIffSingleCell(s: Subarray, order: Order)
    requires Valid(s)
    ensures IsUnary(s) <==> |Cells(s, order)| == 1
  {
    var n := |s.ranges|;
    var sizes := DimSizes(s);
    CellsLength(s, order);
    ProdOne(sizes);
    ProdOne(Lengths(s.ranges));
    if IsUnary(s) {
      RangeNumOne(s);
      forall d | 0 <= d < n
        ensures sizes[d] == 1
      {
        var r := s.ranges[d][0];
        assert s.ranges[d] == [r];
        assert IsUnaryRange(r);
        assert s.ranges[d][1..] == [];
        assert SumSizes(s.ranges[d]) == Size(r) + SumSizes([]);
      }
    }
    if |Cells(s, order)| == 1 {
      forall d | 0 <= d < n
        ensures |s.ranges[d]| == 1 && IsUnaryRange(s.ranges[d][0])
      {
        assert sizes[d] == 1;
        assert forall j :: 0 <= j < |s.ranges[d]| ==> InDomain(s.domain.dims[d], s.ranges[d][j]);
        SumSizesOne(s.ranges[d]);
      }
      assert RangeNum(s) == 1;
      forall d, j | 0 <= d < n && 0 <= j < |s.ranges[d]|
        ensures IsUnaryRange(s.ranges[d][j])
      {
        assert j == 0;
      }
    }
  }
}
