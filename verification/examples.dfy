/**
 * Worked instances: the two subarrays of the class's documentation over
 * the 3x3 array holding 1..9 in row-major order, and the single slice
 * read by the sparse quickstart over a 4x4 array with one 4x4 tile.
 */
module SubarrayExamples {
  import opened Types
  import opened MixedRadix
  import opened Product
  import opened Subarrays
  import opened SubarrayCells
  import opened SubarrayTiles

  /** A sequence of `AddRange` calls, stopping at the first error. */
  function AddAll(s: Subarray, calls: seq<(nat, Range)>): (res: Result<Subarray>)
    requires Populated(s)
    ensures res.Ok? ==> Populated(res.value) && res.value.domain == s.domain && res.value.layout == s.layout
    ensures res.Ok? && Valid(s) ==> Valid(res.value)
    decreases |calls|
  {
    if |calls| == 0 then Ok(s)
    else
      var step := AddRange(s, calls[0].0, calls[0].1);
      if step.Err? then step else AddAll(step.value, calls[1..])
  }

  /** The 3x3 array with domain [1,3] x [1,3], one tile, row-major. */
  function Grid3(): ArrayDomain {
    ArrayDomain([Dimension(1, 3, 3), Dimension(1, 3, 3)], RowMajor, RowMajor)
  }

  /** The value stored in cell `(row, col)` of the 3x3 array: 1..9 row by row. */
  function Value(x: seq<int>): int
    requires |x| == 2
  {
    (x[0] - 1) * 3 + x[1]
  }

  function Values(cells: seq<seq<int>>): (vs: seq<int>)
    requires forall k :: 0 <= k < |cells| ==> |cells[k]| == 2
    ensures |vs| == |cells|
  {
    seq(|cells|, k requires 0 <= k < |cells| => Value(cells[k]))
  }

  lemma NewGrid(domain: ArrayDomain)
    requires ValidDomain(domain) && |domain.dims| == 2
    ensures New(domain, RowMajor).ranges == [[FullRange(domain.dims[0])], [FullRange(domain.dims[1])]]
    ensures New(domain, RowMajor).isDefault == [true, true]
  {
  }

  /** Unfolds `AddAll` over a call list with at least one call. */
  lemma AddAllStep(s: Subarray, calls: seq<(nat, Range)>)
    requires Populated(s) && |calls| > 0
    requires AddRange(s, calls[0].0, calls[0].1).Ok?
    ensures AddAll(s, calls) == AddAll(AddRange(s, calls[0].0, calls[0].1).value, calls[1..])
  {
  }

  /* ---------------- evaluating small cross products ---------------- */

  lemma Flatten2<T>(a: seq<T>, b: seq<T>)
    ensures Flatten([a, b]) == a + b
  {
    assert [a, b][1..] == [b];
    assert [b][1..] == [];
    assert Flatten([b]) == b + Flatten<T>([]);
  }

  lemma Flatten3<T>(a: seq<T>, b: seq<T>, c: seq<T>)
    ensures Flatten([a, b, c]) == a + b + c
  {
    assert [a, b, c][1..] == [b, c];
    Flatten2(b, c);
  }

  function Singletons<T>(ys: seq<T>): seq<seq<T>> {
    seq(|ys|, k requires 0 <= k < |ys| => [ys[k]])
  }

  /** The pairs of `x` with each entry of `ys`, in order. */
  function Pairs<T>(x: T, ys: seq<T>): seq<seq<T>> {
    seq(|ys|, k requires 0 <= k < |ys| => [x, ys[k]])
  }

  lemma PrependPairs<T>(x: T, ys: seq<T>)
    ensures PrependEach(x, Singletons(ys)) == Pairs(x, ys)
  {
    forall k | 0 <= k < |ys|
      ensures PrependEach(x, Singletons(ys))[k] == [x, ys[k]]
    {
      assert [x] + [ys[k]] == [x, ys[k]];
    }
  }

  lemma {:induction false} FlattenSingletons<T>(ys: seq<T>)
    ensures Flatten(seq(|ys|, j requires 0 <= j < |ys| => PrependEach(ys[j], [[]]))) == Singletons(ys)
  {
    if |ys| > 0 {
      FlattenSingletons(ys[1..]);
      var parts := seq(|ys|, j requires 0 <= j < |ys| => PrependEach(ys[j], [[]]));
      assert parts[1..] == seq(|ys| - 1, j requires 0 <= j < |ys| - 1 => PrependEach(ys[1..][j], [[]]));
      assert parts[0] == [[ys[0]]] by { assert [ys[0]] + [] == [ys[0]]; }
    }
  }

  /** The row-major product of a single list is the list of its entries as 1-tuples. */
  lemma RowProductSingle<T>(ys: seq<T>)
    ensures RowProduct([ys]) == Singletons(ys)
  {
    assert [ys][1..] == [];
    assert RowProduct<T>([]) == [[]];
    FlattenSingletons(ys);
  }

  /** The row-major product of the single row `x` with the columns `ys`. */
  lemma RowProduct1<T>(x: T, ys: seq<T>)
    ensures RowProduct([[x], ys]) == Pairs(x, ys)
  {
    assert [[x], ys][1..] == [ys];
    RowProductSingle(ys);
    var r := Singletons(ys);
    var parts := seq(1, j requires 0 <= j < 1 => PrependEach([x][j], r));
    assert parts == [PrependEach(x, r)];
    assert parts[1..] == [];
    assert Flatten(parts) == PrependEach(x, r) + Flatten<seq<T>>([]);
    PrependPairs(x, ys);
  }

  /** The row-major product of two rows `xs` with the columns `ys`. */
  lemma RowProduct2<T>(xs: seq<T>, ys: seq<T>)
    requires |xs| == 2
    ensures RowProduct([xs, ys]) == Pairs(xs[0], ys) + Pairs(xs[1], ys)
  {
    assert [xs, ys][1..] == [ys];
    RowProductSingle(ys);
    var r := Singletons(ys);
    var parts := seq(2, j requires 0 <= j < 2 => PrependEach(xs[j], r));
    assert parts == [PrependEach(xs[0], r), PrependEach(xs[1], r)];
    Flatten2(PrependEach(xs[0], r), PrependEach(xs[1], r));
    PrependPairs(xs[0], ys);
    PrependPairs(xs[1], ys);
  }

  /** The row-major product of three rows `xs` with the columns `ys`. */
  lemma RowProduct3<T>(xs: seq<T>, ys: seq<T>)
    requires |xs| == 3
    ensures RowProduct([xs, ys]) == Pairs(xs[0], ys) + Pairs(xs[1], ys) + Pairs(xs[2], ys)
  {
    assert [xs, ys][1..] == [ys];
    RowProductSingle(ys);
    var r := Singletons(ys);
    var parts := seq(3, j requires 0 <= j < 3 => PrependEach(xs[j], r));
    assert parts == [PrependEach(xs[0], r), PrependEach(xs[1], r), PrependEach(xs[2], r)];
    Flatten3(PrependEach(xs[0], r), PrependEach(xs[1], r), PrependEach(xs[2], r));
    PrependPairs(xs[0], ys);
    PrependPairs(xs[1], ys);
    PrependPairs(xs[2], ys);
  }

  /** The subarray of the documentation: rows ([2,3], [1,1]), cols ([1,2]). */
  function DocSubarray(): Subarray {
    Subarray(Grid3(), RowMajor, [[Range(2, 3), Range(1, 1)], [Range(1, 2)]], [false, false])
  }

  /** The same rows with the overlapping cols ([1,2], [2,3]). */
  function DocSubarrayOverlap(): Subarray {
    Subarray(Grid3(), RowMajor, [[Range(2, 3), Range(1, 1)], [Range(1, 2), Range(2, 3)]], [false, false])
  }

  /** The documentation's subarray is what three `AddRange` calls on a fresh subarray produce. */
  lemma DocSubarrayBuilt()
    ensures AddAll(New(Grid3(), RowMajor), [(0, Range(2, 3)), (0, Range(1, 1)), (1, Range(1, 2))]) == Ok(DocSubarray())
    ensures AddAll(New(Grid3(), RowMajor), [(0, Range(2, 3)), (0, Range(1, 1)), (1, Range(1, 2)), (1, Range(2, 3))]) ==
              Ok(DocSubarrayOverlap())
  {
    var calls := [(0, Range(2, 3)), (0, Range(1, 1)), (1, Range(1, 2)), (1, Range(2, 3))];
    var s0 := New(Grid3(), RowMajor);
    NewGrid(Grid3());
    assert Grid3().dims[0] == Grid3().dims[1] == Dimension(1, 3, 3);
    var s1 := AddRangeUnsafe(s0, 0, Range(2, 3));
    assert s1.ranges[0] == [Range(2, 3)] && s1.ranges[1] == [Range(1, 3)] && |s1.ranges| == 2;
    var s2 := AddRangeUnsafe(s1, 0, Range(1, 1));
    assert s2.ranges[0] == [Range(2, 3), Range(1, 1)] && s2.ranges[1] == [Range(1, 3)] && |s2.ranges| == 2;
    var s3 := AddRangeUnsafe(s2, 1, Range(1, 2));
    assert s3.ranges[0] == [Range(2, 3), Range(1, 1)] && s3.ranges[1] == [Range(1, 2)] && |s3.ranges| == 2;
    assert s3 == DocSubarray();
    var s4 := AddRangeUnsafe(s3, 1, Range(2, 3));
    assert s4.ranges[0] == [Range(2, 3), Range(1, 1)] && s4.ranges[1] == [Range(1, 2), Range(2, 3)] && |s4.ranges| == 2;
    assert s4 == DocSubarrayOverlap();
    AddAllStep(s0, calls);
    AddAllStep(s1, calls[1..]);
    AddAllStep(s2, calls[2..]);
    AddAllStep(s3, calls[3..]);
    assert calls[4..] == [];
    var calls3 := [(0, Range(2, 3)), (0, Range(1, 1)), (1, Range(1, 2))];
    AddAllStep(s0, calls3);
    AddAllStep(s1, calls3[1..]);
    AddAllStep(s2, calls3[2..]);
    assert calls3[3..] == [];
  }

  lemma Pairs2(x: int, a: int, b: int)
    ensures Pairs(x, [a, b]) == [[x, a], [x, b]]
  {
  }

  lemma Pairs4(x: int, a: int, b: int, c: int, d: int)
    ensures Pairs(x, [a, b, c, d]) == [[x, a], [x, b], [x, c], [x, d]]
  {
  }

  /** The documentation's subarray has two ND ranges, listed row-major. */
  lemma DocRanges()
    ensures RangeNum(DocSubarray()) == 2
    ensures NDRanges(DocSubarray()) == [[Range(2, 3), Range(1, 2)], [Range(1, 1), Range(1, 2)]]
  {
    var s := DocSubarray();
    assert Lengths(s.ranges) == [2, 1];
    NDRangesAreProduct(s);
    assert [s.ranges[0], s.ranges[1]] == s.ranges;
    RowProduct2(s.ranges[0], s.ranges[1]);
  }

  lemma DocCellLists()
    ensures CellLists(DocSubarray()) == [[2, 3, 1], [1, 2]]
    ensures CellLists(DocSubarrayOverlap()) == [[2, 3, 1], [1, 2, 2, 3]]
  {
    assert RangeCells([Range(2, 3), Range(1, 1)]) == [2, 3, 1];
    assert RangeCells([Range(1, 2)]) == [1, 2];
    assert RangeCells([Range(1, 2), Range(2, 3)]) == [1, 2, 2, 3];
  }

  /** Rows ([2,3], [1,1]), cols ([1,2]) select the 3x2 array 4 5 / 7 8 / 1 2. */
  lemma DocExample()
    ensures Cells(DocSubarray(), RowMajor) == [[2, 1], [2, 2], [3, 1], [3, 2], [1, 1], [1, 2]]
  {
    DocCellLists();
    RowProduct3([2, 3, 1], [1, 2]);
    Pairs2(2, 1, 2);
    Pairs2(3, 1, 2);
    Pairs2(1, 1, 2);
    assert Cells(DocSubarray(), RowMajor) == Pairs(2, [1, 2]) + Pairs(3, [1, 2]) + Pairs(1, [1, 2]);
  }

  /** Overlapping ranges repeat cells: cols ([1,2], [2,3]) give 4 5 5 6 / 7 8 8 9 / 1 2 2 3. */
  lemma DocExampleOverlap()
    ensures RangeNum(DocSubarrayOverlap()) == 4
    ensures Cells(DocSubarrayOverlap(), RowMajor) ==
              [[2, 1], [2, 2], [2, 2], [2, 3], [3, 1], [3, 2], [3, 2], [3, 3], [1, 1], [1, 2], [1, 2], [1, 3]]
  {
    assert Lengths(DocSubarrayOverlap().ranges) == [2, 2];
    DocCellLists();
    var cells := CrossProduct([[2, 3, 1], [1, 2, 2, 3]], RowMajor);
    assert cells == Pairs(2, [1, 2, 2, 3]) + Pairs(3, [1, 2, 2, 3]) + Pairs(1, [1, 2, 2, 3]) by {
      RowProduct3([2, 3, 1], [1, 2, 2, 3]);
    }
    Pairs4(2, 1, 2, 2, 3);
    Pairs4(3, 1, 2, 2, 3);
    Pairs4(1, 1, 2, 2, 3);
    assert Cells(DocSubarrayOverlap(), RowMajor) == cells;
  }

  /** The overlapping example is valid, and ids 1 and 2 have range indices (0, 1) and (1, 0). */
  lemma DocOverlapCoords()
    ensures Valid(DocSubarrayOverlap()) && RangeNum(DocSubarrayOverlap()) == 4
    ensures RangeCoords(DocSubarrayOverlap(), 1) == [0, 1] && RangeCoords(DocSubarrayOverlap(), 2) == [1, 0]
  {
    var s := DocSubarrayOverlap();
    assert Lengths(s.ranges) == [2, 2];
    assert [2, 2][1..] == [2] && Prod([2]) == 2;
    assert DecodeRow([2, 2], 1) == [0, 1] && DecodeRow([2, 2], 2) == [1, 0];
  }

  /**
   * Ids 1 and 2 of the overlapping example span no box of range indices.
   * The cols dimension of their sub-subarray receives no range and keeps
   * its full-domain default, so the result holds cell (2, 1), which
   * neither ND range 1 nor ND range 2 contains.
   */
  lemma DocSubarrayNoBox()
    ensures Valid(DocSubarrayOverlap()) && RangeNum(DocSubarrayOverlap()) == 4
    ensures GetSubarray(DocSubarrayOverlap(), 1, 2).ranges == [[Range(2, 3), Range(1, 1)], [Range(1, 3)]]
    ensures GetSubarray(DocSubarrayOverlap(), 1, 2).isDefault == [false, true]
    ensures !InNDRange(NDRange(DocSubarrayOverlap(), 1), [2, 1]) && !InNDRange(NDRange(DocSubarrayOverlap(), 2), [2, 1])
    ensures RangeNum(GetSubarray(DocSubarrayOverlap(), 1, 2)) == 2
    ensures InNDRange(NDRange(GetSubarray(DocSubarrayOverlap(), 1, 2), 0), [2, 1])
  {
    var s := DocSubarrayOverlap();
    DocOverlapCoords();
    var t := GetSubarray(s, 1, 2);
    assert t.ranges[0] == [Range(2, 3), Range(1, 1)] by {
      assert Slice(s.ranges[0], 0, 1) == [Range(2, 3), Range(1, 1)];
    }
    assert t.ranges[1] == [Range(1, 3)];
    assert t.ranges == [[Range(2, 3), Range(1, 1)], [Range(1, 3)]];
    assert NDRange(s, 1) == [Range(2, 3), Range(2, 3)];
    assert NDRange(s, 2) == [Range(1, 1), Range(1, 2)];
    assert Lengths(t.ranges) == [2, 1];
    assert RangeCoords(t, 0) == [0, 0] by {
      assert [2, 1][1..] == [1] && Prod([1]) == 1;
      assert DecodeRow([2, 1], 0) == [0, 0];
    }
  }

  /**
   * Ids 1 and 3 of the overlapping example have range indices (0, 1) and
   * (1, 1), so they span a box; yet the box holds two ND ranges, not the
   * three ids 1 to 3. ND range 2 is left out: its cell (1, 1) lies in
   * neither ND range of the sub-subarray.
   */
  lemma DocSubarrayNarrow()
    ensures Valid(DocSubarrayOverlap()) && RangeNum(DocSubarrayOverlap()) == 4
    ensures RangeCoords(DocSubarrayOverlap(), 1) == [0, 1] && RangeCoords(DocSubarrayOverlap(), 3) == [1, 1]
    ensures GetSubarray(DocSubarrayOverlap(), 1, 3).ranges == [[Range(2, 3), Range(1, 1)], [Range(2, 3)]]
    ensures RangeNum(GetSubarray(DocSubarrayOverlap(), 1, 3)) == 2
    ensures InNDRange(NDRange(DocSubarrayOverlap(), 2), [1, 1])
    ensures forall i :: 0 <= i < RangeNum(GetSubarray(DocSubarrayOverlap(), 1, 3)) ==>
              !InNDRange(NDRange(GetSubarray(DocSubarrayOverlap(), 1, 3), i), [1, 1])
  {
    var s := DocSubarrayOverlap();
    DocOverlapCoords();
    assert RangeCoords(s, 3) == [1, 1] by {
      assert Lengths(s.ranges) == [2, 2];
      assert [2, 2][1..] == [2] && Prod([2]) == 2;
      assert DecodeRow([2, 2], 3) == [1, 1];
    }
    var t := GetSubarray(s, 1, 3);
    assert t.ranges[0] == [Range(2, 3), Range(1, 1)] by {
      assert Slice(s.ranges[0], 0, 1) == [Range(2, 3), Range(1, 1)];
    }
    assert t.ranges[1] == [Range(2, 3)] by {
      assert Slice(s.ranges[1], 1, 1) == [Range(2, 3)];
    }
    assert t.ranges == [[Range(2, 3), Range(1, 1)], [Range(2, 3)]];
    assert Lengths(t.ranges) == [2, 1];
    assert NDRange(s, 2) == [Range(1, 1), Range(1, 2)];
    forall i | 0 <= i < RangeNum(t)
      ensures !InNDRange(NDRange(t, i), [1, 1])
    {
      assert NDRange(t, i)[1] in t.ranges[1];
    }
  }

  /** Read through the 3x3 array, the two examples' cells hold the values shown in the documentation. */
  lemma DocValues()
    ensures Values([[2, 1], [2, 2], [3, 1], [3, 2], [1, 1], [1, 2]]) == [4, 5, 7, 8, 1, 2]
    ensures Values([[2, 1], [2, 2], [2, 2], [2, 3], [3, 1], [3, 2], [3, 2], [3, 3], [1, 1], [1, 2], [1, 2], [1, 3]]) ==
              [4, 5, 5, 6, 7, 8, 8, 9, 1, 2, 2, 3]
  {
  }

  /** The 4x4 array of the sparse quickstart: domain [1,4] x [1,4], one 4x4 tile, row-major. */
  function Grid4(): ArrayDomain {
    ArrayDomain([Dimension(1, 4, 4), Dimension(1, 4, 4)], RowMajor, RowMajor)
  }

  /** The quickstart slice: rows [1,2], cols [2,4]. */
  function QuickstartSubarray(): Subarray {
    Subarray(Grid4(), RowMajor, [[Range(1, 2)], [Range(2, 4)]], [false, false])
  }

  lemma QuickstartBuilt()
    ensures AddAll(New(Grid4(), RowMajor), [(0, Range(1, 2)), (1, Range(2, 4))]) == Ok(QuickstartSubarray())
  {
    var calls := [(0, Range(1, 2)), (1, Range(2, 4))];
    var s0 := New(Grid4(), RowMajor);
    NewGrid(Grid4());
    assert Grid4().dims[0] == Grid4().dims[1] == Dimension(1, 4, 4);
    var s1 := AddRangeUnsafe(s0, 0, Range(1, 2));
    assert s1.ranges[0] == [Range(1, 2)] && s1.ranges[1] == [Range(1, 4)] && |s1.ranges| == 2;
    var s2 := AddRangeUnsafe(s1, 1, Range(2, 4));
    assert s2.ranges[0] == [Range(1, 2)] && s2.ranges[1] == [Range(2, 4)] && |s2.ranges| == 2;
    assert s2 == QuickstartSubarray();
    AddAllStep(s0, calls);
    AddAllStep(s1, calls[1..]);
    assert calls[2..] == [];
  }

  /** On a dimension with a single tile, any range in the domain touches exactly tile 0. */
  lemma OneTile(dim: Dimension, r: Range)
    requires ValidDimension(dim) && TileNum(dim) == 1 && InDomain(dim, r)
    ensures TouchedFrom(dim, [r], 0, 1) == [0]
  {
    TileIdxInGrid(dim, r.start);
    TileIdxInGrid(dim, r.end);
    assert SpansTile(dim, [r][0], 0);
    assert TouchedFrom(dim, [r], 1, 1) == [];
  }

  /**
   * The quickstart slice is one ND range, though not a single cell, and it
   * flattens to the very buffer the quickstart passes for it.
   */
  lemma QuickstartSlice()
    ensures RangeNum(QuickstartSubarray()) == 1
    ensures !IsUnary(QuickstartSubarray())
    ensures ToByteVec(QuickstartSubarray()) == Ok([1, 2, 2, 4])
  {
    var s := QuickstartSubarray();
    assert Lengths(s.ranges) == [1, 1];
    assert !IsUnaryRange(s.ranges[0][0]);
    var v := ToByteVec(s).value;
    assert v[0] == 1 && v[1] == 2 && v[2] == 2 && v[3] == 4;
    assert v == [1, 2, 2, 4];
  }

  /** The quickstart slice does not line up with its tile: its columns end inside it. */
  lemma QuickstartNotAligned()
    ensures !CoincidesWithTiles(QuickstartSubarray())
  {
    var s := QuickstartSubarray();
    assert s.domain.dims[1] == Dimension(1, 4, 4);
    assert !Aligned(s.domain.dims[1], s.ranges[1][0]);
  }

  /** The quickstart slice is a valid subarray of the 4x4 array. */
  lemma QuickstartValid()
    ensures Valid(QuickstartSubarray())
  {
    var dim := Dimension(1, 4, 4);
    assert InDomain(dim, Range(1, 2)) && InDomain(dim, Range(2, 4));
  }

  /** Each dimension of the quickstart slice touches tile 0 only. */
  lemma QuickstartTileLists()
    ensures Valid(QuickstartSubarray())
    ensures TileLists(QuickstartSubarray()) == [[0], [0]]
  {
    var s := QuickstartSubarray();
    var dim := Dimension(1, 4, 4);
    QuickstartValid();
    assert s.domain.dims[0] == s.domain.dims[1] == dim;
    assert TileNum(dim) == 1;
    assert TouchedTiles(s, 0) == [0] by {
      OneTile(dim, Range(1, 2));
    }
    assert TouchedTiles(s, 1) == [0] by {
      OneTile(dim, Range(2, 4));
    }
  }

  /** The quickstart slice lies in tile (0,0) only. */
  lemma QuickstartTiles()
    ensures ComputeTileCoords(QuickstartSubarray()) == [[0, 0]]
  {
    QuickstartTileLists();
    RowProduct1(0, [0]);
  }

  /** Adding a range outside the domain or with reversed bounds is refused. */
  lemma RejectedRanges()
    ensures AddAll(New(Grid4(), RowMajor), [(0, Range(0, 2))]) == Err(RangeOutOfDomain)
    ensures AddAll(New(Grid4(), RowMajor), [(1, Range(3, 2))]) == Err(RangeBoundsReversed)
    ensures AddAll(New(Grid4(), RowMajor), [(2, Range(1, 1))]) == Err(InvalidDimIdx)
  {
  }
}
