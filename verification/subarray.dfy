/**
 * The multi-range subarray: an ordered list of 1D ranges per dimension
 * of an array domain, plus a flag per dimension telling whether that
 * dimension still holds its default full-domain range.
 *
 * The multi-dimensional (ND) ranges of a subarray are all combinations
 * of one 1D range per dimension. They are numbered by a flattened id in
 * the subarray's layout; an unordered layout numbers them in the array's
 * cell order.
 */
module Subarrays {
  import opened Types
  import opened Arith
  import opened MixedRadix
  import opened Product

  datatype Subarray = Subarray(
    domain: ArrayDomain,
    layout: Layout,
    ranges: seq<seq<Range>>,
    isDefault: seq<bool>)

  /**
   * The shape kept between calls: either no ranges at all (after `Clear`)
   * or a non-empty list of ranges per dimension, and a default dimension
   * holds exactly its full-domain range.
   */
  predicate Wf(s: Subarray) {
    && ValidDomain(s.domain)
    && |s.isDefault| == |s.ranges|
    && (|s.ranges| == 0 || |s.ranges| == |s.domain.dims|)
    && forall d :: 0 <= d < |s.ranges| ==>
         && |s.ranges[d]| > 0
         && (s.isDefault[d] ==> s.ranges[d] == [FullRange(s.domain.dims[d])])
  }

  /** Every dimension has its list of ranges (the subarray was not cleared). */
  predicate Populated(s: Subarray) {
    |s.ranges| == |s.isDefault| == |s.domain.dims|
  }

  /** Every stored range passes the checks of `AddRange`. */
  predicate RangesInDomain(s: Subarray)
    requires Populated(s)
  {
    forall d, j :: 0 <= d < |s.ranges| && 0 <= j < |s.ranges[d]| ==> InDomain(s.domain.dims[d], s.ranges[d][j])
  }

  /** The well-formed, populated subarrays whose ranges all lie in the domain. */
  predicate Valid(s: Subarray) {
    Wf(s) && Populated(s) && RangesInDomain(s)
  }

  /** The number of dimensions: that of the array domain, which every per-dimension list follows. */
  function DimNum(s: Subarray): (n: nat)
    ensures Populated(s) ==> n == |s.ranges| && n == |s.isDefault|
    ensures Wf(s) && |s.ranges| > 0 ==> n == |s.ranges|
  {
    |s.domain.dims|
  }

  /* ---------------- construction ---------------- */

  /** A fresh subarray: one default range covering the whole domain on every dimension. */
  function New(domain: ArrayDomain, layout: Layout): (s: Subarray)
    requires ValidDomain(domain)
    ensures Valid(s)
    ensures DimNum(s) == |domain.dims| && s.domain == domain && s.layout == layout
    ensures forall d :: 0 <= d < DimNum(s) ==> IsDefault(s, d)
  {
    var n := |domain.dims|;
    Subarray(
      domain, layout,
      seq(n, d requires 0 <= d < n => [FullRange(domain.dims[d])]),
      seq(n, d requires 0 <= d < n => true))
  }

  /**
   * Appends `r` to dimension `d` without any check. The first range added
   * to a default dimension replaces the default range.
   */
  function AddRangeUnsafe(s: Subarray, d: nat, r: Range): (t: Subarray)
    requires d < |s.ranges| && d < |s.isDefault|
    ensures t.domain == s.domain && t.layout == s.layout
    ensures |t.ranges| == |s.ranges| && |t.isDefault| == |s.isDefault|
    ensures forall e :: 0 <= e < |s.ranges| && e != d ==> t.ranges[e] == s.ranges[e]
    ensures forall e :: 0 <= e < |s.isDefault| && e != d ==> t.isDefault[e] == s.isDefault[e]
    ensures !IsDefault(t, d) && |t.ranges[d]| > 0
    ensures t.ranges[d][|t.ranges[d]| - 1] == r
    ensures Wf(s) ==> Wf(t)
    ensures Populated(s) ==> Populated(t)
    ensures Populated(s) && RangesInDomain(s) && InDomain(s.domain.dims[d], r) ==> RangesInDomain(t)
  {
    var kept := if s.isDefault[d] then [] else s.ranges[d];
    s.(ranges := s.ranges[d := kept + [r]], isDefault := s.isDefault[d := false])
  }

  /** Adds a range on dimension `d`, reporting an invalid dimension or range as an error. */
  function AddRange(s: Subarray, d: nat, r: Range): (res: Result<Subarray>)
    requires Populated(s)
    ensures res.Ok? <==> d < DimNum(s) && InDomain(s.domain.dims[d], r)
    ensures d >= DimNum(s) ==> res == Err(InvalidDimIdx)
    ensures d < DimNum(s) && r.start > r.end ==> res == Err(RangeBoundsReversed)
    ensures d < DimNum(s) && r.start <= r.end && !InDomain(s.domain.dims[d], r) ==> res == Err(RangeOutOfDomain)
    ensures res.Ok? ==> res.value == AddRangeUnsafe(s, d, r)
    ensures res.Ok? && Valid(s) ==> Valid(res.value)
  {
    if d >= DimNum(s) then Err(InvalidDimIdx)
    else if r.start > r.end then Err(RangeBoundsReversed)
    else if !InDomain(s.domain.dims[d], r) then Err(RangeOutOfDomain)
    else Ok(AddRangeUnsafe(s, d, r))
  }

  /** Removes every range; the subarray keeps its domain and layout. */
  function Clear(s: Subarray): (t: Subarray)
    ensures Empty(t) && !IsSet(t)
    ensures DimNum(t) == DimNum(s) && t.domain == s.domain && t.layout == s.layout
    ensures Wf(s) ==> Wf(t)
  {
    s.(ranges := [], isDefault := [])
  }

  /* ---------------- predicates ---------------- */

  /** Whether dimension `d` still holds its default full-domain range. */
  predicate IsDefault(s: Subarray, d: nat)
    requires d < |s.isDefault|
    ensures Wf(s) && IsDefault(s, d) ==> d < |s.ranges| && s.ranges[d] == [FullRange(s.domain.dims[d])]
  {
    s.isDefault[d]
  }

  /** Whether the user has set ranges on dimension `d`. */
  predicate IsSetDim(s: Subarray, d: nat)
    requires d < |s.isDefault|
    ensures IsSetDim(s, d) <==> !IsDefault(s, d)
    ensures Wf(s) && !IsSetDim(s, d) ==> d < |s.ranges| && s.ranges[d] == [FullRange(s.domain.dims[d])]
  {
    !s.isDefault[d]
  }

  /** Whether some flag in `flags` is false. */
  function SomeUnset(flags: seq<bool>): (b: bool)
    ensures b <==> exists d :: 0 <= d < |flags| && !flags[d]
  {
    if |flags| == 0 then false
    else if !flags[0] then true
    else
      var b := SomeUnset(flags[1..]);
      assert forall d :: 1 <= d < |flags| ==> flags[d] == flags[1..][d - 1];
      b
  }

  /** Whether at least one dimension has non-default ranges. */
  function IsSet(s: Subarray): (b: bool)
    ensures b <==> exists d :: 0 <= d < |s.isDefault| && IsSetDim(s, d)
  {
    var b := SomeUnset(s.isDefault);
    assert forall d :: 0 <= d < |s.isDefault| ==> (IsSetDim(s, d) <==> !s.isDefault[d]);
    b
  }

  /** The number of ND ranges: the product of the per-dimension range counts. */
  function RangeNum(s: Subarray): (n: nat)
    ensures n == 0 <==> |s.ranges| == 0 || exists d :: 0 <= d < |s.ranges| && |s.ranges[d]| == 0
  {
    if |s.ranges| == 0 then 0
    else
      var n := Prod(Lengths(s.ranges));
      ProdPositive(Lengths(s.ranges));
      n
  }

  /** No ND range: no dimension list at all, or some dimension without ranges. */
  predicate Empty(s: Subarray)
    ensures Wf(s) ==> (Empty(s) <==> |s.ranges| == 0)
  {
    RangeNum(s) == 0
  }

  /** No dimension stores any range. */
  predicate NoRangeStored(s: Subarray) {
    forall d :: 0 <= d < |s.ranges| ==> |s.ranges[d]| == 0
  }

  /* ---------------- flattened range ids ---------------- */

  /** The order ND ranges are numbered in: the layout, or the cell order when unordered. */
  function RangeLayout(s: Subarray): Order {
    if s.layout == Unordered then s.domain.cellOrder else s.layout
  }

  function RangeOffsets(s: Subarray): seq<nat> {
    Offsets(Lengths(s.ranges), RangeLayout(s))
  }

  /** The flattened id of the ND range with the given per-dimension range indices. */
  function RangeIdx(s: Subarray, c: seq<nat>): (i: nat)
    requires |c| == |s.ranges|
    ensures |s.ranges| > 0 && InBounds(Lengths(s.ranges), c) ==> i < RangeNum(s)
  {
    var i := Dot(RangeOffsets(s), c);
    assert InBounds(Lengths(s.ranges), c) ==> i < Prod(Lengths(s.ranges)) by {
      if InBounds(Lengths(s.ranges), c) {
        EncodeCorrect(Lengths(s.ranges), RangeLayout(s), c);
      }
    }
    i
  }

  /** The per-dimension range indices of the ND range with flattened id `i`. */
  function RangeCoords(s: Subarray, i: nat): (c: seq<nat>)
    requires i < RangeNum(s)
    ensures InBounds(Lengths(s.ranges), c)
  {
    var c := Decode(Lengths(s.ranges), RangeLayout(s), i);
    DecodeCorrect(Lengths(s.ranges), RangeLayout(s), i);
    c
  }

  /** The ND range with flattened id `i`: one 1D range per dimension. */
  function NDRange(s: Subarray, i: nat): (nd: seq<Range>)
    requires i < RangeNum(s)
    ensures |nd| == |s.ranges|
    ensures forall d :: 0 <= d < |nd| ==> nd[d] in s.ranges[d]
  {
    Pick(s.ranges, RangeCoords(s, i))
  }

  /** All ND ranges, in flattened id order. */
  function NDRanges(s: Subarray): (nds: seq<seq<Range>>)
    ensures |nds| == RangeNum(s)
  {
    seq(RangeNum(s), i requires 0 <= i < RangeNum(s) => NDRange(s, i))
  }

  /** True if the ND range with id `i` is a single point. */
  function IsUnaryAt(s: Subarray, i: nat): (b: bool)
    requires i < RangeNum(s)
    ensures b <==> forall d :: 0 <= d < |s.ranges| ==> IsUnaryRange(NDRange(s, i)[d])
  {
    var c := RangeCoords(s, i);
    assert forall d :: 0 <= d < |s.ranges| ==> NDRange(s, i)[d] == s.ranges[d][c[d]];
    forall d :: 0 <= d < |s.ranges| ==> IsUnaryRange(s.ranges[d][c[d]])
  }

  /** True if the subarray is a single ND range whose 1D ranges are all single points. */
  function IsUnary(s: Subarray): (b: bool)
    ensures b <==>
              && RangeNum(s) == 1
              && forall d, j :: 0 <= d < |s.ranges| && 0 <= j < |s.ranges[d]| ==> IsUnaryRange(s.ranges[d][j])
  {
    if RangeNum(s) != 1 then false
    else
      RangeNumOne(s);
      forall d :: 0 <= d < |s.ranges| ==> IsUnaryRange(s.ranges[d][0])
  }

  /**
   * Flattens a subarray made of a single ND range into the start and end
   * of its range on every dimension; a subarray with several ND ranges
   * (or none) is reported as not unary.
   */
  function ToByteVec(s: Subarray): (res: Result<seq<int>>)
    ensures res.Ok? <==> RangeNum(s) == 1
    ensures res.Err? ==> res.error == NotUnary
    ensures res.Ok? ==> |res.value| == 2 * |s.ranges|
  {
    if RangeNum(s) != 1 then Err(NotUnary)
    else
      RangeNumOne(s);
      Ok(seq(2 * |s.ranges|, k requires 0 <= k < 2 * |s.ranges| =>
        var r := s.ranges[k / 2][0];
        if k % 2 == 0 then r.start else r.end))
  }

  /** Reads back the ranges written by `ToByteVec`, two values per dimension. */
  function FromByteVec(v: seq<int>): (nd: seq<Range>)
    ensures |nd| == |v| / 2
  {
    seq(|v| / 2, d requires 0 <= d < |v| / 2 => Range(v[2 * d], v[2 * d + 1]))
  }

  /* ---------------- sub-subarrays ---------------- */

  /** Ranges `lo..hi` (inclusive) of `rs`, or none when `lo > hi`. */
  function Slice(rs: seq<Range>, lo: nat, hi: nat): seq<Range>
    requires lo < |rs| && hi < |rs|
  {
    if lo <= hi then rs[lo..hi + 1] else []
  }

  /** Adds the ranges `rs` to dimension `d` one at a time, in order. */
  function AddRanges(s: Subarray, d: nat, rs: seq<Range>): (t: Subarray)
    requires d < |s.ranges| && d < |s.isDefault|
    ensures |t.ranges| == |s.ranges| && |t.isDefault| == |s.isDefault|
    decreases |rs|
  {
    if |rs| == 0 then s else AddRanges(AddRangeUnsafe(s, d, rs[0]), d, rs[1..])
  }

  /** The ranges of `rs` with indices `lo` to `hi`, or the full range of `dim` when there are none. */
  function CopiedRanges(dim: Dimension, rs: seq<Range>, lo: nat, hi: nat): seq<Range>
    requires lo < |rs| && hi < |rs|
  {
    var sl := Slice(rs, lo, hi);
    if |sl| == 0 then [FullRange(dim)] else sl
  }

  /**
   * The box of range indices spanned by the range coordinates of `start`
   * and `end`: a fresh subarray to which, on each dimension, the 1D ranges
   * between the two ids' range indices are added in order (see
   * `GetSubarrayByAdding`). A dimension on which the index of `start`
   * exceeds that of `end` receives none and keeps its default.
   */
  function GetSubarray(s: Subarray, start: nat, end: nat): (t: Subarray)
    requires Valid(s)
    requires start < RangeNum(s) && end < RangeNum(s)
    ensures Populated(t) && t.domain == s.domain && t.layout == s.layout
  {
    var lo, hi := RangeCoords(s, start), RangeCoords(s, end);
    var n := |s.ranges|;
    Subarray(
      s.domain, s.layout,
      seq(n, d requires 0 <= d < n => CopiedRanges(s.domain.dims[d], s.ranges[d], lo[d], hi[d])),
      seq(n, d requires 0 <= d < n => |Slice(s.ranges[d], lo[d], hi[d])| == 0))
  }

  /* ------ running-product and division loops of compute_range_offsets and get_range_coords ------ */

  /** Col-major offsets by a running product from the first dimension forwards. */
  method ComputeColOffsets(counts: seq<nat>) returns (off: seq<nat>)
    requires |counts| > 0
    ensures off == ColOffsets(counts)
  {
    var n := |counts|;
    off := [1];
    assert counts[..0] == [];
    var d := 1;
    while d < n
      invariant 1 <= d <= n
      invariant off == ColOffsets(counts)[..d]
    {
      ProdLast(counts[..d]);
      assert counts[..d][..d - 1] == counts[..d - 1];
      off := off + [off[d - 1] * counts[d - 1]];
      d := d + 1;
    }
  }

  /** Row-major offsets by a running product from the last dimension backwards. */
  method ComputeRowOffsets(counts: seq<nat>) returns (off: seq<nat>)
    requires |counts| > 0
    ensures off == RowOffsets(counts)
  {
    var n := |counts|;
    off := [1];
    assert counts[n..] == [];
    var d := n - 1;
    while d > 0
      invariant 0 <= d <= n - 1
      invariant off == RowOffsets(counts)[d..]
    {
      ghost var offs := RowOffsets(counts);
      assert counts[d..][1..] == counts[d + 1..];
      assert off[0] == offs[d] == Prod(counts[d + 1..]);
      assert offs[d - 1] == Prod(counts[d..]) == counts[d] * off[0];
      assert offs[d - 1..] == [offs[d - 1]] + offs[d..];
      off := [off[0] * counts[d]] + off;
      d := d - 1;
    }
  }

  /**
   * Computes the range offsets with a running product, as the class
   * caches them: from the last dimension backwards for row-major, from
   * the first forwards for col-major.
   */
  method ComputeRangeOffsets(s: Subarray) returns (off: seq<nat>)
    requires |s.ranges| > 0
    ensures off == RangeOffsets(s)
    ensures |off| == |s.ranges|
    ensures RangeLayout(s) == RowMajor ==> forall d :: 0 <= d < |off| ==> off[d] == Prod(Lengths(s.ranges)[d + 1..])
    ensures RangeLayout(s) == ColMajor ==> forall d :: 0 <= d < |off| ==> off[d] == Prod(Lengths(s.ranges)[..d])
  {
    if RangeLayout(s) == ColMajor {
      off := ComputeColOffsets(Lengths(s.ranges));
    } else {
      off := ComputeRowOffsets(Lengths(s.ranges));
    }
  }

  /** Peels off the row-major digits of `i`, first dimension first. */
  method DivideRow(counts: seq<nat>, off: seq<nat>, i: nat) returns (c: seq<nat>)
    requires off == RowOffsets(counts) && i < Prod(counts)
    ensures c == DecodeRow(counts, i)
  {
    var n := |counts|;
    var tmp: nat := i;
    c := [];
    var d := 0;
    while d < n
      invariant 0 <= d <= n
      invariant tmp < Prod(counts[d..])
      invariant c + DecodeRow(counts[d..], tmp) == DecodeRow(counts, i)
    {
      var rest := counts[d + 1..];
      assert counts[d..][1..] == rest;
      assert off[d] == Prod(rest);
      var q, r := QuotRem(tmp, off[d], counts[d]);
      assert DecodeRow(counts[d..], tmp) == [q] + DecodeRow(rest, r);
      assert c + ([q] + DecodeRow(rest, r)) == (c + [q]) + DecodeRow(rest, r);
      c := c + [tmp / off[d]];
      tmp := tmp % off[d];
      d := d + 1;
    }
  }

  /** Peels off the col-major digits of `i`, last dimension first. */
  method DivideCol(counts: seq<nat>, off: seq<nat>, i: nat) returns (c: seq<nat>)
    requires off == ColOffsets(counts) && i < Prod(counts)
    ensures c == DecodeCol(counts, i)
  {
    var n := |counts|;
    var tmp: nat := i;
    c := [];
    var d := n;
    assert counts[..n] == counts;
    while d > 0
      invariant 0 <= d <= n
      invariant tmp < Prod(counts[..d])
      invariant DecodeCol(counts[..d], tmp) + c == DecodeCol(counts, i)
    {
      assert counts[..d][..d - 1] == counts[..d - 1];
      ProdLast(counts[..d]);
      MulComm(off[d - 1], counts[d - 1]);
      var q, r := QuotRem(tmp, off[d - 1], counts[d - 1]);
      c := [tmp / off[d - 1]] + c;
      tmp := tmp % off[d - 1];
      d := d - 1;
    }
  }

  /**
   * Recovers the range indices of id `i` by repeated division by the
   * offsets, as `get_range_coords` does.
   */
  method GetRangeCoords(s: Subarray, i: nat) returns (c: seq<nat>)
    requires i < RangeNum(s)
    ensures c == RangeCoords(s, i)
    ensures InBounds(Lengths(s.ranges), c) && RangeIdx(s, c) == i
  {
    var counts := Lengths(s.ranges);
    var off := ComputeRangeOffsets(s);
    if RangeLayout(s) == RowMajor {
      c := DivideRow(counts, off, i);
    } else {
      c := DivideCol(counts, off, i);
    }
    DecodeCorrect(counts, RangeLayout(s), i);
  }

  /* ---------------- helper facts ---------------- */

  /** A single ND range means exactly one 1D range on every dimension. */
  lemma RangeNumOne(s: Subarray)
    requires RangeNum(s) == 1
    ensures |s.ranges| > 0
    ensures forall d :: 0 <= d < |s.ranges| ==> |s.ranges[d]| == 1
  {
    ProdOne(Lengths(s.ranges));
  }

  /* ---------------- properties ---------------- */

  /** Every id below `RangeNum` has in-bounds range indices that flatten back to it. */
  lemma RangeIdxOfCoords(s: Subarray, i: nat)
    requires i < RangeNum(s)
    ensures InBounds(Lengths(s.ranges), RangeCoords(s, i))
    ensures RangeIdx(s, RangeCoords(s, i)) == i
  {
    DecodeCorrect(Lengths(s.ranges), RangeLayout(s), i);
  }

  /** Every in-bounds tuple of range indices has an id below `RangeNum` that maps back to it. */
  lemma RangeCoordsOfIdx(s: Subarray, c: seq<nat>)
    requires |s.ranges| > 0
    requires InBounds(Lengths(s.ranges), c)
    ensures RangeIdx(s, c) < RangeNum(s)
    ensures RangeCoords(s, RangeIdx(s, c)) == c
    ensures NDRange(s, RangeIdx(s, c)) == Pick(s.ranges, c)
  {
    EncodeCorrect(Lengths(s.ranges), RangeLayout(s), c);
  }

  /** Ids follow the layout: a larger id names a later tuple of range indices. */
  lemma RangeCoordsOrdered(s: Subarray, i: nat, j: nat)
    requires i < j < RangeNum(s)
    ensures Before(RangeLayout(s), RangeCoords(s, i), RangeCoords(s, j))
  {
    DecodeMonotone(Lengths(s.ranges), RangeLayout(s), i, j);
  }

  /**
   * Listed by id, the ND ranges are the cross product of the 1D range
   * lists in the layout's order, and in the cell order when unordered.
   */
  lemma NDRangesAreProduct(s: Subarray)
    requires |s.ranges| > 0
    ensures NDRanges(s) == CrossProduct(s.ranges, RangeLayout(s))
    ensures s.layout == Unordered ==> NDRanges(s) == CrossProduct(s.ranges, s.domain.cellOrder)
  {
    var order := RangeLayout(s);
    CrossProductLength(s.ranges, order);
    forall i | 0 <= i < RangeNum(s)
      ensures NDRanges(s)[i] == CrossProduct(s.ranges, order)[i]
    {
      CrossProductAt(s.ranges, order, i);
    }
  }

  /** A well-formed subarray is empty exactly when it stores no range at all. */
  lemma EmptyIffNoRangeStored(s: Subarray)
    requires Wf(s)
    ensures Empty(s) <==> NoRangeStored(s)
    ensures Empty(s) <==> |s.ranges| == 0
  {
    ProdPositive(Lengths(s.ranges));
  }

  /** A fresh subarray has a single ND range, the whole domain, and nothing set. */
  lemma NewIsWholeDomain(domain: ArrayDomain, layout: Layout)
    requires ValidDomain(domain)
    ensures RangeNum(New(domain, layout)) == 1
    ensures NDRange(New(domain, layout), 0) == seq(|domain.dims|, d requires 0 <= d < |domain.dims| => FullRange(domain.dims[d]))
    ensures !IsSet(New(domain, layout))
  {
    var s := New(domain, layout);
    ProdOne(Lengths(s.ranges));
    var c := RangeCoords(s, 0);
    assert forall d :: 0 <= d < |c| ==> c[d] == 0;
  }

  /** A populated subarray with no dimension set is exactly the fresh one. */
  lemma UnsetIsNew(s: Subarray)
    requires Wf(s) && Populated(s)
    requires !IsSet(s)
    ensures s == New(s.domain, s.layout)
  {
    var t := New(s.domain, s.layout);
    assert forall d :: 0 <= d < |s.ranges| ==> s.isDefault[d] by {
      forall d | 0 <= d < |s.ranges|
        ensures s.isDefault[d]
      {
        assert !IsSetDim(s, d);
      }
    }
    assert s.ranges == t.ranges;
    assert s.isDefault == t.isDefault;
  }

  /**
   * Adding ranges one at a time: the first replaces the default range of
   * the dimension, the rest are appended in call order, and the other
   * dimensions are untouched.
   */
  lemma {:induction false} AddRangesEffect(s: Subarray, d: nat, rs: seq<Range>)
    requires d < |s.ranges| && d < |s.isDefault|
    ensures AddRanges(s, d, rs).domain == s.domain && AddRanges(s, d, rs).layout == s.layout
    ensures AddRanges(s, d, rs).ranges[d] ==
              if |rs| == 0 then s.ranges[d]
              else (if s.isDefault[d] then [] else s.ranges[d]) + rs
    ensures AddRanges(s, d, rs).isDefault[d] == (s.isDefault[d] && |rs| == 0)
    ensures forall e :: 0 <= e < |s.ranges| && e != d ==> AddRanges(s, d, rs).ranges[e] == s.ranges[e]
    ensures forall e :: 0 <= e < |s.isDefault| && e != d ==> AddRanges(s, d, rs).isDefault[e] == s.isDefault[e]
    decreases |rs|
  {
    if |rs| > 0 {
      var s1 := AddRangeUnsafe(s, d, rs[0]);
      AddRangesEffect(s1, d, rs[1..]);
      assert s1.ranges[d] == (if s.isDefault[d] then [] else s.ranges[d]) + [rs[0]];
      assert [rs[0]] + rs[1..] == rs;
    }
  }

  /** Adding a non-empty list of ranges to a fresh subarray leaves exactly that list on the dimension. */
  lemma AddRangesToNew(domain: ArrayDomain, layout: Layout, d: nat, rs: seq<Range>)
    requires ValidDomain(domain) && d < |domain.dims|
    requires |rs| > 0
    ensures AddRanges(New(domain, layout), d, rs).ranges[d] == rs
    ensures IsSetDim(AddRanges(New(domain, layout), d, rs), d)
  {
    AddRangesEffect(New(domain, layout), d, rs);
  }

  /**
   * Every dimension of `GetSubarray` is what adding, one at a time, the
   * ranges between the two ids' range indices to a fresh subarray leaves.
   */
  lemma GetSubarrayByAdding(s: Subarray, start: nat, end: nat, d: nat)
    requires Valid(s)
    requires start < RangeNum(s) && end < RangeNum(s) && d < DimNum(s)
    ensures var sl := Slice(s.ranges[d], RangeCoords(s, start)[d], RangeCoords(s, end)[d]);
            && GetSubarray(s, start, end).ranges[d] == AddRanges(New(s.domain, s.layout), d, sl).ranges[d]
            && GetSubarray(s, start, end).isDefault[d] == AddRanges(New(s.domain, s.layout), d, sl).isDefault[d]
  {
    var sl := Slice(s.ranges[d], RangeCoords(s, start)[d], RangeCoords(s, end)[d]);
    AddRangesEffect(New(s.domain, s.layout), d, sl);
  }

  /**
   * The subarray of the single ND range `i` has exactly one ND range,
   * equal to ND range `i`, and every dimension set.
   */
  lemma GetSubarraySingle(s: Subarray, i: nat)
    requires Valid(s) && i < RangeNum(s)
    ensures Valid(GetSubarray(s, i, i))
    ensures GetSubarray(s, i, i).layout == s.layout && GetSubarray(s, i, i).domain == s.domain
    ensures RangeNum(GetSubarray(s, i, i)) == 1
    ensures NDRange(GetSubarray(s, i, i), 0) == NDRange(s, i)
    ensures forall d :: 0 <= d < DimNum(s) ==> IsSetDim(GetSubarray(s, i, i), d)
  {
    var c := RangeCoords(s, i);
    var n := |s.ranges|;
    var t := GetSubarray(s, i, i);
    assert forall d :: 0 <= d < n ==> t.ranges[d] == [s.ranges[d][c[d]]] && !t.isDefault[d] by {
      forall d | 0 <= d < n
        ensures t.ranges[d] == [s.ranges[d][c[d]]] && !t.isDefault[d]
      {
        var sl := Slice(s.ranges[d], c[d], c[d]);
        assert sl == [s.ranges[d][c[d]]];
        GetSubarrayByAdding(s, i, i, d);
        AddRangesToNew(s.domain, s.layout, d, sl);
      }
    }
    ProdOne(Lengths(t.ranges));
    var z := RangeCoords(t, 0);
    assert forall d :: 0 <= d < n ==> z[d] == 0;
    assert NDRange(t, 0) == NDRange(s, i);
  }

  /**
   * When the range indices of `start` do not exceed those of `end` on any
   * dimension, each dimension of the sub-subarray holds exactly the ranges
   * between the two, and is set.
   */
  lemma GetSubarrayBoxRanges(s: Subarray, start: nat, end: nat)
    requires Valid(s) && start < RangeNum(s) && end < RangeNum(s)
    requires forall d :: 0 <= d < |s.ranges| ==> RangeCoords(s, start)[d] <= RangeCoords(s, end)[d]
    ensures Valid(GetSubarray(s, start, end))
    ensures forall d :: 0 <= d < DimNum(s) ==>
              && IsSetDim(GetSubarray(s, start, end), d)
              && GetSubarray(s, start, end).ranges[d] == s.ranges[d][RangeCoords(s, start)[d]..RangeCoords(s, end)[d] + 1]
  {
    var lo, hi := RangeCoords(s, start), RangeCoords(s, end);
    var t := GetSubarray(s, start, end);
    var n := |s.ranges|;
    forall d | 0 <= d < n
      ensures !t.isDefault[d] && t.ranges[d] == s.ranges[d][lo[d]..hi[d] + 1]
    {
      assert Slice(s.ranges[d], lo[d], hi[d]) == s.ranges[d][lo[d]..hi[d] + 1];
    }
    forall d, j | 0 <= d < n && 0 <= j < |t.ranges[d]|
      ensures InDomain(s.domain.dims[d], t.ranges[d][j])
    {
      assert t.ranges[d][j] == s.ranges[d][lo[d] + j];
    }
  }

  /**
   * Under the same condition, the ND ranges of the sub-subarray are exactly
   * the ND ranges of `s` whose range indices lie in the box spanned by the
   * indices of `start` and `end`.
   */
  lemma GetSubarrayBox(s: Subarray, start: nat, end: nat, nd: seq<Range>)
    requires Valid(s) && start < RangeNum(s) && end < RangeNum(s)
    requires forall d :: 0 <= d < |s.ranges| ==> RangeCoords(s, start)[d] <= RangeCoords(s, end)[d]
    ensures nd in NDRanges(GetSubarray(s, start, end)) <==>
              exists c :: InBounds(Lengths(s.ranges), c) && InBox(c, RangeCoords(s, start), RangeCoords(s, end)) && nd == Pick(s.ranges, c)
  {
    var lo, hi := RangeCoords(s, start), RangeCoords(s, end);
    var t := GetSubarray(s, start, end);
    GetSubarrayBoxRanges(s, start, end);
    NDRangesAreProduct(t);
    CrossProductOfSlices(s.ranges, t.ranges, lo, hi, RangeLayout(t), nd);
  }

  /** ND range `i` is unary exactly when the subarray made of it alone is unary. */
  lemma UnaryAtIffSubarrayUnary(s: Subarray, i: nat)
    requires Valid(s) && i < RangeNum(s)
    ensures IsUnaryAt(s, i) <==> IsUnary(GetSubarray(s, i, i))
  {
    var t := GetSubarray(s, i, i);
    GetSubarraySingle(s, i);
    RangeNumOne(t);
    var z := RangeCoords(t, 0);
    assert forall d :: 0 <= d < |t.ranges| ==> z[d] == 0 && NDRange(t, 0)[d] == t.ranges[d][0];
  }

  /** Reading back the flattened form of a unary subarray yields its single ND range. */
  lemma ToByteVecRoundTrip(s: Subarray)
    requires ToByteVec(s).Ok?
    ensures RangeNum(s) == 1
    ensures FromByteVec(ToByteVec(s).value) == NDRange(s, 0)
  {
    RangeNumOne(s);
    var v := ToByteVec(s).value;
    var z := RangeCoords(s, 0);
    forall d | 0 <= d < |s.ranges|
      ensures FromByteVec(v)[d] == NDRange(s, 0)[d]
    {
      assert z[d] == 0;
      assert (2 * d) / 2 == d && (2 * d + 1) / 2 == d;
      assert (2 * d) % 2 == 0 && (2 * d + 1) % 2 == 1;
    }
  }
}
