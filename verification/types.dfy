/**
 * Basic types shared by the subarray model: layouts, 1D ranges,
 * dimensions with their tiling, the array domain a subarray is built
 * from, and the status/result type returned by checked operations.
 */
module Types {
  import opened Arith

  /** The order of values a subarray produces or consumes. */
  datatype Layout = RowMajor | ColMajor | Unordered

  /** The cell order and tile order of an array are always row- or col-major. */
  type Order = l: Layout | l != Unordered witness RowMajor

  /** An inclusive 1D range `[start, end]`. */
  datatype Range = Range(start: int, end: int)

  /** A range is unary when it consists of a single point. */
  predicate IsUnaryRange(r: Range) {
    r.start == r.end
  }

  /**
   * One dimension of the array: its inclusive domain `[lo, hi]` and the
   * extent of the tiles that partition it, starting at `lo`.
   */
  datatype Dimension = Dimension(lo: int, hi: int, extent: int)

  predicate ValidDimension(dim: Dimension) {
    dim.lo <= dim.hi && dim.extent > 0
  }

  /** The range covering the whole domain of a dimension. */
  function FullRange(dim: Dimension): Range {
    Range(dim.lo, dim.hi)
  }

  /** A range is acceptable on a dimension when it is ordered and lies in its domain. */
  predicate InDomain(dim: Dimension, r: Range) {
    dim.lo <= r.start <= r.end <= dim.hi
  }

  /** The index of the tile (counting from 0 at `lo`) that holds coordinate `x`. */
  function TileIdx(dim: Dimension, x: int): int
    requires dim.extent > 0
  {
    (x - dim.lo) / dim.extent
  }

  /** The number of tiles along a dimension; the last one may be partial. */
  function TileNum(dim: Dimension): nat
    requires ValidDimension(dim)
  {
    (dim.hi - dim.lo) / dim.extent + 1
  }

  /** The array a subarray refers to, reduced to what the subarray reads from it. */
  datatype ArrayDomain = ArrayDomain(dims: seq<Dimension>, cellOrder: Order, tileOrder: Order)

  predicate ValidDomain(a: ArrayDomain) {
    |a.dims| > 0 && forall d :: 0 <= d < |a.dims| ==> ValidDimension(a.dims[d])
  }

  /** Failures reported through a Status by the checked operations. */
  datatype Error =
    | InvalidDimIdx
    | RangeBoundsReversed
    | RangeOutOfDomain
    | NotUnary

  datatype Result<T> = Ok(value: T) | Err(error: Error)

  /** `TileIdx` is monotone: a larger coordinate never lies in an earlier tile. */
  lemma TileIdxMonotone(dim: Dimension, x: int, y: int)
    requires dim.extent > 0
    requires x <= y
    ensures TileIdx(dim, x) <= TileIdx(dim, y)
  {
    DivMonotone(x - dim.lo, y - dim.lo, dim.extent);
  }

  /** Coordinate `x` lies in tile `t` exactly when `lo + t*extent <= x < lo + (t+1)*extent`. */
  lemma TileIdxBounds(dim: Dimension, x: int, t: int)
    requires dim.extent > 0
    ensures TileIdx(dim, x) == t <==> dim.lo + t * dim.extent <= x < dim.lo + (t + 1) * dim.extent
  {
    var e := dim.extent;
    var q := (x - dim.lo) / e;
    MulSucc(q, e);
    MulSucc(q + 1, e);
    MulSucc(t + 1, e);
    if dim.lo + t * e <= x < dim.lo + (t + 1) * e {
      MulCancelLt(t, q + 1, e);
      MulCancelLt(q, t + 1, e);
    }
  }

  /** Every coordinate of a dimension's domain lies in one of its `TileNum` tiles. */
  lemma TileIdxInGrid(dim: Dimension, x: int)
    requires ValidDimension(dim)
    requires dim.lo <= x <= dim.hi
    ensures 0 <= TileIdx(dim, x) < TileNum(dim)
  {
    TileIdxMonotone(dim, dim.lo, x);
    TileIdxMonotone(dim, x, dim.hi);
  }
}
