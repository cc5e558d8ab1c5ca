# TileDB multi-range subarray, in Dafny

TileDB reads and writes arrays through a *subarray*: for each dimension
of the array domain an ordered list of 1D ranges, which may overlap.
The subarray stands for a new logical domain, the cross product of the
per-dimension cell lists; a dimension with no user range covers its
whole domain through a *default* range that the first added range
replaces. The multi-dimensional (ND) ranges of a subarray are all
combinations of one 1D range per dimension, numbered by a flattened id
in the subarray layout (row-major: last dimension fastest; col-major:
first dimension fastest; unordered: the array's cell order).

The model (class `Subarray` of `tiledb/sm/subarray/subarray.h`):

- `types.dfy` (`Types`): dimensions with an inclusive domain `[lo, hi]`
  and a tile extent, the array domain with its cell and tile orders,
  1D ranges, the error values, and tile indices.
- `arith.dfy` (`Arith`): small facts about multiplication and division.
- `mixed_radix.dfy` (`MixedRadix`): range offsets, flattened ids and
  their inverse, in row- and col-major order, and the orders on
  coordinate tuples.
- `product.dfy` (`Product`): the ordered cross product of lists, with
  its length, its element at every position, its members and its
  sortedness.
- `subarray.dfy` (`Subarrays`): the subarray itself: construction with
  default ranges, `add_range`, `add_range_unsafe`, `clear`, `empty`,
  `dim_num`, `is_default`, `is_set`, `is_unary`, `range_num`,
  `compute_range_offsets`, `get_range_coords`, `range_idx`, `ndrange`,
  `get_subarray` and `to_byte_vec`; the two offset loops and the
  division loop of `get_range_coords` are written as methods.
- `cells.dfy` (`SubarrayCells`): the logical domain a subarray stands
  for, as described in the class comment.
- `tiles.dfy` (`SubarrayTiles`): `coincides_with_tiles`,
  `compute_tile_coords` (row and col tile order) and the position map
  kept beside the tile coordinates.
- `examples.dfy` (`SubarrayExamples`): the two worked examples of the
  class comment on the 3x3 array, and the slice of the sparse
  quickstart on its 4x4 array.

Coordinates are unbounded integers of one integer type for all
dimensions; an error is a `Result` value instead of a `Status`.

## Model

| member | source | states |
|---|---|---|
| Subarrays.New | tiledb/sm/subarray/subarray.h:135-149 | a fresh subarray over a valid domain is valid, has the domain's dimension number, and every dimension is at its default |
| Subarrays.DimNum | tiledb/sm/subarray/subarray.h:233-234 | the dimension number is that of the array domain, which the range lists and default flags of a populated subarray follow |
| Subarrays.IsDefault | tiledb/sm/subarray/subarray.h:269-274 | a default dimension of a well-formed subarray holds exactly its full-domain range |
| Subarrays.IsSetDim | tiledb/sm/subarray/subarray.h:279-280 | a dimension is set exactly when it is not default, and an unset one holds exactly its full-domain range |
| Subarrays.RangeNum | tiledb/sm/subarray/subarray.h:365-366 | there are no ND ranges exactly when there are no dimension lists or some dimension has no range |
| Subarrays.Empty | tiledb/sm/subarray/subarray.h:239-240 | a well-formed subarray is empty exactly when it was cleared (holds no dimension lists) |
| Subarrays.NewIsWholeDomain | tiledb/sm/subarray/subarray.h:513-519 | a fresh subarray has exactly one ND range, that range is the full domain on every dimension, and nothing is set |
| Subarrays.UnsetIsNew | tiledb/sm/subarray/subarray.h:100-101 | a populated subarray on which no dimension is set is exactly the fresh subarray over its domain and layout |
| Subarrays.AddRangeUnsafe | tiledb/sm/subarray/subarray.h:179-183 | the range becomes the last range of its dimension, the dimension is no longer default, every other dimension is unchanged, and well-formedness and in-domain ranges are preserved |
| Subarrays.AddRange | tiledb/sm/subarray/subarray.h:176-177 | succeeds exactly when the dimension index exists and the range is ordered and inside the dimension domain; otherwise reports an invalid dimension, reversed bounds or a range outside the domain, in that order; on success equals the unchecked add and keeps the subarray valid |
| Subarrays.AddRangesEffect | tiledb/sm/subarray/subarray.h:513-519 | adding ranges one by one appends them in order to the dimension, and the first one drops the default range; no other dimension changes |
| Subarrays.AddRangesToNew | tiledb/sm/subarray/subarray.h:513-519 | adding a non-empty list of ranges to a fresh subarray leaves exactly that list on the dimension, which is then set |
| Subarrays.Clear | tiledb/sm/subarray/subarray.h:188-189 | after clearing, the subarray is empty and not set, with the same domain, dimension number and layout |
| Subarrays.EmptyIffNoRangeStored | tiledb/sm/subarray/subarray.h:239-240 | a well-formed subarray has no ND range exactly when it stores no 1D range |
| Subarrays.IsSet | tiledb/sm/subarray/subarray.h:276-280 | true exactly when some dimension has non-default ranges |
| Subarrays.IsUnary | tiledb/sm/subarray/subarray.h:282-287 | true exactly when there is a single ND range and every 1D range is a single point |
| Subarrays.IsUnaryAt | tiledb/sm/subarray/subarray.h:289-293 | true exactly when every 1D range of the ND range with that id is a single point |
| Subarrays.RangeNumOne | tiledb/sm/subarray/subarray.h:365-366 | a single ND range means one 1D range on every dimension |
| Subarrays.ComputeRangeOffsets | tiledb/sm/subarray/subarray.h:197-201 | the offsets are the products of the range counts of the later dimensions (row-major) or of the earlier ones (col-major), per the range layout |
| Subarrays.ComputeRowOffsets | tiledb/sm/subarray/subarray.h:477-478 | the backward loop yields the row-major offsets |
| Subarrays.ComputeColOffsets | tiledb/sm/subarray/subarray.h:477-478 | the forward loop yields the col-major offsets |
| Subarrays.DivideRow | tiledb/sm/subarray/subarray.h:324-330 | dividing by the row-major offsets, first dimension first, yields the row-major range coordinates |
| Subarrays.DivideCol | tiledb/sm/subarray/subarray.h:324-330 | dividing by the col-major offsets, last dimension first, yields the col-major range coordinates |
| Subarrays.RangeCoords | tiledb/sm/subarray/subarray.h:324-330 | the range coordinates of an id below `range_num` name one stored range per dimension |
| Subarrays.RangeIdx | tiledb/sm/subarray/subarray.h:362-363 | in-bounds range coordinates get an id below `range_num` |
| Subarrays.NDRange | tiledb/sm/subarray/subarray.h:368-375 | the ND range of an id has one range per dimension, each a stored range of that dimension |
| Subarrays.NDRanges | tiledb/sm/subarray/subarray.h:368-375 | there are `range_num` ND ranges, listed by id |
| Subarrays.GetRangeCoords | tiledb/sm/subarray/subarray.h:324-330 | the range coordinates of an id are in bounds and `range_idx` maps them back to the same id |
| Subarrays.RangeIdxOfCoords | tiledb/sm/subarray/subarray.h:362-363 | `range_idx` after `get_range_coords` is the identity on ids |
| Subarrays.RangeCoordsOfIdx | tiledb/sm/subarray/subarray.h:362-363 | in-bounds range coordinates have an id below `range_num`, `get_range_coords` recovers them, and the ND range of that id picks those 1D ranges |
| Subarrays.RangeCoordsOrdered | tiledb/sm/subarray/subarray.h:368-375 | a smaller id has range coordinates earlier in the range layout |
| Subarrays.NDRangesAreProduct | tiledb/sm/subarray/subarray.h:368-375 | the ND ranges by id are the cross product of the per-dimension ranges in the range layout, which is the cell order when unordered |
| Subarrays.GetSubarray | tiledb/sm/subarray/subarray.h:332-341 | the sub-subarray is populated, with the domain and layout of the original |
| Subarrays.GetSubarrayBoxRanges | tiledb/sm/subarray/subarray.h:332-341 | when the range indices of `start` do not exceed those of `end` on any dimension, the result is valid, every dimension is set and holds exactly the ranges between the two indices |
| Subarrays.GetSubarrayBox | tiledb/sm/subarray/subarray.h:332-341 | under the same condition, the ND ranges of the result are exactly the ND ranges whose range indices lie in the box spanned by `start` and `end` |
| Product.CrossProductOfSlices | tiledb/sm/subarray/subarray.h:332-341 | the product of per-dimension slices holds exactly the tuples picked at indices inside the slices' box |
| Subarrays.GetSubarrayByAdding | tiledb/sm/subarray/subarray.h:332-341 | on each dimension the sub-subarray holds what adding the ranges between the two ids' range indices to a fresh subarray yields |
| Subarrays.GetSubarraySingle | tiledb/sm/subarray/subarray.h:332-341 | the sub-subarray of one id is valid, has one ND range, and that range is the ND range of the id, with every dimension set |
| Subarrays.UnaryAtIffSubarrayUnary | tiledb/sm/subarray/subarray.h:289-293 | an ND range is unary exactly when its sub-subarray is unary |
| Subarrays.ToByteVec | tiledb/sm/subarray/subarray.h:353-357 | succeeds exactly when the subarray has a single ND range, yielding two values per dimension, and otherwise reports it as not unary |
| Subarrays.ToByteVecRoundTrip | tiledb/sm/subarray/subarray.h:353-357 | reading the flattened values back two at a time gives the single ND range |
| MixedRadix.DecodeCorrect | tiledb/sm/subarray/subarray.h:324-330 | the coordinates of an id are in bounds and the offsets map them back to the id |
| MixedRadix.EncodeCorrect | tiledb/sm/subarray/subarray.h:362-363 | the id of in-bounds coordinates is below the product of the counts and decodes back to the coordinates |
| MixedRadix.DecodeMonotone | tiledb/sm/subarray/subarray.h:368-375 | ids in increasing order decode to coordinates in increasing lexicographic (row-major) or colexicographic (col-major) order |
| MixedRadix.SortedDistinct | tiledb/sm/subarray/subarray.h:416-420 | a strictly sorted list of tuples has no repeated tuple |
| Product.CrossProductAt | tiledb/sm/subarray/subarray.h:57-94 | the element of the cross product at a position picks from each list at the position's decoded coordinates |
| Product.CrossProductMember | tiledb/sm/subarray/subarray.h:57-94 | a tuple is in the cross product exactly when each entry is in its dimension's list |
| Product.CrossProductSorted | tiledb/sm/subarray/subarray.h:441-448 | the cross product of strictly increasing lists is sorted in its order |
| SubarrayCells.RangeCells | tiledb/sm/subarray/subarray.h:84-94 | every cell of a dimension lies in one of its ranges |
| SubarrayCells.Cells | tiledb/sm/subarray/subarray.h:67-94 | a cleared subarray has no cells; otherwise the cells number the product of the per-dimension cell counts |
| SubarrayCells.RangeCellsLength | tiledb/sm/subarray/subarray.h:84-94 | a dimension has as many cells as the summed sizes of its ranges, so overlaps repeat cells |
| SubarrayCells.RangeCellsMember | tiledb/sm/subarray/subarray.h:73-80 | a coordinate is a cell of a dimension exactly when one of its ranges contains it |
| SubarrayCells.CellsMember | tiledb/sm/subarray/subarray.h:57-63 | a point is a cell of the subarray exactly when some ND range contains it, so a cleared subarray, with no ND range, has none |
| SubarrayCells.EmptyIffNoCells | tiledb/sm/subarray/subarray.h:239-240 | a subarray whose ranges lie in the domain is empty exactly when it has no cells |
| SubarrayCells.CellsLength | tiledb/sm/subarray/subarray.h:96-98 | the number of cells is the product over dimensions of the summed range sizes, and zero for a cleared subarray |
| SubarrayCells.DefaultDimCoversDomain | tiledb/sm/subarray/subarray.h:100-101 | a default dimension's cells are its whole domain |
| SubarrayCells.NewCellsAreDomain | tiledb/sm/subarray/subarray.h:100-101 | the cells of a fresh subarray are exactly the points of the array domain |
| SubarrayCells.UnaryIffSingleCell | tiledb/sm/subarray/subarray.h:282-287 | a valid subarray is unary exactly when its logical domain is one cell |
| SubarrayTiles.TouchedFrom | tiledb/sm/subarray/subarray.h:524-540 | the tile indices touched on a dimension are strictly increasing, within the tile grid, and exactly those some range spans |
| SubarrayTiles.TouchedTilesMember | tiledb/sm/subarray/subarray.h:416-420 | a tile index is touched on a dimension exactly when one of its ranges has a coordinate in that tile |
| SubarrayTiles.TouchedTiles | tiledb/sm/subarray/subarray.h:524-540 | the tile indices a dimension's ranges touch are strictly increasing and inside the dimension's tile grid |
| SubarrayTiles.ComputeTileCoords | tiledb/sm/subarray/subarray.h:441-448 | the tile coordinates number the product of the per-dimension touched-tile counts, and each has one index per dimension |
| SubarrayTiles.TileCoordsSorted | tiledb/sm/subarray/subarray.h:441-448 | the tile coordinates are sorted in the array tile order and unique |
| SubarrayTiles.TileCoordsMember | tiledb/sm/subarray/subarray.h:416-420 | a tile is listed exactly when some ND range intersects it on every dimension |
| SubarrayTiles.TilePosition | tiledb/sm/subarray/subarray.h:506-507 | a listed tile's position is where it sits in the tile coordinates, and no other position holds it |
| SubarrayTiles.CoincidesWithTiles | tiledb/sm/subarray/subarray.h:191-195 | true exactly when there is a single ND range and on every dimension each tile it meets lies wholly inside it |
| SubarrayTiles.AlignedIffCovers | tiledb/sm/subarray/subarray.h:191-195 | a range starts and ends on tile boundaries exactly when every tile it meets lies wholly inside it |
| SubarrayTiles.SpansIffMeets | tiledb/sm/subarray/subarray.h:416-420 | a tile index is between the tiles of a range's ends exactly when the range has a coordinate in that tile |
| Types.TileIdxBounds | tiledb/sm/subarray/subarray.h:524-540 | a coordinate is in tile `t` exactly when it lies between that tile's first coordinate and the next tile's |
| SubarrayExamples.DocSubarrayBuilt | tiledb/sm/subarray/subarray.h:73-87 | adding the rows ranges and the cols ranges of both worked examples to a fresh 3x3 subarray succeeds |
| SubarrayExamples.DocRanges | tiledb/sm/subarray/subarray.h:73-76 | the first example has two ND ranges, listed in row-major order |
| SubarrayExamples.DocExample | tiledb/sm/subarray/subarray.h:67-82 | the first example's cells in row-major order are those holding 4 5 7 8 1 2 |
| SubarrayExamples.DocExampleOverlap | tiledb/sm/subarray/subarray.h:84-94 | the overlapping example has four ND ranges and twelve cells, holding 4 5 5 6 7 8 8 9 1 2 2 3 |
| SubarrayExamples.DocOverlapCoords | tiledb/sm/subarray/subarray.h:84-87 | the overlapping example is valid, and its ND ranges 1 and 2 have range indices (0, 1) and (1, 0) |
| SubarrayExamples.DocSubarrayNoBox | tiledb/sm/subarray/subarray.h:332-341 | the sub-subarray of ids 1 to 2 of the overlapping example keeps the default full range on cols and so holds cell (2, 1), which neither ND range 1 nor 2 contains |
| SubarrayExamples.DocSubarrayNarrow | tiledb/sm/subarray/subarray.h:332-341 | ids 1 and 3 of the overlapping example span a box, but the sub-subarray holds two ND ranges and leaves out ND range 2, whose cell (1, 1) lies in neither |
| SubarrayExamples.QuickstartSlice | examples/c_api/quickstart_sparse.c:135-136 | the quickstart slice is one ND range but not a single cell, and flattens to the quickstart's own buffer `{1, 2, 2, 4}` |
| SubarrayExamples.QuickstartNotAligned | examples/c_api/quickstart_sparse.c:50-58 | with one 4x4 tile, the quickstart slice does not coincide with tiles |
| SubarrayExamples.QuickstartTiles | examples/c_api/quickstart_sparse.c:72-74 | the quickstart slice touches only tile (0, 0) |
| SubarrayExamples.RejectedRanges | tiledb/sm/subarray/subarray.h:176-177 | a range outside the domain, a reversed range and a missing dimension are each rejected with their error |

## Left out

- `tiledb/sm/subarray/subarray.cc` is not part of this model: the behaviour comes from the header's declarations and comments, and where the header leaves a choice open the choice made is stated below.
- Subarrays.AddRange: the checks are all-or-nothing and run in the order invalid dimension, reversed bounds, outside the domain; this order is a modelling choice.
- Subarrays.AddRange: requires a populated subarray (not one just cleared), because after `clear` the per-dimension lists no longer exist.
- Subarrays.Clear: removes both the ranges and the default flags, so `is_default` has no answer on a cleared subarray.
- SubarrayTiles.CoincidesWithTiles: "unary" in its comment is read as "one ND range", not as `is_unary()`, since a single point coincides with a tile only for extent 1.
- Subarrays.ToByteVec: "unary" in its comment is read, as for `coincides_with_tiles`, as "one ND range", because the flattened form holds a start and an end per dimension, which would be redundant for single points; so a one-ND-range slice such as the quickstart's flattens. It yields the coordinates as integers, not their bytes; datatype-dependent byte serialization is left out.
- Subarrays.GetSubarray: in the reference design of `get_subarray`, each dimension receives the 1D ranges between the two ids' range indices, and the model does the same; so the result is the box of range indices that `start` and `end` span, dimension by dimension (Subarrays.GetSubarrayBox), not the ND ranges `start` to `end` in the flattened range order that the comment promises. The box can be wider than those ids, because a dimension on which the range index of `start` exceeds that of `end` receives no range and keeps its full-domain default (SubarrayExamples.DocSubarrayNoBox). It can also be narrower, leaving out ids between the two (SubarrayExamples.DocSubarrayNarrow). The promise holds only when ids `start` to `end` fill a box of range indices exactly in the range layout. Its own contract states only shape; its contents are stated by Subarrays.GetSubarrayByAdding, Subarrays.GetSubarrayBox and Subarrays.GetSubarraySingle.
- Coordinate datatypes and the templates over them: all coordinates are unbounded integers; real-valued dimensions and fixed-width overflow are not modelled.
- The estimated result size, tile overlap, `split`, `crop_to_tile` and `compute_est_result_size`: they depend on fragment metadata and storage I/O.
- `tile_coords_ptr`: pointer identity and the auxiliary byte buffer are not modelled; the lookup of a tile's position that it relies on is SubarrayTiles.TilePosition.
- `get_range`, `get_range_num`, `ranges_for_dim`, `domain`, `layout`, `get_query_type` and `array`: plain field readers, readable directly off the datatype.
- `set_layout`, `set_is_default` and `set_ranges_for_dim`: setters meant for deserialization. They write the fields directly, so `set_is_default` and `set_ranges_for_dim` can break the invariant that a default dimension holds exactly its full-domain range (Subarrays.Wf); the model has no such writes.
- The cached `range_offsets_`, `tile_coords_` and `tile_coords_map_`: `get_range_coords`, `range_idx`, `ndrange`, `tile_coords` and `tile_coords_ptr` read these caches, and only `compute_range_offsets` and `compute_tile_coords` fill them. The model computes offsets and tile coordinates from the current ranges on every call. It therefore assumes both compute calls have run since the last range change; stale caches are not modelled.
- Copy, move, swap and assignment: values in Dafny are immutable, so these have nothing to model.
- The quickstart program's array creation, writes, buffer sizing and I/O: only its domain, tile extents, orders and slice are used.
