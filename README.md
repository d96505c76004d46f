# Grid partitioning and URI helpers of TensorStore, in Dafny

This project models two parts of TensorStore's `internal` library and proves
properties of the model.

**Partitioning an index transform over a grid.** An index transform maps a
box of input indices to output indices. Some output dimensions are cut by a
grid, either regular (a fixed cell size per dimension) or irregular (a
sorted list of split points per dimension). The partitioner visits every grid
cell the transform touches. For each cell it hands the grid cell index vector
and a *cell transform* to a visitor. The cell transform maps a new input
space onto exactly those input points whose image falls in that cell.

- Grid dimensions whose maps read the same input dimension form a *connected
  set* and are partitioned jointly.
- An affine set is cut into *runs*: maximal input intervals on which every
  map stays in one cell.
- An array-backed set is cut into *groups*: the input positions whose cell
  tuple is the same, in ascending lexicographic order of the tuples.
- The whole partition is the cartesian product of the sets' pieces. The
  first set (array-backed sets first) varies outermost.
- `GetCellTransform` computes the cell transform of a given cell directly.
- `GetGridCellRanges` reports the touched cells within given grid bounds as
  boxes of cells.

The partitioner is described through its tests and their helper functions, so the
model fixes the observable output those tests check: cell index vectors,
cell transforms, their order, and the boxes of cell ranges.

**URI helpers.** These are:

- percent-encoding of every byte outside a set of unreserved characters. The
  two sets are those of RFC 2396 (section 2.3 for components, section 3.3 for
  paths);
- percent-decoding of `%XY` escapes;
- the split of a generic URI `<scheme>://<authority-and-path>?<query>#<fragment>`
  into its parts.

The encoder and decoder append to a caller-supplied buffer (the class
`StringBuffer`) in a loop. Each is proved against a specification function
(`Encode`, `Decode`). Their round trip and fixed points are then proved about
those functions. `ParseGenericUri` is a function over strings. It is proved
to be the exact inverse of spelling well-formed parts back out.

Modules, one per file:

- `Options` (options.dfy)
- `Intervals` (intervals.dfy)
- `GridMapping` (grid.dfy)
- `LexOrder` (lex.dfy)
- `Transforms` (transform.dfy)
- `ConnectedSetAnalysis` (connected_sets.dfy)
- `SetPartition` (set_partition.dfy)
- `Products` (products.dfy)
- `CellLayout` (cell_layout.dfy)
- `GridPartition` (partition.dfy)
- `Visitors` (visit.dfy)
- `Boxes` (boxes.dfy)
- `CellRanges` (cell_ranges.dfy)
- `UriUtils` (uri.dfy)

## Model

| member | source | states |
|---|---|---|
| Intervals.Intersect | tensorstore/internal/grid_partition_test.cc:305-353 | a value lies in the intersection exactly when it lies in both half-open ranges (the input interval of a diagonal set is the intersection of its maps' preimages) |
| Intervals.Clip | tensorstore/internal/grid_partition_test.cc:167-208 | a value lies in the clipped interval exactly when it lies in the input domain and in the range; an empty domain clips to an empty interval |
| Intervals.FloorDivLe | tensorstore/internal/grid_partition_test.cc:106-130 | for a positive cell size, `x <= b / a` exactly when `a * x <= b`: the cell index is floor division, rounding negatives toward minus infinity |
| Intervals.AffinePreimageExact | tensorstore/internal/grid_partition_test.cc:268-303 | an input index is in the preimage of a range under `offset + stride * x` exactly when its output lies in the range, for strides of either sign |
| GridMapping.CellOf | tensorstore/internal/grid_partition_test.cc:88-94 | the grid cell of an output index (floor division by the cell size, or the count of irregular split points at most the index, minus one); it carries no contract of its own, and its meaning is stated by `CellOutputIntervalExact`, `CellOfMonotone` and `CountAtMostUnique` below |
| GridMapping.CellOutputIntervalExact | tensorstore/internal/grid_partition_test.cc:88-94 | round trip between the two directions of a grid: an output index lies in the output interval of cell `c` exactly when `c` is its cell, for regular and irregular grids |
| GridMapping.CountAtMostUnique | tensorstore/internal/grid_partition_test.cc:604-653 | the number of split points at most `v` is the unique position `v` sorts into, so the irregular cell of `v` is that count minus one (values below the first split point are cell -1) |
| GridMapping.CellOfMonotone | tensorstore/internal/grid_partition_test.cc:167-208 | cell indices never decrease as the output index grows |
| LexOrder.LexLessTotal | tensorstore/internal/grid_partition_test.cc:449-514 | two different cell tuples of one length are ordered one way or the other |
| LexOrder.SortedDistinctCorrect | tensorstore/internal/grid_partition_test.cc:449-514 | the group keys are strictly ascending lexicographically, all of one length, and are exactly the tuples that occur |
| ConnectedSetAnalysis.GridDimsReadingExact | tensorstore/internal/grid_partition_test.cc:305-353 | a set lists exactly the grid dimensions that read its input dimension, ascending |
| ConnectedSetAnalysis.ReadDimsExact | tensorstore/internal/grid_partition_test.cc:516-574 | every input dimension read by a grid dimension gives exactly one set |
| ConnectedSetAnalysis.SelectKindExact | tensorstore/internal/grid_partition_test.cc:516-574 | selecting array-backed (or affine) sets keeps exactly the sets of that kind, without duplicates |
| ConnectedSetAnalysis.ConnectedSetsWellFormed | tensorstore/internal/grid_partition_test.cc:516-574 | the connected sets are one per read input dimension, cover every non-constant grid dimension, and put array-backed sets first |
| SetPartition.PreimagePrefixExact | tensorstore/internal/grid_partition_test.cc:305-353 | the preimage of the first `k` cells of a tuple holds exactly the inputs whose first `k` maps land in them |
| SetPartition.CellInputIntervalExact | tensorstore/internal/grid_partition_test.cc:268-303 | the input interval of an affine cell tuple holds exactly the domain indices that map into that tuple |
| SetPartition.MatchingPositions | tensorstore/internal/grid_partition_test.cc:398-447 | the positions listed for a tuple are exactly the domain positions that map into it, strictly ascending |
| SetPartition.CellPieceExact | tensorstore/internal/grid_partition_test.cc:355-397 | the piece of a tuple (run or group) holds exactly the input indices mapping into that tuple |
| SetPartition.RunAt | tensorstore/internal/grid_partition_test.cc:167-208 | the run at a run start begins there, is not empty, and ends where the next run starts |
| SetPartition.RunsFrom | tensorstore/internal/grid_partition_test.cc:167-208 | the runs from a run start are non-empty, contiguous, tile the rest of the domain in ascending order, and each is the input interval of its cell tuple |
| SetPartition.TilesOrdered | tensorstore/internal/grid_partition_test.cc:210-266 | earlier runs end no later than later runs start, so runs are pairwise disjoint and ascending |
| SetPartition.TilesCover | tensorstore/internal/grid_partition_test.cc:210-266 | every index of the domain lies in some run |
| SetPartition.GroupKeys | tensorstore/internal/grid_partition_test.cc:449-514 | the group keys ascend strictly and are exactly the tuples some domain index maps into |
| SetPartition.RunsExact | tensorstore/internal/grid_partition_test.cc:268-303 | the runs of an affine set are cell pieces with distinct tuples holding every domain index |
| SetPartition.GroupsExact | tensorstore/internal/grid_partition_test.cc:355-397 | the groups of an array-backed set are cell pieces with distinct tuples holding every domain index |
| SetPartition.PiecesExact | tensorstore/internal/grid_partition_test.cc:355-447 | the pieces of any set are exact: cell pieces, distinct tuples, every index held |
| Products.ProductMembers | tensorstore/internal/grid_partition_test.cc:516-574 | a tuple is in the product exactly when each entry is in the corresponding list |
| Products.ProductNoDuplicates | tensorstore/internal/grid_partition_test.cc:516-574 | the product of duplicate-free lists is duplicate-free |
| Products.ProductOfTwo | tensorstore/internal/grid_partition_test.cc:655-757 | entry `i * |b| + j` of the product of two lists is `[a[i], b[j]]`: the first set varies outermost |
| CellLayout.BuildReaches | tensorstore/internal/grid_partition_test.cc:355-397 | an output of a built cell transform reaches exactly its group's positions (array dimension) or its extent (free dimension) |
| CellLayout.BuildWellFormed | tensorstore/internal/grid_partition_test.cc:355-397 | every output reads an existing new input dimension, and an index array has one value per index of its dimension, from origin 0 |
| CellLayout.BuildAllFree | tensorstore/internal/grid_partition_test.cc:106-130 | without groups, the built transform keeps every input dimension over its extent |
| GridPartition.CellTransformExact | tensorstore/internal/grid_partition_test.cc:210-266 | the cell transform of a product entry covers exactly the domain points whose cell tuple is the entry's cell vector |
| GridPartition.PartitionExact | tensorstore/internal/grid_partition_test.cc:167-208 | every emitted cell transform covers exactly the input points that map into its grid cell |
| GridPartition.PartitionCovers | tensorstore/internal/grid_partition_test.cc:210-266 | every domain point is covered by some emitted cell transform |
| GridPartition.PartitionDistinct | tensorstore/internal/grid_partition_test.cc:449-514 | the emitted cell index vectors are pairwise different |
| GridPartition.PartitionDisjoint | tensorstore/internal/grid_partition_test.cc:210-266 | no input point is covered by two emitted cell transforms |
| GridPartition.GetCellTransformExact | tensorstore/internal/grid_partition_test.cc:88-94 | the directly computed cell transform covers exactly the domain points whose cell agrees on every input-dependent grid dimension |
| GridPartition.GetCellTransformAgrees | tensorstore/internal/grid_partition_test.cc:88-94 | looking up an emitted cell vector directly gives the emitted cell transform |
| GridPartition.ConstantMapsOnePart | tensorstore/internal/grid_partition_test.cc:132-165 | with only constant grid maps, the partition is one part: the constants' cell and the identity over the whole domain |
| GridPartition.Partition | tensorstore/internal/grid_partition_test.cc:76-101 | every emitted part has one cell index per grid dimension and a well-formed cell transform with one output per original input dimension; what each part covers is stated by `PartitionExact`, `PartitionCovers`, `PartitionDistinct` and `PartitionDisjoint` |
| GridPartition.GetCellTransform | tensorstore/internal/grid_partition_test.cc:89-94 | the directly computed cell transform is well formed and has one output per original input dimension; what it covers is stated by `GetCellTransformExact` and `GetCellTransformAgrees` |
| GridPartition.PartitionIndexTransformOverGrid | tensorstore/internal/grid_partition_test.cc:587-602 | hands the partition to the visitor in order; success means all of it was visited, and a failure returns the failing call's status |
| GridPartition.PartitionIndexTransformOverRegularGrid | tensorstore/internal/grid_partition_test.cc:76-101 | for a regular grid given by its cell shape: the visited parts are a prefix of the partition, every call but the last returned success, success means the whole partition was visited with every call succeeding, and a failure is the status of the last call made |
| Visitors.VisitAll | tensorstore/internal/grid_partition_test.cc:84-100 | visits a prefix of the items in order, every call but the last succeeded, and the status is the first failure or success with everything visited |
| Boxes.CombineMembers | tensorstore/internal/grid_partition_test.cc:816-837 | a cell lies in a combined box exactly when its leading cells are a reported prefix and the rest lies in a tail |
| Boxes.CombineAscending | tensorstore/internal/grid_partition_test.cc:816-837 | ascending prefixes combined with ascending tails give pairwise disjoint boxes, ascending by origin |
| Boxes.IntRunsMembers | tensorstore/internal/grid_partition_test.cc:882-905 | the runs of consecutive cells hold exactly the touched cells |
| Boxes.IntRunsSeparated | tensorstore/internal/grid_partition_test.cc:882-905 | the runs of an increasing list of cells are non-empty, ascending and strictly separated: at least one cell is missing between two runs, so each run is maximal |
| Boxes.SeparatedNeighbours | tensorstore/internal/grid_partition_test.cc:882-905 | two adjacent cells covered by strictly separated intervals are covered by the same interval, so no two reported intervals could be merged (cells 3 and 4 come out as one box) |
| Boxes.ClipAllSeparated | tensorstore/internal/grid_partition_test.cc:907-933 | clipping strictly separated intervals to a bound keeps them strictly separated |
| Boxes.ClipAllMembers | tensorstore/internal/grid_partition_test.cc:907-933 | clipping intervals to a bound keeps exactly the cells inside the bound |
| CellRanges.TouchedCellsExact | tensorstore/internal/grid_partition_test.cc:882-905 | the touched cells along a dimension ascend strictly and are exactly the cells some input index maps into |
| CellRanges.InnerIntervals | tensorstore/internal/grid_partition_test.cc:882-933 | the intervals reported along the inner dimension are non-empty, inside the bounds, ascending and strictly separated, so each is a maximal run of touched cells; that they cover every touched cell is `InnerIntervalsCover` |
| CellRanges.InnerIntervalsCover | tensorstore/internal/grid_partition_test.cc:800-814 | every cell within bounds of an input point lies in a reported inner interval |
| CellRanges.FullStartExact | tensorstore/internal/grid_partition_test.cc:788-799 | the trailing grid dimensions from `FullStart` on are full (reported whole) and the one before them is not |
| CellRanges.PrefixesExact | tensorstore/internal/grid_partition_test.cc:838-856 | the prefixes ascend strictly and are exactly the leading cells, within bounds, of some input point |
| CellRanges.GridCellRangesCover | tensorstore/internal/grid_partition_test.cc:857-881 | every cell within the bounds that some input point maps into lies in a reported box |
| CellRanges.GridCellRangesWithin | tensorstore/internal/grid_partition_test.cc:800-814 | every reported box lies within the grid bounds |
| CellRanges.GridCellRanges | tensorstore/internal/grid_partition_test.cc:816-837 | the reported boxes are pairwise disjoint and ascending by origin; coverage and bounds are `GridCellRangesCover` and `GridCellRangesWithin` |
| CellRanges.GridCellRangesShape | tensorstore/internal/grid_partition_test.cc:935-956 | each box holds one cell per leading dimension, a reported interval on the inner dimension, and the whole bound on each trailing full dimension |
| CellRanges.NoGridDimensions | tensorstore/internal/grid_partition_test.cc:781-786 | with rank 0 and a non-empty domain exactly one empty box is reported |
| CellRanges.EmptyDomainNoRanges | tensorstore/internal/grid_partition_test.cc:765-779 | a domain with an empty dimension reports no box; this is the model's choice, as no test fixes the empty-domain case |
| CellRanges.GetGridCellRanges | tensorstore/internal/grid_partition_test.cc:765-779 | hands the cell-range boxes to the visitor in order, stopping at the first failure and returning its status |
| UriUtils.CharSetsNested | tensorstore/internal/uri_utils.h:27-37 | the unreserved set is contained in the path set, and `%` is in neither |
| UriUtils.HexDigit | tensorstore/internal/uri_utils.h:39-41 | the emitted digit is a hex digit that decodes back to its value |
| UriUtils.Encode | tensorstore/internal/uri_utils.h:39-41 | the encoding is never shorter than its input; its round trip is `DecodeEncode`, its fixed points `EncodeFixedPoint`, its alphabet `EncodeAlphabet` |
| UriUtils.EncodeFixedPoint | tensorstore/internal/uri_utils.h:39-41 | encoding leaves a string unchanged exactly when every byte is in the unreserved set |
| UriUtils.EncodeAlphabet | tensorstore/internal/uri_utils.h:39-41 | every byte of an encoded string is unreserved, `%`, or a hex digit |
| UriUtils.ComponentSafeIsPathSafe | tensorstore/internal/uri_utils.h:71-87 | a string that component-encoding leaves unchanged, path-encoding leaves unchanged too |
| UriUtils.Decode | tensorstore/internal/uri_utils.h:89-94 | the decoding is never longer than its input; its fixed points are `DecodeFixedPoint` and `DecodeWithoutPercent` |
| UriUtils.DecodeEncode | tensorstore/internal/uri_utils.h:89-100 | decoding undoes encoding whenever `%` is not unreserved |
| UriUtils.DecodeFixedPoint | tensorstore/internal/uri_utils.h:89-92 | decoding leaves a string unchanged exactly when no `%` in it is followed by two hex digits, so a stray `%` is kept |
| UriUtils.DecodeWithoutPercent | tensorstore/internal/uri_utils.h:89-92 | a string without `%` decodes to itself |
| UriUtils.PercentEncodeReservedInto | tensorstore/internal/uri_utils.h:39-41 | the buffer afterwards holds its old contents followed by the encoding of `src` |
| UriUtils.PercentEncodeReserved | tensorstore/internal/uri_utils.h:42-47 | returns the encoding of `src`, which decodes back to `src` when `%` is not unreserved |
| UriUtils.PercentEncodeUriPath | tensorstore/internal/uri_utils.h:71-73 | returns `src` encoded with respect to the path set, which decodes back to `src` |
| UriUtils.PercentEncodeUriComponent | tensorstore/internal/uri_utils.h:85-87 | returns `src` encoded with respect to the unreserved set, which decodes back to `src` |
| UriUtils.PercentDecodeAppend | tensorstore/internal/uri_utils.h:89-94 | the buffer afterwards holds its old contents followed by the decoding of `src` |
| UriUtils.PercentDecode | tensorstore/internal/uri_utils.h:96-100 | returns the decoding of `src` |
| UriUtils.SplitFirst | tensorstore/internal/uri_utils.h:105-116 | the part before the split holds no delimiter, and joining the parts back at the delimiter gives the string |
| UriUtils.SplitFirstJoin | tensorstore/internal/uri_utils.h:105-116 | splitting at the first delimiter undoes joining at it a part without the delimiter |
| UriUtils.IndexOf | tensorstore/internal/uri_utils.h:105-116 | the result is the position of the first occurrence, or the length when there is none |
| UriUtils.FindSeparator | tensorstore/internal/uri_utils.h:103-104 | the result is the first position where `://` starts, or none when it does not occur |
| UriUtils.SplitRestParts | tensorstore/internal/uri_utils.h:105-116 | what follows the scheme is spelled back by its authority-and-path, query and fragment, which are well formed |
| UriUtils.SplitRestUnparse | tensorstore/internal/uri_utils.h:105-116 | well-formed parts after the scheme are what their spelling splits into |
| UriUtils.ParseGenericUri | tensorstore/internal/uri_utils.h:102-122 | the authority-and-path holds no `?` or `#`, the query no `#`; the authority holds no `/`, authority plus path is the authority-and-path, and the path is empty or starts with `/`; the full round trip is `ParseGenericUriParts` and `ParseGenericUriUnparse` |
| UriUtils.ParseGenericUriParts | tensorstore/internal/uri_utils.h:102-122 | every URI is spelled back by its scheme, authority and path, query and fragment; these are well formed, so the scheme precedes the first `://`, authority plus path is the authority-and-path, the path is empty or starts with `/`, and the query lies between the first `?` and the first `#` |
| UriUtils.ParseGenericUriUnparse | tensorstore/internal/uri_utils.h:102-122 | well-formed parts are exactly what their URI parses into, so the split is unique |

## Left out

- `tensorstore/internal/multi_barrier.cc`: thread synchronisation under a mutex; concurrency is not modelled.
- The index-transform library: transform builders, broadcasting, `Finalize`, and the matchers of the test framework. Transforms are a small closed datatype (`Transforms.Transform`). Each index array varies over exactly one input dimension, as in every test.
- Unbounded input domains and overflow of 64-bit indices. Domains are finite intervals and integers are unbounded.
- The internal data structures of the partitioner: how buckets and connected sets are stored, and the union-find over input dimensions. Only the observable output and its order are modelled. Because each index array reads one input dimension, connected sets are one per read input dimension.
- `PrePartitionIndexTransformOverGrid` as a separate step. It is folded into `GridPartition.Partition` and `CellRanges.GridCellRanges`, and its errors (invalid transforms) are excluded by `Transforms.ValidQuery`.
- `CellRanges.InnerIntervals`: a strided single-input inner dimension is reported as one interval, from the cell of its least to the cell of its greatest output index. Cells a large stride skips over are included.
- `CellRanges.GridCellRanges`: boxes are stated to come in ascending order of their origins, the order every test observes. The order of the underlying enumeration is not otherwise constrained.
- The visitor is a total function value returning a status. Side effects of the visitor, and visitors that depend on earlier calls, are not modelled.
- `uri_utils.cc` is not part of this model. The encoder, decoder and parser follow the contracts in `uri_utils.h`.
- UriUtils.EncodeByte: the header does not fix the case of the hex digits; the model emits upper-case digits. Decoding accepts both cases, so no proved property depends on the choice.
- UriUtils.PercentEncodeReservedInto: the header does not say whether `dest` is overwritten or appended to. The model appends. The wrappers start from an empty buffer, so they return the same either way.
- UriUtils.PercentDecodeAppend: the header's comment says the result is assigned to `dest`, while the name says appended. The model appends. `PercentDecode` starts from an empty buffer, so it is unaffected.
- UriUtils.ParseGenericUri: the header says "authority portion" without fixing the split of authority and path. The model splits at the first `/`, which keeps the stated rule that a non-empty path begins with `/`. The scheme split is done first, so a `?` or `#` before the first `://` belongs to the scheme.
- CellRanges.GridCellRanges: on a domain with an empty input dimension no box is reported. `GridPartition.Partition` still emits parts when every empty input dimension is one that no grid dimension reads, because such a dimension is not in any connected set; those parts' cell transforms then cover no point. No test fixes either case.
- `AsciiSet` internals: character sets are `set<char>`. Strings are byte strings (`UriUtils.Byte`, characters below 256); UTF-8 is not interpreted.
