/**
 * The index transforms the partitioning works on, and the cell transforms it
 * produces.  A transform maps points of its input domain (a box given by an
 * origin and shape per input dimension) to output indices, one output index
 * map per output dimension.  Every `IndexArray` map here varies over a single
 * input dimension: its `values` are indexed by position in that dimension.
 */
module Transforms {
  import opened Options
  import opened Intervals
  import opened GridMapping

  datatype OutputMap =
    | Constant(offset: int)
    | SingleInputDimension(offset: int, stride: int, inputDim: nat)
    | IndexArray(offset: int, stride: int, inputDim: nat, values: seq<int>)
  {
    function InputDim(): Option<nat> {
      if Constant? then None else Some(inputDim)
    }
  }

  datatype Transform = Transform(domain: seq<Interval>, outputs: seq<OutputMap>)

  predicate ValidMap(m: OutputMap, domain: seq<Interval>) {
    match m
    case Constant(_) => true
    case SingleInputDimension(_, _, d) => d < |domain|
    case IndexArray(_, _, d, values) => d < |domain| && |values| == domain[d].size
  }

  predicate ValidTransform(t: Transform) {
    forall o :: 0 <= o < |t.outputs| ==> ValidMap(t.outputs[o], t.domain)
  }

  predicate InDomain(domain: seq<Interval>, x: seq<int>) {
    |x| == |domain| && forall i :: 0 <= i < |x| ==> domain[i].Contains(x[i])
  }

  /** The output index of a non-constant map when its input dimension has index `v`. */
  function ValueAt(m: OutputMap, domain: seq<Interval>, v: int): int
    requires ValidMap(m, domain) && !m.Constant? && domain[m.inputDim].Contains(v)
  {
    match m
    case SingleInputDimension(offset, stride, _) => offset + stride * v
    case IndexArray(offset, stride, d, values) => offset + stride * values[v - domain[d].origin]
  }

  /** The output index of map `m` at input point `x`. */
  function OutputValue(m: OutputMap, domain: seq<Interval>, x: seq<int>): int
    requires ValidMap(m, domain) && InDomain(domain, x)
  {
    if m.Constant? then m.offset else ValueAt(m, domain, x[m.inputDim])
  }

  /**
   * A partitioning problem: a transform, the output dimensions that are
   * gridded (grid dimension `g` is output dimension `gridOutputDims[g]`) and
   * the grid mapping.
   */
  datatype GridQuery = GridQuery(transform: Transform, gridOutputDims: seq<nat>, grid: Grid) {
    function GridRank(): nat { |gridOutputDims| }

    function GridMap(g: nat): OutputMap
      requires g < |gridOutputDims| && gridOutputDims[g] < |transform.outputs|
    {
      transform.outputs[gridOutputDims[g]]
    }
  }

  predicate ValidQuery(q: GridQuery) {
    && ValidTransform(q.transform)
    && ValidGrid(q.grid)
    && q.grid.Rank() == |q.gridOutputDims|
    && forall g :: 0 <= g < |q.gridOutputDims| ==> q.gridOutputDims[g] < |q.transform.outputs|
  }

  /** The grid cell index along grid dimension `g` of the image of input point `x`. */
  function GridCell(q: GridQuery, g: nat, x: seq<int>): int
    requires ValidQuery(q) && g < q.GridRank() && InDomain(q.transform.domain, x)
  {
    CellOf(q.grid, g, OutputValue(q.GridMap(g), q.transform.domain, x))
  }

  /** The grid cell (one index per grid dimension) that input point `x` maps into. */
  function CellTuple(q: GridQuery, x: seq<int>): (c: seq<int>)
    requires ValidQuery(q) && InDomain(q.transform.domain, x)
    ensures |c| == q.GridRank()
  {
    seq(q.GridRank(), g requires 0 <= g < q.GridRank() => GridCell(q, g, x))
  }

  predicate NonEmptyDomain(domain: seq<Interval>) {
    forall i :: 0 <= i < |domain| ==> domain[i].size > 0
  }

  /**
   * A cell transform maps a new input space back into the original input
   * space.  Output dimension `i` (original input dimension `i`) is either the
   * new input dimension `inputDim` itself, or the array `values` indexed by
   * new input dimension `inputDim` (offset 0 and stride 1 in both cases).
   */
  datatype CellOutput = SingleInput(inputDim: nat) | Indexed(inputDim: nat, values: seq<int>)

  datatype CellTransform = CellTransform(domain: seq<Interval>, outputs: seq<CellOutput>)

  /**
   * Original input index `v` is reached through output `i` of `ct`.  Every new
   * input dimension feeds exactly one output, so the image of the cell domain
   * is the product of these per-output images.
   */
  predicate OutputReaches(ct: CellTransform, i: nat, v: int)
    requires i < |ct.outputs|
  {
    match ct.outputs[i]
    case SingleInput(j) => j < |ct.domain| && ct.domain[j].Contains(v)
    case Indexed(_, values) => v in values
  }

  /** Original input point `x` is the image of some point of the cell domain. */
  predicate Covers(ct: CellTransform, x: seq<int>) {
    |x| == |ct.outputs| && forall i :: 0 <= i < |x| ==> OutputReaches(ct, i, x[i])
  }
}
