/**
 * Grid mappings: which grid cell an output index falls in, along one grid
 * dimension, and the inverse, the output interval a cell covers.  A regular
 * grid has a fixed positive cell size per dimension; an irregular grid has a
 * strictly increasing list of split points per dimension.
 */
module GridMapping {
  import opened Options
  import opened Intervals

  datatype Grid =
    | Regular(cellShape: seq<int>)
    | Irregular(splitPoints: seq<seq<int>>)
  {
    function Rank(): nat {
      match this
      case Regular(shape) => |shape|
      case Irregular(points) => |points|
    }
  }

  predicate StrictlyIncreasing(s: seq<int>) {
    forall i, j :: 0 <= i < j < |s| ==> s[i] < s[j]
  }

  predicate ValidGrid(grid: Grid) {
    match grid
    case Regular(shape) => forall g :: 0 <= g < |shape| ==> shape[g] > 0
    case Irregular(points) => forall g :: 0 <= g < |points| ==> StrictlyIncreasing(points[g])
  }

  /** The number of split points that are at most `v`. */
  function CountAtMost(points: seq<int>, v: int): (k: nat)
    ensures k <= |points|
  {
    if points == [] then 0
    else (if points[0] <= v then 1 else 0) + CountAtMost(points[1..], v)
  }

  /**
   * The grid cell index of output index `v` along grid dimension `g`.  Regular:
   * floor division by the cell size (Dafny's `/` by a positive divisor rounds
   * toward negative infinity).  Irregular: one less than the number of split
   * points at most `v`, so values below the first split point are cell -1.
   */
  function CellOf(grid: Grid, g: nat, v: int): int
    requires ValidGrid(grid) && g < grid.Rank()
  {
    match grid
    case Regular(shape) => v / shape[g]
    case Irregular(points) => CountAtMost(points[g], v) - 1
  }

  /** The output interval that grid cell `c` covers along grid dimension `g`. */
  function CellOutputInterval(grid: Grid, g: nat, c: int): HalfOpen
    requires ValidGrid(grid) && g < grid.Rank()
  {
    match grid
    case Regular(shape) => HalfOpen(Some(c * shape[g]), Some(c * shape[g] + shape[g]))
    case Irregular(points) =>
      var p := points[g];
      if c < -1 || c >= |p| then Nothing
      else HalfOpen(if c == -1 then None else Some(p[c]),
                    if c + 1 < |p| then Some(p[c + 1]) else None)
  }

  lemma {:induction false} CountAtMostPosition(points: seq<int>, v: int)
    requires StrictlyIncreasing(points)
    ensures var k := CountAtMost(points, v);
            (k > 0 ==> points[k - 1] <= v) && (k < |points| ==> v < points[k])
  {
    if points != [] {
      CountAtMostPosition(points[1..], v);
      if points[0] > v {
        AllAbove(points[1..], v);
      }
    }
  }

  lemma {:induction false} AllAbove(points: seq<int>, v: int)
    requires forall i :: 0 <= i < |points| ==> v < points[i]
    ensures CountAtMost(points, v) == 0
  {
    if points != [] {
      AllAbove(points[1..], v);
    }
  }

  /** The number of split points at most `v` is the position `k` that `v` sorts into. */
  lemma CountAtMostUnique(points: seq<int>, v: int, k: nat)
    requires StrictlyIncreasing(points) && k <= |points|
    requires k > 0 ==> points[k - 1] <= v
    requires k < |points| ==> v < points[k]
    ensures CountAtMost(points, v) == k
  {
    CountAtMostPosition(points, v);
  }

  /**
   * Round trip between the two directions of a grid mapping: `v` lies in the
   * output interval of cell `c` exactly when `c` is the cell of `v`.
   */
  lemma CellOutputIntervalExact(grid: Grid, g: nat, c: int, v: int)
    requires ValidGrid(grid) && g < grid.Rank()
    ensures CellOutputInterval(grid, g, c).Contains(v) <==> CellOf(grid, g, v) == c
  {
    match grid
    case Regular(shape) =>
      var s := shape[g];
      FloorDivLe(s, v, c);
      FloorDivLe(s, v, c + 1);
      assert s * c == c * s && s * (c + 1) == c * s + s;
    case Irregular(points) =>
      var p := points[g];
      CountAtMostPosition(p, v);
      if -1 <= c < |p| && CellOutputInterval(grid, g, c).Contains(v) {
        CountAtMostUnique(p, v, c + 1);
      }
  }

  lemma {:induction false} CountAtMostMonotone(points: seq<int>, v: int, w: int)
    requires v <= w
    ensures CountAtMost(points, v) <= CountAtMost(points, w)
  {
    if points != [] {
      CountAtMostMonotone(points[1..], v, w);
    }
  }

  /** Cell indices never decrease as the output index grows. */
  lemma CellOfMonotone(grid: Grid, g: nat, v: int, w: int)
    requires ValidGrid(grid) && g < grid.Rank() && v <= w
    ensures CellOf(grid, g, v) <= CellOf(grid, g, w)
  {
    match grid
    case Regular(shape) =>
      var s := shape[g];
      FloorDivLe(s, w, v / s);
      assert s * (v / s) <= v by { FloorDivLe(s, v, v / s); }
    case Irregular(points) =>
      CountAtMostMonotone(points[g], v, w);
  }
}
