/**
 * Partitioning one connected set.  The set reads a single input dimension;
 * each index along it maps to a tuple of grid cell indices, one per grid
 * dimension of the set.  A piece of the partition pairs such a tuple with the
 * input indices that map to it: a run (an interval) for an affine set, a
 * group (an ascending list of indices) for an array-backed set.
 */
module SetPartition {
  import opened Options
  import opened Intervals
  import opened GridMapping
  import opened LexOrder
  import opened Transforms
  import opened ConnectedSetAnalysis

  datatype Selection = Run(interval: Interval) | Group(positions: seq<int>)

  datatype Piece = Piece(cells: seq<int>, selection: Selection)

  predicate Holds(sel: Selection, v: int) {
    match sel
    case Run(interval) => interval.Contains(v)
    case Group(positions) => v in positions
  }

  /** `s` is a connected set of `q` whose maps all read `s.inputDim`. */
  predicate ValidSet(q: GridQuery, s: ConnectedSet) {
    && ValidQuery(q)
    && s.inputDim < |q.transform.domain|
    && (forall j :: 0 <= j < |s.gridDims| ==>
          s.gridDims[j] < q.GridRank() && q.GridMap(s.gridDims[j]).InputDim() == Some(s.inputDim))
    && (!s.arrayBacked ==> forall j :: 0 <= j < |s.gridDims| ==> q.GridMap(s.gridDims[j]).SingleInputDimension?)
  }

  lemma SetOfIsValid(q: GridQuery, s: ConnectedSet)
    requires ValidQuery(q) && SetOf(q, s)
    ensures ValidSet(q, s)
  {
    SetForExact(q, s.inputDim);
    forall j | 0 <= j < |s.gridDims|
      ensures s.gridDims[j] < q.GridRank() && q.GridMap(s.gridDims[j]).InputDim() == Some(s.inputDim)
    {
      assert s.gridDims[j] in s.gridDims;
    }
    if !s.arrayBacked {
      forall j | 0 <= j < |s.gridDims| ensures q.GridMap(s.gridDims[j]).SingleInputDimension? {
        assert s.gridDims[j] in s.gridDims;
      }
    }
  }

  function SetDomain(q: GridQuery, s: ConnectedSet): Interval
    requires ValidSet(q, s)
  {
    q.transform.domain[s.inputDim]
  }

  /** The cell tuple of the set's grid dimensions at index `v` of its input dimension. */
  function SetCells(q: GridQuery, s: ConnectedSet, v: int): (c: seq<int>)
    requires ValidSet(q, s) && SetDomain(q, s).Contains(v)
    ensures |c| == |s.gridDims|
  {
    seq(|s.gridDims|, j requires 0 <= j < |s.gridDims| =>
      CellOf(q.grid, s.gridDims[j], ValueAt(q.GridMap(s.gridDims[j]), q.transform.domain, v)))
  }

  /** One entry of `SetCells`, unfolded. */
  lemma SetCellsAt(q: GridQuery, s: ConnectedSet, v: int, j: nat)
    requires ValidSet(q, s) && SetDomain(q, s).Contains(v) && j < |s.gridDims|
    ensures SetCells(q, s, v)[j] ==
              CellOf(q.grid, s.gridDims[j], ValueAt(q.GridMap(s.gridDims[j]), q.transform.domain, v))
  {
  }

  // ---------------------------------------------------------------------------
  // Affine sets: the input interval of a cell, in closed form.

  /** The inputs whose first `k` maps land in the cells `c[..k]`. */
  function PreimagePrefix(q: GridQuery, s: ConnectedSet, c: seq<int>, k: nat): HalfOpen
    requires ValidSet(q, s) && !s.arrayBacked && |c| == |s.gridDims| && k <= |c|
  {
    if k == 0 then Everything
    else
      var g := s.gridDims[k - 1];
      var m := q.GridMap(g);
      Intersect(PreimagePrefix(q, s, c, k - 1),
                AffinePreimage(m.offset, m.stride, CellOutputInterval(q.grid, g, c[k - 1])))
  }

  /**
   * The input interval of an affine set that maps into the cell tuple `c`:
   * the intersection, over the set's maps, of the preimage of the cell's
   * output interval, clipped to the input domain.
   */
  function CellInputInterval(q: GridQuery, s: ConnectedSet, c: seq<int>): Interval
    requires ValidSet(q, s) && !s.arrayBacked && |c| == |s.gridDims|
  {
    Clip(SetDomain(q, s), PreimagePrefix(q, s, c, |c|))
  }

  /** One step of the preimage: the `k`-th map lands in `c[k - 1]`. */
  lemma PreimagePrefixStep(q: GridQuery, s: ConnectedSet, c: seq<int>, k: nat, v: int)
    requires ValidSet(q, s) && !s.arrayBacked && |c| == |s.gridDims| && 0 < k <= |c|
    requires SetDomain(q, s).Contains(v)
    ensures PreimagePrefix(q, s, c, k).Contains(v) <==>
              PreimagePrefix(q, s, c, k - 1).Contains(v) && SetCells(q, s, v)[k - 1] == c[k - 1]
  {
    var g := s.gridDims[k - 1];
    var m := q.GridMap(g);
    var out := m.offset + m.stride * v;
    var cell := CellOutputInterval(q.grid, g, c[k - 1]);
    AffinePreimageExact(m.offset, m.stride, cell, v);
    CellOutputIntervalExact(q.grid, g, c[k - 1], out);
    SetCellsAt(q, s, v, k - 1);
    assert ValueAt(m, q.transform.domain, v) == out;
    assert PreimagePrefix(q, s, c, k) == Intersect(PreimagePrefix(q, s, c, k - 1), AffinePreimage(m.offset, m.stride, cell));
  }

  /** Two sequences agree below `k` when they agree below `k - 1` and at `k - 1`. */
  lemma AgreeUpToStep(a: seq<int>, b: seq<int>, k: nat)
    requires 0 < k <= |a| && k <= |b|
    ensures (forall j :: 0 <= j < k ==> a[j] == b[j]) <==>
            (forall j :: 0 <= j < k - 1 ==> a[j] == b[j]) && a[k - 1] == b[k - 1]
  {
  }

  /** The preimage of the first `k` cells holds exactly the inputs that map into them. */
  lemma {:induction false} PreimagePrefixExact(q: GridQuery, s: ConnectedSet, c: seq<int>, k: nat, v: int)
    requires ValidSet(q, s) && !s.arrayBacked && |c| == |s.gridDims| && k <= |c|
    requires SetDomain(q, s).Contains(v)
    ensures PreimagePrefix(q, s, c, k).Contains(v) <==>
              forall j :: 0 <= j < k ==> SetCells(q, s, v)[j] == c[j]
  {
    if k > 0 {
      PreimagePrefixExact(q, s, c, k - 1, v);
      PreimagePrefixStep(q, s, c, k, v);
      AgreeUpToStep(SetCells(q, s, v), c, k);
    }
  }

  /** An input index lies in the input interval of `c` exactly when it maps into `c`. */
  lemma CellInputIntervalExact(q: GridQuery, s: ConnectedSet, c: seq<int>, v: int)
    requires ValidSet(q, s) && !s.arrayBacked && |c| == |s.gridDims|
    ensures CellInputInterval(q, s, c).Contains(v) <==>
              SetDomain(q, s).Contains(v) && SetCells(q, s, v) == c
  {
    if SetDomain(q, s).Contains(v) {
      PreimagePrefixExact(q, s, c, |c|, v);
    }
  }

  // ---------------------------------------------------------------------------
  // Array-backed sets: the input indices of a cell, by enumeration.

  /** The first `k` indices of the set's input domain that map into `c`, ascending. */
  function MatchingPositions(q: GridQuery, s: ConnectedSet, c: seq<int>, k: nat): (r: seq<int>)
    requires ValidSet(q, s) && k <= SetDomain(q, s).size
    ensures forall v :: v in r <==> SetDomain(q, s).origin <= v < SetDomain(q, s).origin + k && SetCells(q, s, v) == c
    ensures forall i, j :: 0 <= i < j < |r| ==> r[i] < r[j]
  {
    if k == 0 then []
    else
      var prev := MatchingPositions(q, s, c, k - 1);
      var v := SetDomain(q, s).origin + k - 1;
      if SetCells(q, s, v) == c then
        assert forall i :: 0 <= i < |prev| ==> prev[i] in prev;
        prev + [v]
      else prev
  }

  /**
   * The piece of cell tuple `c`: for an affine set its input interval, for an
   * array-backed set the ascending list of input indices mapping into `c`.
   */
  function CellPiece(q: GridQuery, s: ConnectedSet, c: seq<int>): Piece
    requires ValidSet(q, s) && |c| == |s.gridDims|
  {
    if s.arrayBacked then Piece(c, Group(MatchingPositions(q, s, c, SetDomain(q, s).size)))
    else Piece(c, Run(CellInputInterval(q, s, c)))
  }

  /** The piece of `c` holds exactly the input indices that map into `c`. */
  lemma CellPieceExact(q: GridQuery, s: ConnectedSet, c: seq<int>, v: int)
    requires ValidSet(q, s) && |c| == |s.gridDims|
    ensures Holds(CellPiece(q, s, c).selection, v) <==>
              SetDomain(q, s).Contains(v) && SetCells(q, s, v) == c
  {
    if !s.arrayBacked {
      CellInputIntervalExact(q, s, c, v);
    }
  }

  // ---------------------------------------------------------------------------
  // Affine sets: the runs, in ascending input order.

  predicate IsCellPiece(q: GridQuery, s: ConnectedSet, p: Piece)
    requires ValidSet(q, s)
  {
    |p.cells| == |s.gridDims| && p == CellPiece(q, s, p.cells)
  }

  /** `runs` are non-empty intervals, each starting where the previous ends, tiling `[x, hi)`. */
  predicate Tiles(runs: seq<Piece>, x: int, hi: int) {
    && (forall k :: 0 <= k < |runs| ==> runs[k].selection.Run? && runs[k].selection.interval.size > 0)
    && (runs == [] <==> x == hi)
    && (runs != [] ==> runs[0].selection.interval.origin == x &&
                       runs[|runs| - 1].selection.interval.Hi() == hi)
    && (forall k :: 0 <= k < |runs| - 1 ==>
          runs[k].selection.interval.Hi() == runs[k + 1].selection.interval.origin)
  }

  /** Input index `x` of an affine set starts a run: it is an end of the domain, or the cell tuple changes at it. */
  predicate StartsRun(q: GridQuery, s: ConnectedSet, x: int)
    requires ValidSet(q, s)
  {
    var dom := SetDomain(q, s);
    && dom.origin <= x <= dom.Hi()
    && (x == dom.origin || x == dom.Hi() || SetCells(q, s, x - 1) != SetCells(q, s, x))
  }

  /**
   * The input interval of the cell tuple at a run start `x` inside the
   * domain starts at `x`, is not empty, and ends at the next run start.
   */
  lemma RunAt(q: GridQuery, s: ConnectedSet, x: int)
    requires ValidSet(q, s) && !s.arrayBacked
    requires StartsRun(q, s, x) && x < SetDomain(q, s).Hi()
    ensures var run := CellInputInterval(q, s, SetCells(q, s, x));
            run.origin == x && run.size > 0 && StartsRun(q, s, run.Hi())
  {
    var c := SetCells(q, s, x);
    var run := CellInputInterval(q, s, c);
    CellInputIntervalExact(q, s, c, x);
    CellInputIntervalExact(q, s, c, run.Hi());
    CellInputIntervalExact(q, s, c, run.Hi() - 1);
    CellInputIntervalExact(q, s, c, x - 1);
  }

  /**
   * The runs of an affine set from run start `x` on: the maximal intervals
   * on which every map of the set stays in one grid cell.  Each run is the
   * input interval of the cell tuple at its first index; the next run starts
   * where it ends.
   */
  function RunsFrom(q: GridQuery, s: ConnectedSet, x: int): (runs: seq<Piece>)
    requires ValidSet(q, s) && !s.arrayBacked && StartsRun(q, s, x)
    ensures Tiles(runs, x, SetDomain(q, s).Hi())
    ensures forall k :: 0 <= k < |runs| ==> IsCellPiece(q, s, runs[k])
    decreases SetDomain(q, s).Hi() - x
  {
    if x == SetDomain(q, s).Hi() then []
    else
      var c := SetCells(q, s, x);
      var run := CellInputInterval(q, s, c);
      RunAt(q, s, x);
      var rest := RunsFrom(q, s, run.Hi());
      TilesCons(Piece(c, Run(run)), rest, SetDomain(q, s).Hi());
      [Piece(c, Run(run))] + rest
  }

  /** A non-empty run followed by a tiling from its end tiles from its start. */
  lemma TilesCons(p: Piece, rest: seq<Piece>, hi: int)
    requires p.selection.Run? && p.selection.interval.size > 0 && p.selection.interval.Hi() <= hi
    requires Tiles(rest, p.selection.interval.Hi(), hi)
    ensures Tiles([p] + rest, p.selection.interval.origin, hi)
  {
    var runs := [p] + rest;
    forall k | 0 <= k < |runs| - 1
      ensures runs[k].selection.interval.Hi() == runs[k + 1].selection.interval.origin
    {
      if k > 0 {
        assert runs[k] == rest[k - 1] && runs[k + 1] == rest[k];
      }
    }
  }

  function Runs(q: GridQuery, s: ConnectedSet): (runs: seq<Piece>)
    requires ValidSet(q, s) && !s.arrayBacked
    ensures Tiles(runs, SetDomain(q, s).origin, SetDomain(q, s).Hi())
    ensures forall k :: 0 <= k < |runs| ==> IsCellPiece(q, s, runs[k])
  {
    RunsFrom(q, s, SetDomain(q, s).origin)
  }

  lemma {:induction false} TilesOrdered(runs: seq<Piece>, x: int, hi: int, i: nat, j: nat)
    requires Tiles(runs, x, hi) && i < j < |runs|
    ensures runs[i].selection.interval.Hi() <= runs[j].selection.interval.origin
    decreases j - i
  {
    if i + 1 < j {
      TilesOrdered(runs, x, hi, i + 1, j);
    }
  }

  lemma {:induction false} TilesCover(runs: seq<Piece>, x: int, hi: int, v: int)
    requires Tiles(runs, x, hi) && x <= v < hi
    ensures exists k :: 0 <= k < |runs| && runs[k].selection.interval.Contains(v)
  {
    var first := runs[0].selection.interval;
    if !first.Contains(v) {
      var rest := runs[1..];
      assert Tiles(rest, first.Hi(), hi);
      TilesCover(rest, first.Hi(), hi, v);
      var k :| 0 <= k < |rest| && rest[k].selection.interval.Contains(v);
      assert runs[k + 1] == rest[k];
    }
  }

  // ---------------------------------------------------------------------------
  // Array-backed sets: the groups, in ascending order of their cell tuples.

  /** The cell tuples of the set's input indices, in input order. */
  function AllCells(q: GridQuery, s: ConnectedSet): (cells: seq<seq<int>>)
    requires ValidSet(q, s)
    ensures SameLength(cells, |s.gridDims|)
  {
    var dom := SetDomain(q, s);
    var cells := seq(dom.size, i requires 0 <= i < dom.size => SetCells(q, s, dom.origin + i));
    forall i | 0 <= i < |cells| ensures |cells[i]| == |s.gridDims| {
      assert cells[i] == SetCells(q, s, dom.origin + i);
    }
    cells
  }

  /** The cell tuples of the set's input indices are exactly the tuples some domain index maps into. */
  lemma AllCellsExact(q: GridQuery, s: ConnectedSet)
    requires ValidSet(q, s)
    ensures forall c :: c in AllCells(q, s) <==> exists v :: SetDomain(q, s).Contains(v) && SetCells(q, s, v) == c
  {
    var all := AllCells(q, s);
    var dom := SetDomain(q, s);
    forall c ensures c in all <==> exists v :: dom.Contains(v) && SetCells(q, s, v) == c {
      if c in all {
        var i :| 0 <= i < |all| && all[i] == c;
        assert dom.Contains(dom.origin + i);
      }
      if exists v :: dom.Contains(v) && SetCells(q, s, v) == c {
        var v :| dom.Contains(v) && SetCells(q, s, v) == c;
        assert all[v - dom.origin] == c;
      }
    }
  }

  /** The distinct cell tuples an array-backed set touches, ascending lexicographically. */
  function GroupKeys(q: GridQuery, s: ConnectedSet): (keys: seq<seq<int>>)
    requires ValidSet(q, s)
    ensures SortedStrict(keys) && SameLength(keys, |s.gridDims|)
    ensures forall c :: c in keys <==> exists v :: SetDomain(q, s).Contains(v) && SetCells(q, s, v) == c
  {
    var all := AllCells(q, s);
    SortedDistinctCorrect(all, |s.gridDims|);
    AllCellsExact(q, s);
    SortedDistinct(all)
  }

  /**
   * The groups of an array-backed set: one per touched cell tuple, in
   * ascending lexicographic order of the tuples, each holding the input
   * indices that map into its tuple in ascending order.
   */
  function Groups(q: GridQuery, s: ConnectedSet): (groups: seq<Piece>)
    requires ValidSet(q, s)
  {
    var keys := GroupKeys(q, s);
    seq(|keys|, k requires 0 <= k < |keys| => CellPiece(q, s, keys[k]))
  }

  // ---------------------------------------------------------------------------
  // Both kinds.

  /** The pieces of a set, in the order they are enumerated. */
  function Pieces(q: GridQuery, s: ConnectedSet): seq<Piece>
    requires ValidSet(q, s)
  {
    if s.arrayBacked then Groups(q, s) else Runs(q, s)
  }

  /**
   * The pieces of a set are cell pieces with pairwise different cell tuples,
   * and every index of the set's input domain is held by one of them.
   */
  ghost predicate ExactPieces(q: GridQuery, s: ConnectedSet, pieces: seq<Piece>)
    requires ValidSet(q, s)
  {
    && (forall k :: 0 <= k < |pieces| ==> IsCellPiece(q, s, pieces[k]))
    && (forall v :: SetDomain(q, s).Contains(v) ==>
          exists k :: 0 <= k < |pieces| && Holds(pieces[k].selection, v))
    && (forall i, j :: 0 <= i < j < |pieces| ==> pieces[i].cells != pieces[j].cells)
  }

  lemma RunsExact(q: GridQuery, s: ConnectedSet)
    requires ValidSet(q, s) && !s.arrayBacked
    ensures ExactPieces(q, s, Runs(q, s))
  {
    var runs := Runs(q, s);
    var dom := SetDomain(q, s);
    forall v | dom.Contains(v) ensures exists k :: 0 <= k < |runs| && Holds(runs[k].selection, v) {
      TilesCover(runs, dom.origin, dom.Hi(), v);
    }
    forall i, j | 0 <= i < j < |runs| ensures runs[i].cells != runs[j].cells {
      TilesOrdered(runs, dom.origin, dom.Hi(), i, j);
    }
  }

  lemma GroupsExact(q: GridQuery, s: ConnectedSet)
    requires ValidSet(q, s) && s.arrayBacked
    ensures ExactPieces(q, s, Groups(q, s))
  {
    var groups := Groups(q, s);
    var keys := GroupKeys(q, s);
    forall v | SetDomain(q, s).Contains(v)
      ensures exists k :: 0 <= k < |groups| && Holds(groups[k].selection, v)
    {
      var c := SetCells(q, s, v);
      assert c in keys;
      var k :| 0 <= k < |keys| && keys[k] == c;
      CellPieceExact(q, s, c, v);
      assert Holds(groups[k].selection, v);
    }
    forall i, j | 0 <= i < j < |groups| ensures groups[i].cells != groups[j].cells {
      SortedStrictDistinct(keys, i, j);
    }
  }

  lemma PiecesExact(q: GridQuery, s: ConnectedSet)
    requires ValidSet(q, s)
    ensures ExactPieces(q, s, Pieces(q, s))
  {
    if s.arrayBacked { GroupsExact(q, s); } else { RunsExact(q, s); }
  }
}
