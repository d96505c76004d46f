/**
 * Partitioning an index transform over a grid.  Every connected set is
 * partitioned on its own (runs for affine sets, groups for array-backed
 * sets); the partition of the whole transform is the cartesian product of
 * those, in nested-loop order with the first connected set outermost.  Each
 * element of the product yields a grid cell index vector and a cell
 * transform, which are handed to a visitor.
 */
module GridPartition {
  import opened Options
  import opened Intervals
  import opened GridMapping
  import opened Transforms
  import opened ConnectedSetAnalysis
  import opened SetPartition
  import opened Products
  import opened CellLayout
  import opened Visitors

  // ---------------------------------------------------------------------------
  // Looking up sets and grid dimensions.

  /** The first connected set over input dimension `d`, or `|sets|` when there is none. */
  function FindSet(sets: seq<ConnectedSet>, d: nat): (k: nat)
    ensures k <= |sets|
    ensures k < |sets| ==> sets[k].inputDim == d
    ensures forall j :: 0 <= j < k ==> sets[j].inputDim != d
  {
    if sets == [] then 0
    else if sets[0].inputDim == d then 0
    else 1 + FindSet(sets[1..], d)
  }

  /** The first position of `g` in `dims`, or `|dims|` when it is absent. */
  function IndexIn(dims: seq<nat>, g: nat): (j: nat)
    ensures j <= |dims|
    ensures j < |dims| ==> dims[j] == g
    ensures forall i :: 0 <= i < j ==> dims[i] != g
  {
    if dims == [] then 0
    else if dims[0] == g then 0
    else 1 + IndexIn(dims[1..], g)
  }

  /** Every connected set of `q` is valid and lists its grid dimensions in ascending order. */
  lemma SetsValid(q: GridQuery)
    requires ValidQuery(q)
    ensures WellFormedSets(q, ConnectedSets(q))
    ensures var sets := ConnectedSets(q);
            forall k :: 0 <= k < |sets| ==> ValidSet(q, sets[k]) && StrictlyAscending(sets[k].gridDims)
  {
    var sets := ConnectedSets(q);
    ConnectedSetsWellFormed(q);
    forall k | 0 <= k < |sets| ensures ValidSet(q, sets[k]) && StrictlyAscending(sets[k].gridDims) {
      SetOfIsValid(q, sets[k]);
      SetForExact(q, sets[k].inputDim);
    }
  }

  /**
   * A grid dimension whose map is not constant belongs to the connected set
   * of the input dimension it reads.
   */
  lemma SetOfGridDim(q: GridQuery, g: nat)
    requires ValidQuery(q) && g < q.GridRank() && !q.GridMap(g).Constant?
    ensures var sets := ConnectedSets(q);
            var k := FindSet(sets, q.GridMap(g).inputDim);
            k < |sets| && IndexIn(sets[k].gridDims, g) < |sets[k].gridDims|
  {
    var sets := ConnectedSets(q);
    ConnectedSetsWellFormed(q);
    var d := q.GridMap(g).inputDim;
    var k0 :| 0 <= k0 < |sets| && sets[k0].inputDim == d;
    var k := FindSet(sets, d);
    assert k <= k0;
    assert SetOf(q, sets[k]);
    assert Reads(q, g, d);
    SetForExact(q, d);
    assert g in sets[k].gridDims;
  }

  /** In a list of distinct input dimensions, set `k` is the one found for its own input dimension. */
  lemma FindSetOwn(q: GridQuery, k: nat)
    requires ValidQuery(q) && k < |ConnectedSets(q)|
    ensures FindSet(ConnectedSets(q), ConnectedSets(q)[k].inputDim) == k
  {
    ConnectedSetsWellFormed(q);
  }

  lemma IndexInOwn(dims: seq<nat>, j: nat)
    requires StrictlyAscending(dims) && j < |dims|
    ensures IndexIn(dims, dims[j]) == j
  {
  }

  // ---------------------------------------------------------------------------
  // Entries of the product: one piece per connected set.

  /** `e` holds, for each connected set of `q`, a cell piece of that set. */
  ghost predicate EntryOk(q: GridQuery, e: seq<Piece>)
    requires ValidQuery(q)
  {
    var sets := ConnectedSets(q);
    && |e| == |sets|
    && forall k :: 0 <= k < |e| ==> ValidSet(q, sets[k]) && IsCellPiece(q, sets[k], e[k])
  }

  /** The cell index along grid dimension `g` of the cell that entry `e` stands for. */
  function AssembledCell(q: GridQuery, e: seq<Piece>, g: nat): int
    requires ValidQuery(q) && EntryOk(q, e) && g < q.GridRank()
  {
    var m := q.GridMap(g);
    if m.Constant? then CellOf(q.grid, g, m.offset)
    else
      var sets := ConnectedSets(q);
      SetOfGridDim(q, g);
      var k := FindSet(sets, m.inputDim);
      e[k].cells[IndexIn(sets[k].gridDims, g)]
  }

  /** The grid cell index vector of entry `e`. */
  function AssembleCells(q: GridQuery, e: seq<Piece>): (cells: seq<int>)
    requires ValidQuery(q) && EntryOk(q, e)
    ensures |cells| == q.GridRank()
  {
    seq(q.GridRank(), g requires 0 <= g < q.GridRank() => AssembledCell(q, e, g))
  }

  /** Grid dimension `gridDims[j]` of set `k` takes its cell index from `e[k].cells[j]`. */
  lemma AssembledAt(q: GridQuery, e: seq<Piece>, k: nat, j: nat)
    requires ValidQuery(q) && EntryOk(q, e) && k < |e|
    requires j < |ConnectedSets(q)[k].gridDims|
    ensures ConnectedSets(q)[k].gridDims[j] < q.GridRank()
    ensures AssembleCells(q, e)[ConnectedSets(q)[k].gridDims[j]] == e[k].cells[j]
  {
    var sets := ConnectedSets(q);
    SetsValid(q);
    var g := sets[k].gridDims[j];
    FindSetOwn(q, k);
    IndexInOwn(sets[k].gridDims, j);
    assert q.GridMap(g).InputDim() == Some(sets[k].inputDim);
  }

  /** Whether original input dimension `i` is the input dimension of an array-backed set. */
  predicate IsArrayDim(q: GridQuery, i: nat)
    requires ValidQuery(q)
  {
    var sets := ConnectedSets(q);
    var k := FindSet(sets, i);
    k < |sets| && sets[k].arrayBacked
  }

  /** The number of leading array-backed sets. */
  function ArrayCount(sets: seq<ConnectedSet>): (n: nat)
    ensures n <= |sets|
    ensures forall k :: 0 <= k < n ==> sets[k].arrayBacked
    ensures n < |sets| ==> !sets[n].arrayBacked
  {
    if sets == [] || !sets[0].arrayBacked then 0 else 1 + ArrayCount(sets[1..])
  }

  /** When array-backed sets come first, they are exactly the first `ArrayCount` ones. */
  lemma ArrayCountSplit(sets: seq<ConnectedSet>, k: nat)
    requires ArrayBackedFirst(sets) && k < |sets|
    ensures sets[k].arrayBacked <==> k < ArrayCount(sets)
  {
    var n := ArrayCount(sets);
    if n < k {
      assert !sets[n].arrayBacked;
    }
  }

  /** The array-backed connected sets are exactly the first `ArrayCount` ones. */
  lemma ArrayCountExact(q: GridQuery, k: nat)
    requires ValidQuery(q) && k < |ConnectedSets(q)|
    ensures ConnectedSets(q)[k].arrayBacked <==> k < ArrayCount(ConnectedSets(q))
  {
    ConnectedSetsWellFormed(q);
    ArrayCountSplit(ConnectedSets(q), k);
  }

  /** The input interval a cell transform gives original input dimension `i` when no array-backed set reads it. */
  function DimInterval(q: GridQuery, e: seq<Piece>, i: nat): Interval
    requires ValidQuery(q) && EntryOk(q, e) && i < |q.transform.domain|
    requires !IsArrayDim(q, i)
  {
    var sets := ConnectedSets(q);
    var k := FindSet(sets, i);
    if k < |sets| then
      assert e[k] == CellPiece(q, sets[k], e[k].cells);
      e[k].selection.interval
    else q.transform.domain[i]
  }

  /** The input positions of the group chosen for array-backed set `k`. */
  function GroupPositions(q: GridQuery, e: seq<Piece>, k: nat): seq<int>
    requires ValidQuery(q) && EntryOk(q, e) && k < |e| && ConnectedSets(q)[k].arrayBacked
  {
    var sets := ConnectedSets(q);
    assert e[k] == CellPiece(q, sets[k], e[k].cells);
    e[k].selection.positions
  }

  /** The groups of the array-backed sets chosen by `e`, in set order. */
  function EntryGroups(q: GridQuery, e: seq<Piece>): (groups: seq<seq<int>>)
    requires ValidQuery(q) && EntryOk(q, e)
    ensures |groups| == ArrayCount(ConnectedSets(q))
  {
    var n := ArrayCount(ConnectedSets(q));
    seq(n, k requires 0 <= k < n => GroupPositions(q, e, k))
  }

  /** The role of original input dimension `i` in the cell transform of `e`. */
  function EntryRole(q: GridQuery, e: seq<Piece>, i: nat): DimRole
    requires ValidQuery(q) && EntryOk(q, e) && i < |q.transform.domain|
  {
    if IsArrayDim(q, i) then ArrayDim(FindSet(ConnectedSets(q), i)) else FreeDim(DimInterval(q, e, i))
  }

  function EntryRoles(q: GridQuery, e: seq<Piece>): (roles: seq<DimRole>)
    requires ValidQuery(q) && EntryOk(q, e)
    ensures |roles| == |q.transform.domain|
  {
    var n := |q.transform.domain|;
    seq(n, i requires 0 <= i < n => EntryRole(q, e, i))
  }

  lemma EntryRolesValid(q: GridQuery, e: seq<Piece>)
    requires ValidQuery(q) && EntryOk(q, e)
    ensures ValidRoles(EntryGroups(q, e), EntryRoles(q, e))
  {
    var roles := EntryRoles(q, e);
    forall i | 0 <= i < |roles| && roles[i].ArrayDim? ensures roles[i].group < ArrayCount(ConnectedSets(q)) {
      ArrayCountExact(q, FindSet(ConnectedSets(q), i));
    }
  }

  /**
   * The cell transform of entry `e`.  Its new input space has one dimension
   * per array-backed set (origin 0, one index per input position of the
   * group), followed by the original input dimensions that no array-backed
   * set reads, in order (the run of an affine set, or the whole original
   * extent).  Output `i` gives original input index `i`.
   */
  function MakeCellTransform(q: GridQuery, e: seq<Piece>): (ct: CellTransform)
    requires ValidQuery(q) && EntryOk(q, e)
    ensures |ct.outputs| == |q.transform.domain|
    ensures WellFormedCellTransform(ct)
  {
    EntryRolesValid(q, e);
    BuildWellFormed(EntryGroups(q, e), EntryRoles(q, e));
    BuildCellTransform(EntryGroups(q, e), EntryRoles(q, e))
  }

  // ---------------------------------------------------------------------------
  // What a cell transform covers.

  /** Input point `x` lies in the domain and, for every set, maps into the cell tuple of `e`'s piece. */
  ghost predicate Matches(q: GridQuery, e: seq<Piece>, x: seq<int>)
    requires ValidQuery(q) && EntryOk(q, e)
  {
    var sets := ConnectedSets(q);
    && InDomain(q.transform.domain, x)
    && forall k :: 0 <= k < |sets| ==> SetCells(q, sets[k], x[sets[k].inputDim]) == e[k].cells
  }

  /** Output `i` of the cell transform of `e` reaches `v` exactly when `v` is an index of that dimension in the cell. */
  lemma ReachesAt(q: GridQuery, e: seq<Piece>, i: nat, v: int)
    requires ValidQuery(q) && EntryOk(q, e) && i < |q.transform.domain|
    ensures var sets := ConnectedSets(q);
            var k := FindSet(sets, i);
            OutputReaches(MakeCellTransform(q, e), i, v) <==>
              if k < |sets| then SetDomain(q, sets[k]).Contains(v) && SetCells(q, sets[k], v) == e[k].cells
              else q.transform.domain[i].Contains(v)
  {
    var sets := ConnectedSets(q);
    var k := FindSet(sets, i);
    var groups, roles := EntryGroups(q, e), EntryRoles(q, e);
    EntryRolesValid(q, e);
    BuildReaches(groups, roles, i, v);
    assert roles[i] == EntryRole(q, e, i);
    if k < |sets| {
      assert e[k] == CellPiece(q, sets[k], e[k].cells);
      CellPieceExact(q, sets[k], e[k].cells, v);
      if IsArrayDim(q, i) {
        ArrayCountExact(q, k);
        assert groups[k] == e[k].selection.positions;
      }
    }
  }

  /** The cell transform of `e` covers exactly the points that match `e`. */
  lemma CoversIffMatches(q: GridQuery, e: seq<Piece>, x: seq<int>)
    requires ValidQuery(q) && EntryOk(q, e) && |x| == |q.transform.domain|
    ensures Covers(MakeCellTransform(q, e), x) <==> Matches(q, e, x)
  {
    var sets := ConnectedSets(q);
    var ct := MakeCellTransform(q, e);
    forall i | 0 <= i < |x| {
      ReachesAt(q, e, i, x[i]);
    }
    if Covers(ct, x) {
      forall k | 0 <= k < |sets| ensures SetCells(q, sets[k], x[sets[k].inputDim]) == e[k].cells {
        FindSetOwn(q, k);
        assert OutputReaches(ct, sets[k].inputDim, x[sets[k].inputDim]);
      }
    }
    if Matches(q, e, x) {
      forall i | 0 <= i < |x| ensures OutputReaches(ct, i, x[i]) {
        assert q.transform.domain[i].Contains(x[i]);
      }
    }
  }

  /** A matching point lies in the assembled cell on every non-constant grid dimension `g`. */
  lemma MatchesCellAt(q: GridQuery, e: seq<Piece>, x: seq<int>, g: nat)
    requires ValidQuery(q) && EntryOk(q, e) && Matches(q, e, x)
    requires g < q.GridRank() && !q.GridMap(g).Constant?
    ensures GridCell(q, g, x) == AssembleCells(q, e)[g]
  {
    var sets := ConnectedSets(q);
    SetsValid(q);
    SetOfGridDim(q, g);
    var k := FindSet(sets, q.GridMap(g).inputDim);
    var j := IndexIn(sets[k].gridDims, g);
    AssembledAt(q, e, k, j);
    assert SetCells(q, sets[k], x[sets[k].inputDim])[j] == e[k].cells[j];
  }

  /** A domain point in the assembled cell on every non-constant grid dimension maps into the piece of set `k`. */
  lemma CellsMatchSet(q: GridQuery, e: seq<Piece>, x: seq<int>, k: nat)
    requires ValidQuery(q) && EntryOk(q, e) && InDomain(q.transform.domain, x)
    requires forall g :: 0 <= g < q.GridRank() && !q.GridMap(g).Constant? ==>
               GridCell(q, g, x) == AssembleCells(q, e)[g]
    requires k < |ConnectedSets(q)|
    ensures var s := ConnectedSets(q)[k];
            ValidSet(q, s) && SetCells(q, s, x[s.inputDim]) == e[k].cells
  {
    var sets := ConnectedSets(q);
    SetsValid(q);
    forall j | 0 <= j < |sets[k].gridDims|
      ensures SetCells(q, sets[k], x[sets[k].inputDim])[j] == e[k].cells[j]
    {
      AssembledAt(q, e, k, j);
      var g := sets[k].gridDims[j];
      assert q.GridMap(g).InputDim() == Some(sets[k].inputDim);
      assert GridCell(q, g, x) == AssembleCells(q, e)[g];
    }
  }

  /** A point of the domain matches `e` exactly when its grid cell agrees with `e` on every non-constant grid dimension. */
  lemma MatchesIffCells(q: GridQuery, e: seq<Piece>, x: seq<int>)
    requires ValidQuery(q) && EntryOk(q, e) && InDomain(q.transform.domain, x)
    ensures Matches(q, e, x) <==>
              forall g :: 0 <= g < q.GridRank() && !q.GridMap(g).Constant? ==>
                GridCell(q, g, x) == AssembleCells(q, e)[g]
  {
    if Matches(q, e, x) {
      forall g | 0 <= g < q.GridRank() && !q.GridMap(g).Constant?
        ensures GridCell(q, g, x) == AssembleCells(q, e)[g]
      {
        MatchesCellAt(q, e, x, g);
      }
    }
    if forall g :: 0 <= g < q.GridRank() && !q.GridMap(g).Constant? ==>
         GridCell(q, g, x) == AssembleCells(q, e)[g]
    {
      var sets := ConnectedSets(q);
      forall k | 0 <= k < |sets| ensures SetCells(q, sets[k], x[sets[k].inputDim]) == e[k].cells {
        CellsMatchSet(q, e, x, k);
      }
    }
  }

  /** Constant grid dimensions always agree: their cell is fixed. */
  lemma ConstantCellsAgree(q: GridQuery, e: seq<Piece>, x: seq<int>, g: nat)
    requires ValidQuery(q) && EntryOk(q, e) && InDomain(q.transform.domain, x)
    requires g < q.GridRank() && q.GridMap(g).Constant?
    ensures GridCell(q, g, x) == AssembleCells(q, e)[g]
  {
  }

  /**
   * The cell transform of entry `e` covers exactly the points of the input
   * domain whose grid cell is the cell index vector of `e`.
   */
  lemma CellTransformExact(q: GridQuery, e: seq<Piece>, x: seq<int>)
    requires ValidQuery(q) && EntryOk(q, e) && |x| == |q.transform.domain|
    ensures Covers(MakeCellTransform(q, e), x) <==>
              InDomain(q.transform.domain, x) && CellTuple(q, x) == AssembleCells(q, e)
  {
    CoversIffMatches(q, e, x);
    if InDomain(q.transform.domain, x) {
      MatchesIffCells(q, e, x);
      var cells := AssembleCells(q, e);
      forall g | 0 <= g < q.GridRank() && q.GridMap(g).Constant? ensures GridCell(q, g, x) == cells[g] {
        ConstantCellsAgree(q, e, x, g);
      }
      if CellTuple(q, x) == cells {
        forall g | 0 <= g < q.GridRank() ensures GridCell(q, g, x) == cells[g] {
          assert CellTuple(q, x)[g] == GridCell(q, g, x);
        }
      }
    }
  }

  // ---------------------------------------------------------------------------
  // The partition.

  /** The pieces of a connected set of `q`: cell pieces, distinct cell tuples, every index held. */
  function SetPieces(q: GridQuery, s: ConnectedSet): (pieces: seq<Piece>)
    requires ValidQuery(q) && SetOf(q, s)
    ensures ValidSet(q, s) && ExactPieces(q, s, pieces)
  {
    SetOfIsValid(q, s);
    PiecesExact(q, s);
    Pieces(q, s)
  }

  function PieceLists(q: GridQuery): (lists: seq<seq<Piece>>)
    requires ValidQuery(q)
    ensures |lists| == |ConnectedSets(q)|
  {
    var sets := ConnectedSets(q);
    SetsValid(q);
    seq(|sets|, k requires 0 <= k < |sets| => SetPieces(q, sets[k]))
  }

  /** The product of the sets' pieces, first connected set outermost. */
  function Entries(q: GridQuery): seq<seq<Piece>>
    requires ValidQuery(q)
  {
    Product(PieceLists(q))
  }

  lemma EntryOfProduct(q: GridQuery, e: seq<Piece>)
    requires ValidQuery(q) && e in Entries(q)
    ensures EntryOk(q, e)
  {
    var sets := ConnectedSets(q);
    var lists := PieceLists(q);
    SetsValid(q);
    ProductMembers(lists, e);
    forall k | 0 <= k < |e| ensures ValidSet(q, sets[k]) && IsCellPiece(q, sets[k], e[k]) {
      assert lists[k] == SetPieces(q, sets[k]);
      var i :| 0 <= i < |lists[k]| && lists[k][i] == e[k];
    }
  }

  /** One partition element: a grid cell index vector and its cell transform. */
  datatype Part = Part(cells: seq<int>, transform: CellTransform)

  function EntryPart(q: GridQuery, e: seq<Piece>): (p: Part)
    requires ValidQuery(q) && e in Entries(q)
    ensures |p.cells| == q.GridRank()
    ensures |p.transform.outputs| == |q.transform.domain| && WellFormedCellTransform(p.transform)
  {
    EntryOfProduct(q, e);
    Part(AssembleCells(q, e), MakeCellTransform(q, e))
  }

  /**
   * The partition of `q`, in the order it is handed to the visitor: one part
   * per entry of the product of the connected sets' pieces, each a full grid
   * cell index vector with a well-formed cell transform over the input rank.
   */
  function Partition(q: GridQuery): (parts: seq<Part>)
    requires ValidQuery(q)
    ensures |parts| == |Entries(q)|
    ensures forall i :: 0 <= i < |parts| ==>
              |parts[i].cells| == q.GridRank() &&
              |parts[i].transform.outputs| == |q.transform.domain| &&
              WellFormedCellTransform(parts[i].transform)
  {
    var entries := Entries(q);
    seq(|entries|, i requires 0 <= i < |entries| => EntryPart(q, entries[i]))
  }

  /** Every emitted cell transform covers exactly the input points that map into its grid cell. */
  lemma PartitionExact(q: GridQuery, i: nat, x: seq<int>)
    requires ValidQuery(q) && i < |Partition(q)| && |x| == |q.transform.domain|
    ensures Covers(Partition(q)[i].transform, x) <==>
              InDomain(q.transform.domain, x) && CellTuple(q, x) == Partition(q)[i].cells
  {
    var e := Entries(q)[i];
    EntryOfProduct(q, e);
    CellTransformExact(q, e, x);
  }

  /** The piece of set `s` that holds input index `v`. */
  ghost function PieceHolding(q: GridQuery, s: ConnectedSet, v: int): (p: Piece)
    requires ValidQuery(q) && SetOf(q, s)
    requires SetOf(q, s) && ValidSet(q, s) && SetDomain(q, s).Contains(v)
    ensures p in SetPieces(q, s) && Holds(p.selection, v)
  {
    var pieces := SetPieces(q, s);
    var k :| 0 <= k < |pieces| && Holds(pieces[k].selection, v);
    pieces[k]
  }

  /** Every point of the input domain is covered by some emitted cell transform. */
  lemma PartitionCovers(q: GridQuery, x: seq<int>)
    requires ValidQuery(q) && InDomain(q.transform.domain, x)
    ensures exists i :: 0 <= i < |Partition(q)| && Covers(Partition(q)[i].transform, x)
  {
    var sets := ConnectedSets(q);
    var lists := PieceLists(q);
    SetsValid(q);
    var e := seq(|sets|, k requires 0 <= k < |sets| => PieceHolding(q, sets[k], x[sets[k].inputDim]));
    forall k | 0 <= k < |e| ensures e[k] in lists[k] && IsCellPiece(q, sets[k], e[k]) {
      assert lists[k] == SetPieces(q, sets[k]);
      var pieces := SetPieces(q, sets[k]);
      var j :| 0 <= j < |pieces| && pieces[j] == e[k];
    }
    ProductMembers(lists, e);
    var entries := Entries(q);
    var i :| 0 <= i < |entries| && entries[i] == e;
    forall k | 0 <= k < |sets| ensures SetCells(q, sets[k], x[sets[k].inputDim]) == e[k].cells {
      CellPieceExact(q, sets[k], e[k].cells, x[sets[k].inputDim]);
    }
    assert Matches(q, e, x);
    CoversIffMatches(q, e, x);
    assert Partition(q)[i].transform == MakeCellTransform(q, e);
  }

  /** Different entries of the product stand for different grid cells. */
  lemma EntriesDistinctCells(q: GridQuery, i: nat, j: nat)
    requires ValidQuery(q) && i < j < |Entries(q)|
    ensures Partition(q)[i].cells != Partition(q)[j].cells
  {
    var sets := ConnectedSets(q);
    var lists := PieceLists(q);
    var entries := Entries(q);
    SetsValid(q);
    forall k | 0 <= k < |lists| ensures NoDuplicates(lists[k]) {
      assert lists[k] == SetPieces(q, sets[k]);
    }
    ProductNoDuplicates(lists);
    var e, e' := entries[i], entries[j];
    EntryOfProduct(q, e);
    EntryOfProduct(q, e');
    ProductMembers(lists, e);
    ProductMembers(lists, e');
    assert e != e';
    var k :| 0 <= k < |e| && e[k] != e'[k];
    var pieces := SetPieces(q, sets[k]);
    assert lists[k] == pieces;
    var a :| 0 <= a < |pieces| && pieces[a] == e[k];
    var b :| 0 <= b < |pieces| && pieces[b] == e'[k];
    assert a != b;
    assert e[k].cells != e'[k].cells;
    var m :| 0 <= m < |e[k].cells| && e[k].cells[m] != e'[k].cells[m];
    AssembledAt(q, e, k, m);
    AssembledAt(q, e', k, m);
  }

  /** The emitted cell index vectors are pairwise different. */
  lemma PartitionDistinct(q: GridQuery, i: nat, j: nat)
    requires ValidQuery(q) && i < |Partition(q)| && j < |Partition(q)| && i != j
    ensures Partition(q)[i].cells != Partition(q)[j].cells
  {
    if i < j { EntriesDistinctCells(q, i, j); } else { EntriesDistinctCells(q, j, i); }
  }

  /** No input point is covered by two emitted cell transforms. */
  lemma PartitionDisjoint(q: GridQuery, i: nat, j: nat, x: seq<int>)
    requires ValidQuery(q) && i < |Partition(q)| && j < |Partition(q)| && i != j
    requires |x| == |q.transform.domain|
    ensures !(Covers(Partition(q)[i].transform, x) && Covers(Partition(q)[j].transform, x))
  {
    PartitionExact(q, i, x);
    PartitionExact(q, j, x);
    PartitionDistinct(q, i, j);
  }

  // ---------------------------------------------------------------------------
  // Direct lookup of the cell transform of a grid cell.

  /** The cell indices of `cells` along the given grid dimensions. */
  function Project(cells: seq<int>, dims: seq<nat>): (r: seq<int>)
    requires forall j :: 0 <= j < |dims| ==> dims[j] < |cells|
    ensures |r| == |dims|
  {
    seq(|dims|, j requires 0 <= j < |dims| => cells[dims[j]])
  }

  /** The entry that stands for grid cell `cells`: each set's piece of its projection of `cells`. */
  function CellEntry(q: GridQuery, cells: seq<int>): (e: seq<Piece>)
    requires ValidQuery(q) && |cells| == q.GridRank()
    ensures EntryOk(q, e)
  {
    var sets := ConnectedSets(q);
    SetsValid(q);
    var e := seq(|sets|, k requires 0 <= k < |sets| => CellPiece(q, sets[k], Project(cells, sets[k].gridDims)));
    assert forall k :: 0 <= k < |e| ==> e[k].cells == Project(cells, sets[k].gridDims);
    e
  }

  /**
   * The cell transform of grid cell `cells`, computed directly rather than
   * by enumerating the partition.
   */
  function GetCellTransform(q: GridQuery, cells: seq<int>): (ct: CellTransform)
    requires ValidQuery(q) && |cells| == q.GridRank()
    ensures |ct.outputs| == |q.transform.domain| && WellFormedCellTransform(ct)
  {
    MakeCellTransform(q, CellEntry(q, cells))
  }

  /**
   * The directly computed cell transform covers exactly the domain points
   * whose cell agrees with `cells` on every grid dimension that depends on
   * the input (a constant grid dimension does not restrict the input).
   */
  lemma GetCellTransformExact(q: GridQuery, cells: seq<int>, x: seq<int>)
    requires ValidQuery(q) && |cells| == q.GridRank() && |x| == |q.transform.domain|
    ensures Covers(GetCellTransform(q, cells), x) <==>
              InDomain(q.transform.domain, x) &&
              forall g :: 0 <= g < q.GridRank() && !q.GridMap(g).Constant? ==> GridCell(q, g, x) == cells[g]
  {
    var e := CellEntry(q, cells);
    var sets := ConnectedSets(q);
    CoversIffMatches(q, e, x);
    forall g | 0 <= g < q.GridRank() && !q.GridMap(g).Constant? ensures AssembleCells(q, e)[g] == cells[g] {
      SetOfGridDim(q, g);
      var k := FindSet(sets, q.GridMap(g).inputDim);
      var j := IndexIn(sets[k].gridDims, g);
      AssembledAt(q, e, k, j);
    }
    if InDomain(q.transform.domain, x) {
      MatchesIffCells(q, e, x);
    }
  }

  /** Looking up an emitted cell index vector directly gives the emitted cell transform. */
  lemma GetCellTransformAgrees(q: GridQuery, i: nat)
    requires ValidQuery(q) && i < |Partition(q)|
    ensures GetCellTransform(q, Partition(q)[i].cells) == Partition(q)[i].transform
  {
    var sets := ConnectedSets(q);
    var e := Entries(q)[i];
    EntryOfProduct(q, e);
    var cells := AssembleCells(q, e);
    var e' := CellEntry(q, cells);
    forall k | 0 <= k < |sets| ensures e'[k] == e[k] {
      forall j | 0 <= j < |sets[k].gridDims| ensures cells[sets[k].gridDims[j]] == e[k].cells[j] {
        AssembledAt(q, e, k, j);
      }
      assert Project(cells, sets[k].gridDims) == e[k].cells;
    }
    assert e' == e;
  }

  // ---------------------------------------------------------------------------
  // Special shapes.

  /** The cell transform that keeps every input dimension as it is. */
  function IdentityCellTransform(domain: seq<Interval>): CellTransform {
    CellTransform(domain, seq(|domain|, i requires 0 <= i < |domain| => SingleInput(i)))
  }

  /** Without non-constant grid dimensions there are no connected sets, and the product has one empty entry. */
  lemma NoSetsWhenConstant(q: GridQuery)
    requires ValidQuery(q)
    requires forall g :: 0 <= g < q.GridRank() ==> q.GridMap(g).Constant?
    ensures ConnectedSets(q) == [] && Entries(q) == [[]]
  {
    var sets := ConnectedSets(q);
    ConnectedSetsWellFormed(q);
    if sets != [] {
      SetHasReader(q, sets[0]);
      assert false;
    }
    assert PieceLists(q) == [];
  }

  /** Without connected sets, the cell transform of the empty entry keeps every input dimension as it is. */
  lemma EmptyEntryIdentity(q: GridQuery)
    requires ValidQuery(q) && ConnectedSets(q) == []
    ensures EntryOk(q, []) && MakeCellTransform(q, []) == IdentityCellTransform(q.transform.domain)
  {
    var roles := EntryRoles(q, []);
    assert EntryGroups(q, []) == [];
    forall i | 0 <= i < |roles| ensures roles[i] == FreeDim(q.transform.domain[i]) {
      assert roles[i] == EntryRole(q, [], i);
    }
    BuildAllFree(roles);
  }

  /**
   * When every grid dimension has a constant map, the partition is a single
   * element: the cell of the constants, and the whole input domain unchanged.
   */
  lemma ConstantMapsOnePart(q: GridQuery)
    requires ValidQuery(q)
    requires forall g :: 0 <= g < q.GridRank() ==> q.GridMap(g).Constant?
    ensures Partition(q) ==
              [Part(seq(q.GridRank(), g requires 0 <= g < q.GridRank() => CellOf(q.grid, g, q.GridMap(g).offset)),
                    IdentityCellTransform(q.transform.domain))]
  {
    NoSetsWhenConstant(q);
    EmptyEntryIdentity(q);
    var cells := AssembleCells(q, []);
    forall g | 0 <= g < q.GridRank() ensures cells[g] == CellOf(q.grid, g, q.GridMap(g).offset) {
      assert cells[g] == AssembledCell(q, [], g);
    }
    var want := seq(q.GridRank(), g requires 0 <= g < q.GridRank() => CellOf(q.grid, g, q.GridMap(g).offset));
    assert cells == want;
    var parts := Partition(q);
    assert |parts| == 1 && parts[0] == EntryPart(q, []);
    assert parts == [Part(want, IdentityCellTransform(q.transform.domain))];
  }

  // ---------------------------------------------------------------------------
  // The driver.

  /** The visitor of parts that hands a part's cell indices and cell transform to `visit`. */
  function PartVisitor(visit: (seq<int>, CellTransform) -> Status): Part -> Status {
    (p: Part) => visit(p.cells, p.transform)
  }

  /** Hands every element of the partition of `q` to `visit`, in order, stopping at the first failure. */
  method PartitionIndexTransformOverGrid(q: GridQuery, visit: (seq<int>, CellTransform) -> Status)
    returns (status: Status, delivered: seq<Part>)
    requires ValidQuery(q)
    ensures delivered <= Partition(q)
    ensures forall i :: 0 <= i < |delivered| - 1 ==> PartVisitor(visit)(delivered[i]).Ok?
    ensures status.Ok? ==> delivered == Partition(q) && forall i :: 0 <= i < |delivered| ==> PartVisitor(visit)(delivered[i]).Ok?
    ensures status.Failed? ==> delivered != [] && status == PartVisitor(visit)(delivered[|delivered| - 1])
  {
    status, delivered := VisitAll(Partition(q), PartVisitor(visit));
  }

  /** The same, for a regular grid given by its cell shape. */
  method PartitionIndexTransformOverRegularGrid(
    gridOutputDims: seq<nat>, cellShape: seq<int>, transform: Transform,
    visit: (seq<int>, CellTransform) -> Status)
    returns (status: Status, delivered: seq<Part>)
    requires ValidQuery(GridQuery(transform, gridOutputDims, Regular(cellShape)))
    ensures var q := GridQuery(transform, gridOutputDims, Regular(cellShape));
            && delivered <= Partition(q)
            && (forall i :: 0 <= i < |delivered| - 1 ==> PartVisitor(visit)(delivered[i]).Ok?)
            && (status.Ok? ==> delivered == Partition(q) && forall i :: 0 <= i < |delivered| ==> PartVisitor(visit)(delivered[i]).Ok?)
            && (status.Failed? ==> delivered != [] && status == PartVisitor(visit)(delivered[|delivered| - 1]))
  {
    status, delivered := PartitionIndexTransformOverGrid(GridQuery(transform, gridOutputDims, Regular(cellShape)), visit);
  }
}
