/**
 * Connected-set analysis.  Grid dimensions whose maps read the same input
 * dimension must be partitioned jointly; each input dimension read by some
 * grid dimension gives one connected set.  A set is array-backed when one of
 * its maps is an index array, and affine otherwise.  Array-backed sets come
 * first; within each kind, sets are ordered by their first grid dimension.
 */
module ConnectedSetAnalysis {
  import opened Options
  import opened Intervals
  import opened Transforms

  datatype ConnectedSet = ConnectedSet(inputDim: nat, gridDims: seq<nat>, arrayBacked: bool)

  predicate Reads(q: GridQuery, g: nat, d: nat)
    requires ValidQuery(q) && g < q.GridRank()
  {
    q.GridMap(g).InputDim() == Some(d)
  }

  predicate StrictlyAscending(s: seq<nat>) {
    forall i, j :: 0 <= i < j < |s| ==> s[i] < s[j]
  }

  /** The grid dimensions below `k` whose maps read input dimension `d`, ascending. */
  function GridDimsReading(q: GridQuery, d: nat, k: nat): seq<nat>
    requires ValidQuery(q) && k <= q.GridRank()
  {
    if k == 0 then []
    else
      var prev := GridDimsReading(q, d, k - 1);
      if Reads(q, k - 1, d) then prev + [k - 1] else prev
  }

  /** `GridDimsReading` lists exactly the grid dimensions below `k` that read `d`, in ascending order. */
  lemma {:induction false} GridDimsReadingExact(q: GridQuery, d: nat, k: nat)
    requires ValidQuery(q) && k <= q.GridRank()
    ensures StrictlyAscending(GridDimsReading(q, d, k))
    ensures forall g: nat :: g in GridDimsReading(q, d, k) <==> g < k && Reads(q, g, d)
  {
    if k > 0 {
      var prev := GridDimsReading(q, d, k - 1);
      GridDimsReadingExact(q, d, k - 1);
      if Reads(q, k - 1, d) {
        forall i | 0 <= i < |prev| ensures prev[i] < k - 1 {
          assert prev[i] in prev;
        }
        assert forall g: nat :: g in prev + [k - 1] <==> g in prev || g == k - 1;
      }
    }
  }

  predicate Distinct(s: seq<nat>) {
    forall i, j :: 0 <= i < j < |s| ==> s[i] != s[j]
  }

  /**
   * The input dimensions read by grid dimensions below `k`, each once, in the
   * order of the first grid dimension reading them.
   */
  function ReadDims(q: GridQuery, k: nat): seq<nat>
    requires ValidQuery(q) && k <= q.GridRank()
  {
    if k == 0 then []
    else
      var prev := ReadDims(q, k - 1);
      match q.GridMap(k - 1).InputDim()
      case None => prev
      case Some(d) => if d in prev then prev else prev + [d]
  }

  /** `ReadDims` lists every input dimension read below `k` exactly once, and nothing else. */
  lemma {:induction false} ReadDimsExact(q: GridQuery, k: nat)
    requires ValidQuery(q) && k <= q.GridRank()
    ensures Distinct(ReadDims(q, k))
    ensures forall d :: d in ReadDims(q, k) <==> exists g: nat :: g < k && Reads(q, g, d)
  {
    if k > 0 {
      ReadDimsExact(q, k - 1);
      match q.GridMap(k - 1).InputDim()
      case None =>
      case Some(d) =>
        assert Reads(q, k - 1, d);
    }
  }

  predicate ArrayBacked(q: GridQuery, gridDims: seq<nat>)
    requires ValidQuery(q)
  {
    exists j :: 0 <= j < |gridDims| && gridDims[j] < q.GridRank() && q.GridMap(gridDims[j]).IndexArray?
  }

  /** The connected set of input dimension `d`. */
  function SetFor(q: GridQuery, d: nat): ConnectedSet
    requires ValidQuery(q)
  {
    var gridDims := GridDimsReading(q, d, q.GridRank());
    ConnectedSet(d, gridDims, ArrayBacked(q, gridDims))
  }

  /** A connected set built for input dimension `s.inputDim` of query `q`. */
  predicate SetOf(q: GridQuery, s: ConnectedSet)
    requires ValidQuery(q)
  {
    && s.inputDim < |q.transform.domain|
    && s == SetFor(q, s.inputDim)
    && s.gridDims != []
  }

  /** Some grid dimension reads the input dimension of a connected set. */
  lemma SetHasReader(q: GridQuery, s: ConnectedSet)
    requires ValidQuery(q) && SetOf(q, s)
    ensures exists g: nat :: g < q.GridRank() && Reads(q, g, s.inputDim)
  {
    SetForExact(q, s.inputDim);
    assert s.gridDims[0] in s.gridDims;
  }

  /**
   * The connected sets of a query: one per input dimension read by a grid
   * dimension, no input dimension twice, every non-constant grid dimension in
   * the set of the input dimension it reads, array-backed sets first.
   */
  predicate WellFormedSets(q: GridQuery, sets: seq<ConnectedSet>)
    requires ValidQuery(q)
  {
    && (forall k :: 0 <= k < |sets| ==> SetOf(q, sets[k]))
    && (forall k, k' :: 0 <= k < k' < |sets| ==> sets[k].inputDim != sets[k'].inputDim)
    && (forall g :: 0 <= g < q.GridRank() && !q.GridMap(g).Constant? ==>
          exists k :: 0 <= k < |sets| && sets[k].inputDim == q.GridMap(g).inputDim)
    && ArrayBackedFirst(sets)
  }

  /** No array-backed set comes after an affine one. */
  predicate ArrayBackedFirst(sets: seq<ConnectedSet>) {
    forall k, k' :: 0 <= k < k' < |sets| && sets[k'].arrayBacked ==> sets[k].arrayBacked
  }

  /** The dimensions of `dims` whose sets are (or are not) array-backed, in order. */
  function SelectKind(q: GridQuery, dims: seq<nat>, arrayBacked: bool): seq<nat>
    requires ValidQuery(q)
  {
    if dims == [] then []
    else
      var rest := SelectKind(q, dims[1..], arrayBacked);
      if SetFor(q, dims[0]).arrayBacked == arrayBacked then [dims[0]] + rest else rest
  }

  /** `SelectKind` keeps exactly the dimensions of the requested kind, and keeps them distinct. */
  lemma {:induction false} SelectKindExact(q: GridQuery, dims: seq<nat>, arrayBacked: bool)
    requires ValidQuery(q)
    ensures forall d :: d in SelectKind(q, dims, arrayBacked) <==> d in dims && SetFor(q, d).arrayBacked == arrayBacked
    ensures Distinct(dims) ==> Distinct(SelectKind(q, dims, arrayBacked))
  {
    if dims != [] {
      SelectKindExact(q, dims[1..], arrayBacked);
      assert forall d :: d in dims <==> d == dims[0] || d in dims[1..] by {
        assert dims == [dims[0]] + dims[1..];
      }
      assert Distinct(dims) ==> dims[0] !in dims[1..];
    }
  }

  /** The set of input dimension `d` lists exactly the grid dimensions that read `d`, ascending. */
  lemma SetForExact(q: GridQuery, d: nat)
    requires ValidQuery(q)
    ensures StrictlyAscending(SetFor(q, d).gridDims)
    ensures forall g: nat :: g in SetFor(q, d).gridDims <==> g < q.GridRank() && Reads(q, g, d)
  {
    GridDimsReadingExact(q, d, q.GridRank());
  }

  /** The connected sets of `q`, array-backed sets first. */
  function ConnectedSets(q: GridQuery): seq<ConnectedSet>
    requires ValidQuery(q)
  {
    var order := SetOrder(q);
    seq(|order|, k requires 0 <= k < |order| => SetFor(q, order[k]))
  }

  /** The input dimensions of the connected sets, in set order. */
  function SetOrder(q: GridQuery): seq<nat>
    requires ValidQuery(q)
  {
    var dims := ReadDims(q, q.GridRank());
    SelectKind(q, dims, true) + SelectKind(q, dims, false)
  }

  /** The connected sets of a query are well formed. */
  lemma ConnectedSetsWellFormed(q: GridQuery)
    requires ValidQuery(q)
    ensures WellFormedSets(q, ConnectedSets(q))
  {
    var dims := ReadDims(q, q.GridRank());
    var order := SetOrder(q);
    var sets := ConnectedSets(q);
    var arrays, affine := SelectKind(q, dims, true), SelectKind(q, dims, false);
    ReadDimsExact(q, q.GridRank());
    SelectKindExact(q, dims, true);
    SelectKindExact(q, dims, false);
    forall k | 0 <= k < |sets| ensures SetOf(q, sets[k]) {
      var d := order[k];
      assert d in arrays || d in affine;
      var g: nat :| g < q.GridRank() && Reads(q, g, d);
      SetForExact(q, d);
      assert g in sets[k].gridDims;
    }
    forall k, k' | 0 <= k < k' < |sets| ensures sets[k].inputDim != sets[k'].inputDim {
      if k' < |arrays| {
      } else if k >= |arrays| {
        assert affine[k - |arrays|] == order[k] && affine[k' - |arrays|] == order[k'];
      } else {
        assert order[k] in arrays && order[k'] in affine;
      }
    }
    forall g | 0 <= g < q.GridRank() && !q.GridMap(g).Constant?
      ensures exists k :: 0 <= k < |sets| && sets[k].inputDim == q.GridMap(g).inputDim
    {
      var d := q.GridMap(g).inputDim;
      assert Reads(q, g, d);
      assert d in dims;
      assert d in order;
      var k :| 0 <= k < |order| && order[k] == d;
      assert sets[k].inputDim == d;
    }
    forall k, k' | 0 <= k < k' < |sets| && sets[k'].arrayBacked ensures sets[k].arrayBacked {
      if k' < |arrays| {
        assert order[k] in arrays;
      }
    }
  }
}
