/**
 * The grid cell ranges a transform touches, reported as boxes of grid cells
 * within the grid bounds.  Trailing grid dimensions whose reported cells are
 * the whole bound are reported whole; the grid dimension before them, when it
 * reads an input dimension of its own, is reported as one or more intervals of
 * cells; every earlier grid dimension is reported one cell at a time, for each
 * combination of cells some input point maps into.
 */
module CellRanges {
  import opened Options
  import opened Intervals
  import opened GridMapping
  import opened LexOrder
  import opened Products
  import opened Transforms
  import opened Boxes
  import opened Visitors

  /** Grid dimension `g` reads an input dimension that no other grid dimension reads. */
  predicate OneToOne(q: GridQuery, g: nat)
    requires ValidQuery(q) && g < q.GridRank()
  {
    && !q.GridMap(g).Constant?
    && forall h :: 0 <= h < q.GridRank() && h != g ==> q.GridMap(h).InputDim() != Some(q.GridMap(g).inputDim)
  }

  /** The input interval that the (non-constant) map of grid dimension `g` reads. */
  function InputRange(q: GridQuery, g: nat): Interval
    requires ValidQuery(q) && g < q.GridRank() && !q.GridMap(g).Constant?
  {
    q.transform.domain[q.GridMap(g).inputDim]
  }

  /** The grid cell along `g` when the input dimension that `g` reads has index `v`. */
  function CellAt(q: GridQuery, g: nat, v: int): int
    requires ValidQuery(q) && g < q.GridRank() && !q.GridMap(g).Constant? && InputRange(q, g).Contains(v)
  {
    CellOf(q.grid, g, ValueAt(q.GridMap(g), q.transform.domain, v))
  }

  lemma GridCellAt(q: GridQuery, g: nat, x: seq<int>)
    requires ValidQuery(q) && g < q.GridRank() && !q.GridMap(g).Constant? && InDomain(q.transform.domain, x)
    ensures InputRange(q, g).Contains(x[q.GridMap(g).inputDim])
    ensures GridCell(q, g, x) == CellAt(q, g, x[q.GridMap(g).inputDim])
  {
  }

  // ---------------------------------------------------------------------------
  // The cells reported along the interval dimension.

  /** The least and the greatest output index of a single-input map over a non-empty input interval. */
  function OutputExtremes(m: OutputMap, dom: Interval): (int, int)
    requires m.SingleInputDimension? && dom.size > 0
  {
    var first := m.offset + m.stride * dom.origin;
    var last := m.offset + m.stride * (dom.Hi() - 1);
    if m.stride >= 0 then (first, last) else (last, first)
  }

  /** Every output index of the map over `dom` lies between the extremes. */
  lemma OutputExtremesBound(m: OutputMap, dom: Interval, v: int)
    requires m.SingleInputDimension? && dom.Contains(v)
    ensures OutputExtremes(m, dom).0 <= m.offset + m.stride * v <= OutputExtremes(m, dom).1
  {
    if m.stride >= 0 {
      MulMonotone(m.stride, dom.origin, v);
      MulMonotone(m.stride, v, dom.Hi() - 1);
    } else {
      MulMonotone(-m.stride, dom.origin, v);
      MulMonotone(-m.stride, v, dom.Hi() - 1);
      assert (-m.stride) * v == -(m.stride * v);
      assert (-m.stride) * dom.origin == -(m.stride * dom.origin);
      assert (-m.stride) * (dom.Hi() - 1) == -(m.stride * (dom.Hi() - 1));
    }
  }

  /** The cells along `g` of the input indices, in input order, each as a 1-tuple. */
  function CellsAlong(q: GridQuery, g: nat): (cs: seq<seq<int>>)
    requires ValidQuery(q) && g < q.GridRank() && !q.GridMap(g).Constant?
    ensures SameLength(cs, 1)
  {
    var dom := InputRange(q, g);
    seq(dom.size, i requires 0 <= i < dom.size => [CellAt(q, g, dom.origin + i)])
  }

  /** The distinct cells along `g` that some input index maps into, ascending. */
  function TouchedCells(q: GridQuery, g: nat): seq<int>
    requires ValidQuery(q) && g < q.GridRank() && !q.GridMap(g).Constant?
  {
    var all := CellsAlong(q, g);
    SortedDistinctCorrect(all, 1);
    var keys := SortedDistinct(all);
    seq(|keys|, i requires 0 <= i < |keys| => keys[i][0])
  }

  lemma LexLessSingle(a: seq<int>, b: seq<int>)
    requires |a| == 1 && |b| == 1
    ensures LexLess(a, b) <==> a[0] < b[0]
  {
    assert !LexLess(a[1..], b[1..]);
  }

  /** The touched cells ascend strictly and are exactly the cells some input index maps into. */
  lemma TouchedCellsExact(q: GridQuery, g: nat, c: int)
    requires ValidQuery(q) && g < q.GridRank() && !q.GridMap(g).Constant?
    ensures Increasing(TouchedCells(q, g))
    ensures c in TouchedCells(q, g) <==> exists v :: InputRange(q, g).Contains(v) && CellAt(q, g, v) == c
  {
    var all := CellsAlong(q, g);
    var dom := InputRange(q, g);
    SortedDistinctCorrect(all, 1);
    var keys := SortedDistinct(all);
    var cells := TouchedCells(q, g);
    forall i, j | 0 <= i < j < |cells| ensures cells[i] < cells[j] {
      LexLessSingle(keys[i], keys[j]);
    }
    if c in cells {
      var i :| 0 <= i < |cells| && cells[i] == c;
      assert keys[i] == [c];
      assert [c] in keys && [c] in all;
      var k :| 0 <= k < |all| && all[k] == [c];
      assert dom.Contains(dom.origin + k);
    }
    if exists v :: dom.Contains(v) && CellAt(q, g, v) == c {
      var v :| dom.Contains(v) && CellAt(q, g, v) == c;
      assert all[v - dom.origin] == [c];
      assert [c] in all && [c] in keys;
      var i :| 0 <= i < |keys| && keys[i] == [c];
      assert cells[i] == c;
    }
  }

  /**
   * The intervals of cells reported along grid dimension `g`, clipped to
   * `bounds[g]`.  A single-input map is reported from the cell of its least
   * to the cell of its greatest output index; an index array as the maximal
   * runs of consecutive cells it touches.  The intervals are separated (no
   * two could be merged), ascending and inside `bounds[g]`.
   */
  function InnerIntervals(q: GridQuery, bounds: Box, g: nat): (ins: seq<Interval>)
    requires ValidQuery(q) && |bounds| == q.GridRank() && g < q.GridRank() && !q.GridMap(g).Constant?
    ensures Separated(ins)
    ensures forall j :: 0 <= j < |ins| ==> Inside(ins[j], bounds[g])
  {
    var m := q.GridMap(g);
    var dom := InputRange(q, g);
    if dom.size == 0 then []
    else if m.SingleInputDimension? then
      var ext := OutputExtremes(m, dom);
      var c := Clip(bounds[g], HalfOpen(Some(CellOf(q.grid, g, ext.0)), Some(CellOf(q.grid, g, ext.1) + 1)));
      if c.size > 0 then
        assert c.Contains(c.origin) && c.Contains(c.Hi() - 1);
        [c]
      else []
    else
      var cells := TouchedCells(q, g);
      TouchedCellsExact(q, g, 0);
      IntRunsSeparated(cells);
      ClipAllSeparated(IntRuns(cells), bounds[g]);
      ClipAllInside(IntRuns(cells), bounds[g]);
      ClipAll(IntRuns(cells), bounds[g])
  }

  /** The cell of every input index of a single-input map lies between the cells of the extremes. */
  lemma CellBetweenExtremes(q: GridQuery, g: nat, v: int)
    requires ValidQuery(q) && g < q.GridRank() && q.GridMap(g).SingleInputDimension?
    requires InputRange(q, g).Contains(v)
    ensures var ext := OutputExtremes(q.GridMap(g), InputRange(q, g));
            CellOf(q.grid, g, ext.0) <= CellAt(q, g, v) <= CellOf(q.grid, g, ext.1)
  {
    var m := q.GridMap(g);
    var dom := InputRange(q, g);
    var ext := OutputExtremes(m, dom);
    OutputExtremesBound(m, dom, v);
    CellOfMonotone(q.grid, g, ext.0, m.offset + m.stride * v);
    CellOfMonotone(q.grid, g, m.offset + m.stride * v, ext.1);
  }

  /** A single-input map: the cell of every input index, within bounds, lies in the one reported interval. */
  lemma InnerCoverSingle(q: GridQuery, bounds: Box, g: nat, v: int)
    requires ValidQuery(q) && |bounds| == q.GridRank() && g < q.GridRank() && q.GridMap(g).SingleInputDimension?
    requires InputRange(q, g).Contains(v) && bounds[g].Contains(CellAt(q, g, v))
    ensures |InnerIntervals(q, bounds, g)| == 1 && InnerIntervals(q, bounds, g)[0].Contains(CellAt(q, g, v))
  {
    CellBetweenExtremes(q, g, v);
  }

  /** An index array: the cell of every input index, within bounds, lies in a reported run. */
  lemma InnerCoverArray(q: GridQuery, bounds: Box, g: nat, v: int)
    requires ValidQuery(q) && |bounds| == q.GridRank() && g < q.GridRank() && q.GridMap(g).IndexArray?
    requires InputRange(q, g).Contains(v) && bounds[g].Contains(CellAt(q, g, v))
    ensures exists j :: 0 <= j < |InnerIntervals(q, bounds, g)| && InnerIntervals(q, bounds, g)[j].Contains(CellAt(q, g, v))
  {
    var cell := CellAt(q, g, v);
    var cells := TouchedCells(q, g);
    TouchedCellsExact(q, g, cell);
    IntRunsMembers(cells, cell);
    ClipAllMembers(IntRuns(cells), bounds[g], cell);
    assert InnerIntervals(q, bounds, g) == ClipAll(IntRuns(cells), bounds[g]);
  }

  /** Every cell along `g` of an input point, within `bounds[g]`, lies in a reported interval. */
  lemma InnerIntervalsCover(q: GridQuery, bounds: Box, g: nat, x: seq<int>)
    requires ValidQuery(q) && |bounds| == q.GridRank() && g < q.GridRank() && !q.GridMap(g).Constant?
    requires InDomain(q.transform.domain, x) && bounds[g].Contains(GridCell(q, g, x))
    ensures exists j :: 0 <= j < |InnerIntervals(q, bounds, g)| && InnerIntervals(q, bounds, g)[j].Contains(GridCell(q, g, x))
  {
    var v := x[q.GridMap(g).inputDim];
    GridCellAt(q, g, x);
    if q.GridMap(g).SingleInputDimension? {
      InnerCoverSingle(q, bounds, g, v);
    } else {
      InnerCoverArray(q, bounds, g, v);
    }
  }

  // ---------------------------------------------------------------------------
  // Which grid dimensions are reported how.

  /** Grid dimension `g` reads an input dimension of its own and its reported cells are the whole bound. */
  predicate Full(q: GridQuery, bounds: Box, g: nat)
    requires ValidQuery(q) && |bounds| == q.GridRank() && g < q.GridRank()
  {
    OneToOne(q, g) && InnerIntervals(q, bounds, g) == [bounds[g]]
  }

  /** The start of the run of `true` flags that ends at position `k`. */
  function RunStart(flags: seq<bool>, k: nat): (f: nat)
    requires k <= |flags|
    ensures f <= k
  {
    if k == 0 || !flags[k - 1] then k else RunStart(flags, k - 1)
  }

  lemma {:induction false} RunStartExact(flags: seq<bool>, k: nat, g: nat)
    requires k <= |flags|
    ensures RunStart(flags, k) <= g < k ==> flags[g]
    ensures RunStart(flags, k) > 0 ==> !flags[RunStart(flags, k) - 1]
  {
    if k > 0 && flags[k - 1] {
      RunStartExact(flags, k - 1, g);
    }
  }

  function FullFlags(q: GridQuery, bounds: Box): (flags: seq<bool>)
    requires ValidQuery(q) && |bounds| == q.GridRank()
    ensures |flags| == q.GridRank()
  {
    seq(q.GridRank(), g requires 0 <= g < q.GridRank() => Full(q, bounds, g))
  }

  /** The first of the trailing full grid dimensions. */
  function FullStart(q: GridQuery, bounds: Box): (f: nat)
    requires ValidQuery(q) && |bounds| == q.GridRank()
    ensures f <= q.GridRank()
  {
    RunStart(FullFlags(q, bounds), q.GridRank())
  }

  /** The grid dimensions from `FullStart` on are full, and the one before them is not. */
  lemma FullStartExact(q: GridQuery, bounds: Box, g: nat)
    requires ValidQuery(q) && |bounds| == q.GridRank() && g < q.GridRank()
    ensures FullStart(q, bounds) <= g ==> Full(q, bounds, g)
    ensures FullStart(q, bounds) > 0 ==> !Full(q, bounds, FullStart(q, bounds) - 1)
  {
    var flags := FullFlags(q, bounds);
    RunStartExact(flags, q.GridRank(), g);
    var f := FullStart(q, bounds);
    assert flags[g] == Full(q, bounds, g);
    if f > 0 {
      assert flags[f - 1] == Full(q, bounds, f - 1);
    }
  }

  /** The grid dimension reported as intervals, if any: the one before the trailing full ones, when one-to-one. */
  predicate HasInner(q: GridQuery, bounds: Box)
    requires ValidQuery(q) && |bounds| == q.GridRank()
  {
    var f := FullStart(q, bounds);
    f > 0 && OneToOne(q, f - 1)
  }

  /** The number of leading grid dimensions reported one cell at a time. */
  function PrefixLength(q: GridQuery, bounds: Box): (p: nat)
    requires ValidQuery(q) && |bounds| == q.GridRank()
    ensures p <= q.GridRank()
  {
    var f := FullStart(q, bounds);
    if HasInner(q, bounds) then f - 1 else f
  }

  /** What follows each reported prefix: an interval of the inner dimension, then the full ones whole. */
  function Tails(q: GridQuery, bounds: Box): seq<Box>
    requires ValidQuery(q) && |bounds| == q.GridRank()
  {
    var f := FullStart(q, bounds);
    if HasInner(q, bounds) then
      IntervalTails(InnerIntervals(q, bounds, f - 1), bounds[f..])
    else [bounds[f..]]
  }

  // ---------------------------------------------------------------------------
  // The prefixes: cells of the leading grid dimensions that some input point maps into.

  function Indices(iv: Interval): seq<int> {
    seq(iv.size, k requires 0 <= k < iv.size => iv.origin + k)
  }

  /** The points of a domain, the first dimension varying outermost. */
  function DomainPoints(domain: seq<Interval>): seq<seq<int>> {
    Product(seq(|domain|, i requires 0 <= i < |domain| => Indices(domain[i])))
  }

  lemma DomainPointsExact(domain: seq<Interval>, x: seq<int>)
    ensures x in DomainPoints(domain) <==> InDomain(domain, x)
  {
    var lists := seq(|domain|, i requires 0 <= i < |domain| => Indices(domain[i]));
    ProductMembers(lists, x);
    if InDomain(domain, x) {
      forall k | 0 <= k < |x| ensures x[k] in lists[k] {
        assert lists[k][x[k] - domain[k].origin] == x[k];
      }
    }
  }

  lemma DomainPointsIn(domain: seq<Interval>)
    ensures forall i :: 0 <= i < |DomainPoints(domain)| ==> InDomain(domain, DomainPoints(domain)[i])
  {
    var pts := DomainPoints(domain);
    forall i | 0 <= i < |pts| ensures InDomain(domain, pts[i]) {
      DomainPointsExact(domain, pts[i]);
    }
  }

  /** The leading `p` cells of each point of `pts`, kept when they lie within the bounds. */
  function PrefixesOf(q: GridQuery, bounds: Box, p: nat, pts: seq<seq<int>>): seq<seq<int>>
    requires ValidQuery(q) && |bounds| == q.GridRank() && p <= q.GridRank()
    requires forall i :: 0 <= i < |pts| ==> InDomain(q.transform.domain, pts[i])
  {
    if pts == [] then []
    else
      var c := CellTuple(q, pts[0])[..p];
      (if InBox(bounds[..p], c) then [c] else []) + PrefixesOf(q, bounds, p, pts[1..])
  }

  lemma {:induction false} PrefixesOfExact(q: GridQuery, bounds: Box, p: nat, pts: seq<seq<int>>, c: seq<int>)
    requires ValidQuery(q) && |bounds| == q.GridRank() && p <= q.GridRank()
    requires forall i :: 0 <= i < |pts| ==> InDomain(q.transform.domain, pts[i])
    ensures SameLength(PrefixesOf(q, bounds, p, pts), p)
    ensures c in PrefixesOf(q, bounds, p, pts) <==>
              InBox(bounds[..p], c) && exists i :: 0 <= i < |pts| && CellTuple(q, pts[i])[..p] == c
  {
    if pts != [] {
      var head := CellTuple(q, pts[0])[..p];
      var rest := PrefixesOf(q, bounds, p, pts[1..]);
      PrefixesOfExact(q, bounds, p, pts[1..], c);
      if exists i :: 0 <= i < |pts[1..]| && CellTuple(q, pts[1..][i])[..p] == c {
        var i :| 0 <= i < |pts[1..]| && CellTuple(q, pts[1..][i])[..p] == c;
        assert pts[1..][i] == pts[i + 1];
      }
      if exists i :: 0 <= i < |pts| && CellTuple(q, pts[i])[..p] == c {
        var i :| 0 <= i < |pts| && CellTuple(q, pts[i])[..p] == c;
        if i > 0 {
          assert pts[1..][i - 1] == pts[i];
        }
      }
    }
  }

  /** The reported prefixes: the distinct leading cells of the domain's points within the bounds, ascending. */
  function Prefixes(q: GridQuery, bounds: Box): seq<seq<int>>
    requires ValidQuery(q) && |bounds| == q.GridRank()
  {
    var domain := q.transform.domain;
    DomainPointsIn(domain);
    SortedDistinct(PrefixesOf(q, bounds, PrefixLength(q, bounds), DomainPoints(domain)))
  }

  /**
   * The prefixes ascend strictly, have the prefix length, and are exactly
   * the leading cells within the bounds of some input point.
   */
  lemma PrefixesExact(q: GridQuery, bounds: Box, c: seq<int>)
    requires ValidQuery(q) && |bounds| == q.GridRank()
    ensures SortedStrict(Prefixes(q, bounds)) && SameLength(Prefixes(q, bounds), PrefixLength(q, bounds))
    ensures c in Prefixes(q, bounds) <==>
              var p := PrefixLength(q, bounds);
              InBox(bounds[..p], c) && exists x :: InDomain(q.transform.domain, x) && CellTuple(q, x)[..p] == c
  {
    var domain := q.transform.domain;
    var p := PrefixLength(q, bounds);
    var pts := DomainPoints(domain);
    DomainPointsIn(domain);
    PrefixesOfExact(q, bounds, p, pts, c);
    SortedDistinctCorrect(PrefixesOf(q, bounds, p, pts), p);
    if exists x :: InDomain(domain, x) && CellTuple(q, x)[..p] == c {
      var x :| InDomain(domain, x) && CellTuple(q, x)[..p] == c;
      DomainPointsExact(domain, x);
      var i :| 0 <= i < |pts| && pts[i] == x;
    }
  }

  // ---------------------------------------------------------------------------
  // The ranges.

  /**
   * The boxes of grid cells reported for `q` within `bounds`, in the order
   * they are reported: pairwise disjoint and ascending by origin.
   */
  function GridCellRanges(q: GridQuery, bounds: Box): (boxes: seq<Box>)
    requires ValidQuery(q) && |bounds| == q.GridRank()
    ensures Ascending(boxes)
  {
    PrefixesExact(q, bounds, []);
    TailsAscending(q, bounds);
    CombineAscending(Prefixes(q, bounds), Tails(q, bounds), PrefixLength(q, bounds), q.GridRank() - PrefixLength(q, bounds));
    Combine(Prefixes(q, bounds), Tails(q, bounds))
  }

  /** The tails are ascending, all of the length after the prefix, and lie within the bounds after it. */
  lemma TailsAscending(q: GridQuery, bounds: Box)
    requires ValidQuery(q) && |bounds| == q.GridRank()
    ensures Ascending(Tails(q, bounds)) && Rank(Tails(q, bounds), q.GridRank() - PrefixLength(q, bounds))
    ensures forall j :: 0 <= j < |Tails(q, bounds)| ==> BoxWithin(Tails(q, bounds)[j], bounds[PrefixLength(q, bounds)..])
  {
    var f := FullStart(q, bounds);
    var p := PrefixLength(q, bounds);
    if HasInner(q, bounds) {
      var ins := InnerIntervals(q, bounds, f - 1);
      IntervalTailsAscending(ins, bounds[f..]);
      IntervalTailsWithin(ins, bounds[f..], bounds[f - 1]);
      assert bounds[p..] == [bounds[f - 1]] + bounds[f..];
    }
  }

  /** The leading cells of a point within the bounds are a reported prefix. */
  lemma CoverPrefix(q: GridQuery, bounds: Box, x: seq<int>)
    requires ValidQuery(q) && |bounds| == q.GridRank()
    requires InDomain(q.transform.domain, x) && InBox(bounds, CellTuple(q, x))
    ensures CellTuple(q, x)[..PrefixLength(q, bounds)] in Prefixes(q, bounds)
  {
    var t := CellTuple(q, x);
    var p := PrefixLength(q, bounds);
    assert InBox(bounds[..p], t[..p]) by {
      forall g | 0 <= g < p ensures bounds[..p][g].Contains(t[..p][g]) {
        assert bounds[g].Contains(t[g]);
      }
    }
    PrefixesExact(q, bounds, t[..p]);
  }

  /** The remaining cells of a point within the bounds lie in a reported tail. */
  lemma CoverTail(q: GridQuery, bounds: Box, x: seq<int>)
    requires ValidQuery(q) && |bounds| == q.GridRank()
    requires InDomain(q.transform.domain, x) && InBox(bounds, CellTuple(q, x))
    ensures exists j :: 0 <= j < |Tails(q, bounds)| && InBox(Tails(q, bounds)[j], CellTuple(q, x)[PrefixLength(q, bounds)..])
  {
    var t := CellTuple(q, x);
    var f := FullStart(q, bounds);
    var p := PrefixLength(q, bounds);
    var tails := Tails(q, bounds);
    assert InBox(bounds[f..], t[f..]) by {
      forall g | 0 <= g < |t[f..]| ensures bounds[f..][g].Contains(t[f..][g]) {
        assert bounds[f + g].Contains(t[f + g]);
      }
    }
    if HasInner(q, bounds) {
      var ins := InnerIntervals(q, bounds, f - 1);
      assert bounds[f - 1].Contains(GridCell(q, f - 1, x)) by {
        assert bounds[f - 1].Contains(t[f - 1]);
      }
      InnerIntervalsCover(q, bounds, f - 1, x);
      var j :| 0 <= j < |ins| && ins[j].Contains(GridCell(q, f - 1, x));
      assert t[p..][1..] == t[f..];
      IntervalTailsHit(ins, bounds[f..], t[p..], j);
      assert InBox(tails[j], t[p..]);
    } else {
      assert InBox(tails[0], t[p..]);
    }
  }

  /** Every cell within the bounds that some input point maps into lies in a reported box. */
  lemma GridCellRangesCover(q: GridQuery, bounds: Box, x: seq<int>)
    requires ValidQuery(q) && |bounds| == q.GridRank()
    requires InDomain(q.transform.domain, x) && InBox(bounds, CellTuple(q, x))
    ensures exists k :: 0 <= k < |GridCellRanges(q, bounds)| && InBox(GridCellRanges(q, bounds)[k], CellTuple(q, x))
  {
    var t := CellTuple(q, x);
    var prefixes, tails := Prefixes(q, bounds), Tails(q, bounds);
    var boxes := Combine(prefixes, tails);
    assert GridCellRanges(q, bounds) == boxes;
    PrefixesExact(q, bounds, []);
    CoverPrefix(q, bounds, x);
    CoverTail(q, bounds, x);
    CombineMembers(prefixes, tails, PrefixLength(q, bounds), t);
    var k :| 0 <= k < |boxes| && InBox(boxes[k], t);
    assert GridCellRanges(q, bounds)[k] == boxes[k];
  }

  /** Every reported box lies within the bounds. */
  lemma GridCellRangesWithin(q: GridQuery, bounds: Box)
    requires ValidQuery(q) && |bounds| == q.GridRank()
    ensures forall k :: 0 <= k < |GridCellRanges(q, bounds)| ==> BoxWithin(GridCellRanges(q, bounds)[k], bounds)
  {
    var p := PrefixLength(q, bounds);
    var prefixes: seq<seq<int>> := Prefixes(q, bounds);
    PrefixesExact(q, bounds, []);
    forall i | 0 <= i < |prefixes| ensures InBox(bounds[..p], prefixes[i]) {
      PrefixesExact(q, bounds, prefixes[i]);
    }
    TailsAscending(q, bounds);
    CombineWithin(prefixes, Tails(q, bounds), bounds, p);
  }

  /**
   * The shape of a reported box: the leading grid dimensions hold one cell
   * each, the interval dimension one of its reported intervals, and the
   * trailing full dimensions their whole bound.
   */
  lemma GridCellRangesShape(q: GridQuery, bounds: Box, k: nat, g: nat)
    requires ValidQuery(q) && |bounds| == q.GridRank()
    requires k < |GridCellRanges(q, bounds)| && g < q.GridRank()
    ensures |GridCellRanges(q, bounds)[k]| == q.GridRank()
    ensures g < PrefixLength(q, bounds) ==> GridCellRanges(q, bounds)[k][g].size == 1
    ensures HasInner(q, bounds) && g == PrefixLength(q, bounds) ==>
              GridCellRanges(q, bounds)[k][g] in InnerIntervals(q, bounds, g)
    ensures FullStart(q, bounds) <= g ==> GridCellRanges(q, bounds)[k][g] == bounds[g]
  {
    var p := PrefixLength(q, bounds);
    var prefixes := Prefixes(q, bounds);
    var tails := Tails(q, bounds);
    PrefixesExact(q, bounds, []);
    var j := CombineAt(prefixes, tails, p, k);
    var b := GridCellRanges(q, bounds)[k];
    assert b == Combine(prefixes, tails)[k];
    if g >= p {
      TailShape(q, bounds, j, g);
      assert b[g] == b[p..][g - p];
    }
  }

  /** Tail `j` holds an interval of the inner dimension, if any, then the bounds of the full dimensions. */
  lemma TailShape(q: GridQuery, bounds: Box, j: nat, g: nat)
    requires ValidQuery(q) && |bounds| == q.GridRank()
    requires j < |Tails(q, bounds)| && PrefixLength(q, bounds) <= g < q.GridRank()
    ensures |Tails(q, bounds)[j]| == q.GridRank() - PrefixLength(q, bounds)
    ensures HasInner(q, bounds) && g == PrefixLength(q, bounds) ==> Tails(q, bounds)[j][0] in InnerIntervals(q, bounds, g)
    ensures FullStart(q, bounds) <= g ==> Tails(q, bounds)[j][g - PrefixLength(q, bounds)] == bounds[g]
  {
    var f := FullStart(q, bounds);
    var rest := bounds[f..];
    if HasInner(q, bounds) {
      assert OneToOne(q, f - 1);
      var ins := InnerIntervals(q, bounds, f - 1);
      assert Tails(q, bounds) == IntervalTails(ins, rest);
      assert Tails(q, bounds)[j] == [ins[j]] + rest;
    } else {
      assert Tails(q, bounds) == [rest];
    }
    if f <= g {
      assert rest[g - f] == bounds[g];
    }
  }

  /** Without grid dimensions, a non-empty domain is reported as the one empty box. */
  lemma NoGridDimensions(q: GridQuery, bounds: Box)
    requires ValidQuery(q) && q.GridRank() == 0 && |bounds| == 0 && NonEmptyDomain(q.transform.domain)
    ensures GridCellRanges(q, bounds) == [[]]
  {
    var domain := q.transform.domain;
    var prefixes: seq<seq<int>> := Prefixes(q, bounds);
    var x := seq(|domain|, i requires 0 <= i < |domain| => domain[i].origin);
    assert InDomain(domain, x);
    assert CellTuple(q, x)[..0] == [];
    PrefixesExact(q, bounds, []);
    assert [] in prefixes;
    if |prefixes| > 1 {
      SortedStrictDistinct(prefixes, 0, 1);
      assert false;
    }
    assert prefixes == [[]];
    assert FullStart(q, bounds) == 0 && PrefixLength(q, bounds) == 0;
    assert Tails(q, bounds) == [[]];
    var boxes := Combine(prefixes, [[]]);
    assert |boxes| == 1;
    CombineIndex(prefixes, [[]], 0, 0);
    assert boxes[0] == PointBox([]) + [];
    assert boxes == [[]];
    assert GridCellRanges(q, bounds) == boxes;
  }

  /** A domain with an empty dimension reports no box. */
  lemma EmptyDomainNoRanges(q: GridQuery, bounds: Box)
    requires ValidQuery(q) && |bounds| == q.GridRank() && !NonEmptyDomain(q.transform.domain)
    ensures GridCellRanges(q, bounds) == []
  {
    var prefixes: seq<seq<int>> := Prefixes(q, bounds);
    if prefixes != [] {
      PrefixesExact(q, bounds, prefixes[0]);
      assert false;
    }
  }

  // ---------------------------------------------------------------------------
  // The driver.

  /** Hands every box of the cell ranges of `q` within `bounds` to `visit`, in order, stopping at the first failure. */
  method GetGridCellRanges(q: GridQuery, bounds: Box, visit: Box -> Status)
    returns (status: Status, delivered: seq<Box>)
    requires ValidQuery(q) && |bounds| == q.GridRank()
    ensures delivered <= GridCellRanges(q, bounds)
    ensures forall i :: 0 <= i < |delivered| - 1 ==> visit(delivered[i]).Ok?
    ensures status.Ok? ==> delivered == GridCellRanges(q, bounds) && forall i :: 0 <= i < |delivered| ==> visit(delivered[i]).Ok?
    ensures status.Failed? ==> delivered != [] && status == visit(delivered[|delivered| - 1])
  {
    status, delivered := VisitAll(GridCellRanges(q, bounds), visit);
  }
}
