/**
 * Boxes of grid cells.  A box gives one interval of cell indices per grid
 * dimension; a list of boxes is reported in ascending order of their origins,
 * pairwise disjoint.  A list of boxes is built as every box prefix (one cell
 * per leading grid dimension) followed by every tail box (intervals for the
 * remaining grid dimensions), prefixes outermost.
 */
module Boxes {
  import opened Options
  import opened Intervals
  import opened LexOrder

  type Box = seq<Interval>

  /** Cell `t` lies in box `b`. */
  predicate InBox(b: Box, t: seq<int>) {
    |t| == |b| && forall g :: 0 <= g < |t| ==> b[g].Contains(t[g])
  }

  /** `a` is a non-empty interval inside `b`. */
  predicate Inside(a: Interval, b: Interval) {
    a.size > 0 && b.origin <= a.origin && a.Hi() <= b.Hi()
  }

  /** `a` starts no earlier and ends no later than `b`. */
  predicate Within(a: Interval, b: Interval) {
    b.origin <= a.origin && a.Hi() <= b.Hi()
  }

  /** Every interval of box `b` lies within the matching interval of `bounds`. */
  predicate BoxWithin(b: Box, bounds: Box) {
    |b| == |bounds| && forall g :: 0 <= g < |b| ==> Within(b[g], bounds[g])
  }

  function Origins(b: Box): (o: seq<int>)
    ensures |o| == |b|
  {
    seq(|b|, g requires 0 <= g < |b| => b[g].origin)
  }

  /** Boxes `a` and `b` are separated along some grid dimension. */
  predicate Apart(a: Box, b: Box) {
    |a| == |b| && exists g :: 0 <= g < |a| && (a[g].Hi() <= b[g].origin || b[g].Hi() <= a[g].origin)
  }

  /** Pairwise separated boxes, in ascending lexicographic order of their origins. */
  predicate Ascending(boxes: seq<Box>) {
    forall i, j :: 0 <= i < j < |boxes| ==> Apart(boxes[i], boxes[j]) && LexLess(Origins(boxes[i]), Origins(boxes[j]))
  }

  /** Separated boxes share no cell. */
  lemma ApartDisjoint(a: Box, b: Box, t: seq<int>)
    requires Apart(a, b)
    ensures !(InBox(a, t) && InBox(b, t))
  {
    var g :| 0 <= g < |a| && (a[g].Hi() <= b[g].origin || b[g].Hi() <= a[g].origin);
    if InBox(a, t) {
      assert a[g].Contains(t[g]);
    }
  }

  /** The box holding exactly the cell `p`. */
  function PointBox(p: seq<int>): (b: Box)
    ensures |b| == |p|
  {
    seq(|p|, g requires 0 <= g < |p| => Interval(p[g], 1))
  }

  /** Every prefix followed by every tail, prefixes outermost. */
  function Combine(prefixes: seq<seq<int>>, tails: seq<Box>): (boxes: seq<Box>)
    ensures |boxes| == |prefixes| * |tails|
  {
    if prefixes == [] then []
    else
      var rest := Combine(prefixes[1..], tails);
      assert |rest| + |tails| == |prefixes| * |tails| by {
        assert |prefixes| * |tails| == (|prefixes| - 1) * |tails| + |tails|;
      }
      seq(|tails|, j requires 0 <= j < |tails| => PointBox(prefixes[0]) + tails[j]) + rest
  }

  /** Entry `i * |tails| + j` of `Combine` is prefix `i` followed by tail `j`. */
  lemma {:induction false} CombineIndex(prefixes: seq<seq<int>>, tails: seq<Box>, i: nat, j: nat)
    requires i < |prefixes| && j < |tails|
    ensures i * |tails| + j < |Combine(prefixes, tails)|
    ensures Combine(prefixes, tails)[i * |tails| + j] == PointBox(prefixes[i]) + tails[j]
  {
    var n := |tails|;
    BlockBound(i, |prefixes|, n, j);
    if i > 0 {
      CombineIndex(prefixes[1..], tails, i - 1, j);
      BlockShift(i, n, j);
      var rest := Combine(prefixes[1..], tails);
      assert Combine(prefixes, tails)[i * n + j] == rest[(i - 1) * n + j];
    }
  }

  /** Position `j` of block `i` of blocks of `n` lies before the end of `m > i` blocks. */
  lemma BlockBound(i: nat, m: nat, n: nat, j: nat)
    requires i < m && j < n
    ensures i * n + j < m * n
  {
    MulLe(i + 1, m, n);
    assert (i + 1) * n == i * n + n;
  }

  /** Position `j` of block `i` is `n` past position `j` of block `i - 1`. */
  lemma BlockShift(i: nat, n: nat, j: nat)
    requires i > 0
    ensures (i - 1) * n + j + n == i * n + j
  {
    assert i * n == (i - 1) * n + n;
  }

  lemma MulLe(a: nat, b: nat, c: nat)
    requires a <= b
    ensures a * c <= b * c
  {
    assert b * c == a * c + (b - a) * c;
  }

  /** Every entry of `Combine` is some prefix followed by some tail. */
  lemma {:induction false} CombineEntry(prefixes: seq<seq<int>>, tails: seq<Box>, k: nat) returns (i: nat, j: nat)
    requires k < |Combine(prefixes, tails)|
    ensures i < |prefixes| && j < |tails| && k == i * |tails| + j
    ensures Combine(prefixes, tails)[k] == PointBox(prefixes[i]) + tails[j]
  {
    if k < |tails| {
      i, j := 0, k;
      CombineIndex(prefixes, tails, 0, k);
    } else {
      var i0, j0 := CombineEntry(prefixes[1..], tails, k - |tails|);
      i, j := i0 + 1, j0;
      CombineIndex(prefixes, tails, i, j);
      assert (i0 + 1) * |tails| == i0 * |tails| + |tails|;
    }
  }

  /** Entries of blocks of `n` are ordered by block first. */
  lemma BlockOrder(i: nat, j: nat, i': nat, j': nat, n: nat)
    requires j < n && j' < n && i * n + j < i' * n + j'
    ensures i <= i'
  {
    if i' < i {
      assert (i' + 1) * n == i' * n + n;
      MulLe(i' + 1, i, n);
    }
  }

  lemma OriginsAppend(a: Box, b: Box)
    ensures Origins(a + b) == Origins(a) + Origins(b)
  {
  }

  lemma OriginsPoint(p: seq<int>)
    ensures Origins(PointBox(p)) == p
  {
  }

  /** A list of boxes all of length `n`. */
  predicate Rank(boxes: seq<Box>, n: nat) {
    forall i :: 0 <= i < |boxes| ==> |boxes[i]| == n
  }

  /** A position where two different tuples of the same length differ. */
  lemma {:induction false} DifferAt(p: seq<int>, p': seq<int>) returns (g: nat)
    requires |p| == |p'| && p != p'
    ensures g < |p| && p[g] != p'[g]
  {
    if p[0] != p'[0] {
      g := 0;
    } else {
      assert p == [p[0]] + p[1..] && p' == [p'[0]] + p'[1..];
      var g0 := DifferAt(p[1..], p'[1..]);
      g := g0 + 1;
    }
  }

  /** Two combined boxes with different prefixes, the first prefix smaller, are separated and ordered. */
  lemma PrefixOrdered(p: seq<int>, p': seq<int>, t: Box, t': Box)
    requires |p| == |p'| && LexLess(p, p') && |t| == |t'|
    ensures Apart(PointBox(p) + t, PointBox(p') + t')
    ensures LexLess(Origins(PointBox(p) + t), Origins(PointBox(p') + t'))
  {
    LexLessIrreflexive(p);
    var g := DifferAt(p, p');
    var a, b := PointBox(p) + t, PointBox(p') + t';
    assert a[g] == Interval(p[g], 1) && b[g] == Interval(p'[g], 1);
    OriginsAppend(PointBox(p), t);
    OriginsAppend(PointBox(p'), t');
    OriginsPoint(p);
    OriginsPoint(p');
    LexLessExtend(p, p', Origins(t), Origins(t'));
  }

  /** Two combined boxes with the same prefix and ordered tails are separated and ordered. */
  lemma TailOrdered(p: seq<int>, t: Box, t': Box)
    requires Apart(t, t') && LexLess(Origins(t), Origins(t'))
    ensures Apart(PointBox(p) + t, PointBox(p) + t')
    ensures LexLess(Origins(PointBox(p) + t), Origins(PointBox(p) + t'))
  {
    var g :| 0 <= g < |t| && (t[g].Hi() <= t'[g].origin || t'[g].Hi() <= t[g].origin);
    var a, b := PointBox(p) + t, PointBox(p) + t';
    assert a[|p| + g] == t[g] && b[|p| + g] == t'[g];
    OriginsAppend(PointBox(p), t);
    OriginsAppend(PointBox(p), t');
    LexLessCommonPrefix(Origins(PointBox(p)), Origins(t), Origins(t'));
  }

  /**
   * Ascending prefixes of one length combined with ascending tails of one
   * length give ascending boxes.
   */
  lemma CombineAscending(prefixes: seq<seq<int>>, tails: seq<Box>, n: nat, m: nat)
    requires SortedStrict(prefixes) && SameLength(prefixes, n)
    requires Ascending(tails) && Rank(tails, m)
    ensures Ascending(Combine(prefixes, tails))
  {
    var boxes := Combine(prefixes, tails);
    forall k, k' | 0 <= k < k' < |boxes|
      ensures Apart(boxes[k], boxes[k']) && LexLess(Origins(boxes[k]), Origins(boxes[k']))
    {
      var i, j := CombineEntry(prefixes, tails, k);
      var i', j' := CombineEntry(prefixes, tails, k');
      BlockOrder(i, j, i', j', |tails|);
      if i == i' {
        TailOrdered(prefixes[i], tails[j], tails[j']);
      } else {
        PrefixOrdered(prefixes[i], prefixes[i'], tails[j], tails[j']);
      }
    }
  }

  /** A cell in combined box `k` has one of the prefixes and lies in one of the tails. */
  lemma CombineMember(prefixes: seq<seq<int>>, tails: seq<Box>, n: nat, t: seq<int>, k: nat)
    requires SameLength(prefixes, n) && n <= |t|
    requires k < |Combine(prefixes, tails)| && InBox(Combine(prefixes, tails)[k], t)
    ensures t[..n] in prefixes && exists j :: 0 <= j < |tails| && InBox(tails[j], t[n..])
  {
    var b := Combine(prefixes, tails)[k];
    var i, j := CombineEntry(prefixes, tails, k);
    forall g | 0 <= g < n ensures t[..n][g] == prefixes[i][g] {
      assert b[g] == Interval(prefixes[i][g], 1);
    }
    assert t[..n] == prefixes[i];
    forall g | 0 <= g < |t| - n ensures tails[j][g].Contains(t[n..][g]) {
      assert b[n + g] == tails[j][g];
    }
  }

  /** A cell with prefix `i` whose rest lies in tail `j` lies in combined box `i * |tails| + j`. */
  lemma CombineHit(prefixes: seq<seq<int>>, tails: seq<Box>, n: nat, t: seq<int>, i: nat, j: nat)
    requires SameLength(prefixes, n) && n <= |t|
    requires i < |prefixes| && prefixes[i] == t[..n] && j < |tails| && InBox(tails[j], t[n..])
    ensures i * |tails| + j < |Combine(prefixes, tails)| && InBox(Combine(prefixes, tails)[i * |tails| + j], t)
  {
    CombineIndex(prefixes, tails, i, j);
    var b := Combine(prefixes, tails)[i * |tails| + j];
    forall g | 0 <= g < |t| ensures b[g].Contains(t[g]) {
      if g < n {
        assert b[g] == Interval(prefixes[i][g], 1);
        assert t[..n][g] == t[g];
      } else {
        assert b[g] == tails[j][g - n];
        assert t[n..][g - n] == t[g];
      }
    }
  }

  /**
   * A cell lies in some combined box exactly when its leading coordinates
   * are one of the prefixes and the rest lies in one of the tails.
   */
  lemma CombineMembers(prefixes: seq<seq<int>>, tails: seq<Box>, n: nat, t: seq<int>)
    requires SameLength(prefixes, n) && n <= |t|
    ensures (exists k :: 0 <= k < |Combine(prefixes, tails)| && InBox(Combine(prefixes, tails)[k], t)) <==>
            t[..n] in prefixes && exists j :: 0 <= j < |tails| && InBox(tails[j], t[n..])
  {
    var boxes := Combine(prefixes, tails);
    if exists k :: 0 <= k < |boxes| && InBox(boxes[k], t) {
      var k :| 0 <= k < |boxes| && InBox(boxes[k], t);
      CombineMember(prefixes, tails, n, t, k);
    }
    if t[..n] in prefixes && exists j :: 0 <= j < |tails| && InBox(tails[j], t[n..]) {
      var i :| 0 <= i < |prefixes| && prefixes[i] == t[..n];
      var j :| 0 <= j < |tails| && InBox(tails[j], t[n..]);
      CombineHit(prefixes, tails, n, t, i, j);
    }
  }

  /** Combined boxes lie within `bounds` when the prefixes do and the tails lie within the rest of `bounds`. */
  lemma CombineWithin(prefixes: seq<seq<int>>, tails: seq<Box>, bounds: Box, n: nat)
    requires n <= |bounds| && SameLength(prefixes, n)
    requires forall i :: 0 <= i < |prefixes| ==> InBox(bounds[..n], prefixes[i])
    requires forall j :: 0 <= j < |tails| ==> BoxWithin(tails[j], bounds[n..])
    ensures forall k :: 0 <= k < |Combine(prefixes, tails)| ==> BoxWithin(Combine(prefixes, tails)[k], bounds)
  {
    var boxes := Combine(prefixes, tails);
    forall k | 0 <= k < |boxes| ensures BoxWithin(boxes[k], bounds) {
      var i, j := CombineEntry(prefixes, tails, k);
      forall g | 0 <= g < |boxes[k]| ensures Within(boxes[k][g], bounds[g]) {
        if g < n {
          assert bounds[..n][g] == bounds[g];
        } else {
          assert boxes[k][g] == tails[j][g - n] && bounds[n..][g - n] == bounds[g];
        }
      }
    }
  }

  /** Combined box `k` holds one cell per prefix dimension, followed by one of the tails. */
  lemma CombineAt(prefixes: seq<seq<int>>, tails: seq<Box>, n: nat, k: nat) returns (j: nat)
    requires SameLength(prefixes, n) && k < |Combine(prefixes, tails)|
    ensures j < |tails| && |Combine(prefixes, tails)[k]| == n + |tails[j]|
    ensures forall g :: 0 <= g < n ==> Combine(prefixes, tails)[k][g].size == 1
    ensures Combine(prefixes, tails)[k][n..] == tails[j]
  {
    var i;
    i, j := CombineEntry(prefixes, tails, k);
  }

  /** One tail per interval: the interval, followed by the box `rest`. */
  function IntervalTails(ins: seq<Interval>, rest: Box): (tails: seq<Box>)
    ensures |tails| == |ins|
  {
    seq(|ins|, j requires 0 <= j < |ins| => [ins[j]] + rest)
  }

  /** Separated intervals give ascending tails, all of one length. */
  lemma IntervalTailsAscending(ins: seq<Interval>, rest: Box)
    requires Separated(ins)
    ensures Ascending(IntervalTails(ins, rest)) && Rank(IntervalTails(ins, rest), |rest| + 1)
  {
    var tails := IntervalTails(ins, rest);
    forall i, j | 0 <= i < j < |tails|
      ensures Apart(tails[i], tails[j]) && LexLess(Origins(tails[i]), Origins(tails[j]))
    {
      assert tails[i][0] == ins[i] && tails[j][0] == ins[j];
      assert ins[i].Hi() <= ins[j].origin && ins[i].size > 0;
      assert Origins(tails[i])[0] < Origins(tails[j])[0];
    }
  }

  /** Intervals inside `bound` give tails within `[bound] + rest`. */
  lemma IntervalTailsWithin(ins: seq<Interval>, rest: Box, bound: Interval)
    requires forall j :: 0 <= j < |ins| ==> Inside(ins[j], bound)
    ensures forall j :: 0 <= j < |ins| ==> BoxWithin(IntervalTails(ins, rest)[j], [bound] + rest)
  {
    var tails := IntervalTails(ins, rest);
    forall j | 0 <= j < |ins| ensures BoxWithin(tails[j], [bound] + rest) {
      forall g | 0 <= g < |tails[j]| ensures Within(tails[j][g], ([bound] + rest)[g]) {
        if g > 0 {
          assert tails[j][g] == rest[g - 1] == ([bound] + rest)[g];
        }
      }
    }
  }

  /** A cell whose first coordinate lies in interval `j` and whose rest lies in `rest` lies in tail `j`. */
  lemma IntervalTailsHit(ins: seq<Interval>, rest: Box, t: seq<int>, j: nat)
    requires j < |ins| && |t| > 0 && ins[j].Contains(t[0]) && InBox(rest, t[1..])
    ensures InBox(IntervalTails(ins, rest)[j], t)
  {
    var b := IntervalTails(ins, rest)[j];
    forall g | 0 <= g < |t| ensures b[g].Contains(t[g]) {
      if g > 0 {
        assert b[g] == rest[g - 1] && t[1..][g - 1] == t[g];
      }
    }
  }

  // ---------------------------------------------------------------------------
  // Runs of consecutive cell indices.

  predicate Increasing(xs: seq<int>) {
    forall i, j :: 0 <= i < j < |xs| ==> xs[i] < xs[j]
  }

  /**
   * Non-empty intervals in ascending order with at least one index missing
   * between any two of them, so that no two could be merged into one.
   */
  predicate Separated(rs: seq<Interval>) {
    && (forall i :: 0 <= i < |rs| ==> rs[i].size > 0)
    && (forall i, j :: 0 <= i < j < |rs| ==> rs[i].Hi() < rs[j].origin)
  }

  /** The maximal runs of consecutive indices of an increasing list, in order. */
  function IntRuns(xs: seq<int>): (rs: seq<Interval>)
    ensures xs == [] <==> rs == []
    ensures rs != [] ==> rs[0].origin == xs[0]
  {
    if xs == [] then []
    else
      var rest := IntRuns(xs[1..]);
      if rest != [] && rest[0].origin == xs[0] + 1 then [Interval(xs[0], rest[0].size + 1)] + rest[1..]
      else [Interval(xs[0], 1)] + rest
  }

  /** Two adjacent indices covered by separated intervals are covered by the same one. */
  lemma SeparatedNeighbours(rs: seq<Interval>, i: nat, j: nat, v: int)
    requires Separated(rs) && i < |rs| && j < |rs|
    requires rs[i].Contains(v) && rs[j].Contains(v + 1)
    ensures i == j
  {
  }

  /** A non-empty interval ending short of the start of a separated list extends it. */
  lemma SeparatedCons(r: Interval, rest: seq<Interval>)
    requires Separated(rest) && r.size > 0 && (rest != [] ==> r.Hi() < rest[0].origin)
    ensures Separated([r] + rest)
  {
    var rs := [r] + rest;
    forall i, j | 0 <= i < j < |rs| ensures rs[i].Hi() < rs[j].origin {
      assert rs[j] == rest[j - 1];
      if i > 0 {
        assert rs[i] == rest[i - 1];
      } else if j > 1 {
        assert rest[0].Hi() <= rest[j - 1].origin;
      }
    }
  }

  /** Growing the first interval of a separated list down to `o` keeps it separated. */
  lemma SeparatedGrow(o: int, rest: seq<Interval>)
    requires Separated(rest) && rest != [] && rest[0].origin == o + 1
    ensures Separated([Interval(o, rest[0].size + 1)] + rest[1..])
  {
    var tail := rest[1..];
    assert Separated(tail) by {
      forall i, j | 0 <= i < j < |tail| ensures tail[i].Hi() < tail[j].origin {
        assert tail[i] == rest[i + 1] && tail[j] == rest[j + 1];
      }
    }
    if tail != [] {
      assert tail[0] == rest[1];
    }
    SeparatedCons(Interval(o, rest[0].size + 1), tail);
  }

  /** The runs of an increasing list are separated: each run is maximal. */
  lemma {:induction false} IntRunsSeparated(xs: seq<int>)
    requires Increasing(xs)
    ensures Separated(IntRuns(xs))
  {
    if xs != [] {
      var rest := IntRuns(xs[1..]);
      IntRunsSeparated(xs[1..]);
      if rest != [] && rest[0].origin == xs[0] + 1 {
        SeparatedGrow(xs[0], rest);
      } else {
        if rest != [] {
          assert rest[0].origin == xs[1] > xs[0] + 1;
        }
        SeparatedCons(Interval(xs[0], 1), rest);
      }
    }
  }

  /** Every index of the list lies in one of its runs. */
  lemma {:induction false} IntRunsCover(xs: seq<int>, k: nat) returns (i: nat)
    requires k < |xs|
    ensures i < |IntRuns(xs)| && IntRuns(xs)[i].Contains(xs[k])
  {
    var rest := IntRuns(xs[1..]);
    var rs := IntRuns(xs);
    var merged := rest != [] && rest[0].origin == xs[0] + 1;
    if k == 0 {
      i := 0;
    } else {
      assert xs[1..][k - 1] == xs[k];
      var i0 := IntRunsCover(xs[1..], k - 1);
      if merged {
        i := i0;
        if i0 > 0 {
          assert rs[i0] == rest[i0];
        }
      } else {
        i := i0 + 1;
        assert rs[i0 + 1] == rest[i0];
      }
    }
  }

  /** Every index in a run is an index of the list. */
  lemma {:induction false} IntRunsSource(xs: seq<int>, i: nat, v: int) returns (k: nat)
    requires i < |IntRuns(xs)| && IntRuns(xs)[i].Contains(v)
    ensures k < |xs| && xs[k] == v
  {
    var rest := IntRuns(xs[1..]);
    var rs := IntRuns(xs);
    var merged := rest != [] && rest[0].origin == xs[0] + 1;
    if merged {
      if i == 0 && v == xs[0] {
        k := 0;
      } else {
        assert rs[i] == rest[i] || (i == 0 && rest[0].Contains(v));
        var k0 := IntRunsSource(xs[1..], i, v);
        k := k0 + 1;
      }
    } else if i == 0 {
      k := 0;
    } else {
      assert rs[i] == rest[i - 1];
      var k0 := IntRunsSource(xs[1..], i - 1, v);
      k := k0 + 1;
    }
  }

  /** The runs of a list hold exactly its indices. */
  lemma IntRunsMembers(xs: seq<int>, v: int)
    ensures v in xs <==> exists i :: 0 <= i < |IntRuns(xs)| && IntRuns(xs)[i].Contains(v)
  {
    if v in xs {
      var k :| 0 <= k < |xs| && xs[k] == v;
      var i := IntRunsCover(xs, k);
    }
    if exists i :: 0 <= i < |IntRuns(xs)| && IntRuns(xs)[i].Contains(v) {
      var i :| 0 <= i < |IntRuns(xs)| && IntRuns(xs)[i].Contains(v);
      var k := IntRunsSource(xs, i, v);
    }
  }

  /** Each interval clipped to `bound`, the empty ones dropped. */
  function ClipAll(rs: seq<Interval>, bound: Interval): seq<Interval> {
    if rs == [] then []
    else
      var c := Clip(bound, HalfOpen(Some(rs[0].origin), Some(rs[0].Hi())));
      (if c.size > 0 then [c] else []) + ClipAll(rs[1..], bound)
  }

  /** A non-empty clip of `r` to `bound` lies inside both. */
  lemma ClipInside(r: Interval, bound: Interval)
    requires Clip(bound, HalfOpen(Some(r.origin), Some(r.Hi()))).size > 0
    ensures var c := Clip(bound, HalfOpen(Some(r.origin), Some(r.Hi())));
            Inside(c, r) && Inside(c, bound)
  {
    var c := Clip(bound, HalfOpen(Some(r.origin), Some(r.Hi())));
    assert c.Contains(c.origin) && c.Contains(c.Hi() - 1);
  }

  /** Every clipped interval lies inside `bound` and inside the interval it was clipped from. */
  lemma {:induction false} ClipAllSource(rs: seq<Interval>, bound: Interval, i: nat) returns (j: nat)
    requires i < |ClipAll(rs, bound)|
    ensures j < |rs| && Inside(ClipAll(rs, bound)[i], rs[j]) && Inside(ClipAll(rs, bound)[i], bound)
  {
    var c := Clip(bound, HalfOpen(Some(rs[0].origin), Some(rs[0].Hi())));
    var rest := ClipAll(rs[1..], bound);
    if c.size > 0 {
      ClipInside(rs[0], bound);
      if i == 0 {
        j := 0;
      } else {
        var j0 := ClipAllSource(rs[1..], bound, i - 1);
        j := j0 + 1;
        assert ClipAll(rs, bound)[i] == rest[i - 1];
      }
    } else {
      var j0 := ClipAllSource(rs[1..], bound, i);
      j := j0 + 1;
      assert ClipAll(rs, bound)[i] == rest[i];
    }
  }

  /** Every clipped interval lies inside `bound`. */
  lemma ClipAllInside(rs: seq<Interval>, bound: Interval)
    ensures forall i :: 0 <= i < |ClipAll(rs, bound)| ==> Inside(ClipAll(rs, bound)[i], bound)
  {
    forall i | 0 <= i < |ClipAll(rs, bound)| ensures Inside(ClipAll(rs, bound)[i], bound) {
      var _ := ClipAllSource(rs, bound, i);
    }
  }

  /** Clipping keeps separated intervals separated. */
  lemma {:induction false} ClipAllSeparated(rs: seq<Interval>, bound: Interval)
    requires Separated(rs)
    ensures Separated(ClipAll(rs, bound))
  {
    if rs != [] {
      var c := Clip(bound, HalfOpen(Some(rs[0].origin), Some(rs[0].Hi())));
      var rest := ClipAll(rs[1..], bound);
      ClipAllSeparated(rs[1..], bound);
      var out := ClipAll(rs, bound);
      forall i | 0 <= i < |out| ensures out[i].size > 0 {
        var _ := ClipAllSource(rs, bound, i);
      }
      if c.size > 0 {
        ClipInside(rs[0], bound);
        forall i, j | 0 <= i < j < |out| ensures out[i].Hi() < out[j].origin {
          assert out[j] == rest[j - 1];
          if i > 0 {
            assert out[i] == rest[i - 1];
          } else {
            var j0 := ClipAllSource(rs[1..], bound, j - 1);
            assert rs[0].Hi() < rs[j0 + 1].origin;
          }
        }
      } else {
        assert out == rest;
      }
    }
  }

  /** An index inside `bound` and one of `rs` lies in one of the clipped intervals. */
  lemma {:induction false} ClipAllCovers(rs: seq<Interval>, bound: Interval, v: int, j: nat) returns (i: nat)
    requires j < |rs| && rs[j].Contains(v) && bound.Contains(v)
    ensures i < |ClipAll(rs, bound)| && ClipAll(rs, bound)[i].Contains(v)
  {
    var c := Clip(bound, HalfOpen(Some(rs[0].origin), Some(rs[0].Hi())));
    var rest := ClipAll(rs[1..], bound);
    var out := ClipAll(rs, bound);
    if j == 0 {
      assert c.Contains(v) && out[0] == c;
      i := 0;
    } else {
      assert rs[1..][j - 1] == rs[j];
      var i0 := ClipAllCovers(rs[1..], bound, v, j - 1);
      if c.size > 0 {
        i := i0 + 1;
        assert out[i] == rest[i0];
      } else {
        i := i0;
        assert out == rest;
      }
    }
  }

  /** Clipping keeps exactly the indices inside `bound`. */
  lemma ClipAllMembers(rs: seq<Interval>, bound: Interval, v: int)
    ensures (exists i :: 0 <= i < |ClipAll(rs, bound)| && ClipAll(rs, bound)[i].Contains(v)) <==>
            bound.Contains(v) && exists j :: 0 <= j < |rs| && rs[j].Contains(v)
  {
    var out := ClipAll(rs, bound);
    if exists i :: 0 <= i < |out| && out[i].Contains(v) {
      var i :| 0 <= i < |out| && out[i].Contains(v);
      var j := ClipAllSource(rs, bound, i);
      assert rs[j].Contains(v);
    }
    if bound.Contains(v) && exists j :: 0 <= j < |rs| && rs[j].Contains(v) {
      var j :| 0 <= j < |rs| && rs[j].Contains(v);
      var i := ClipAllCovers(rs, bound, v, j);
    }
  }
}
