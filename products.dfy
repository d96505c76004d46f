/**
 * Cartesian products of lists, in the order a nest of loops enumerates them:
 * the first list varies outermost, the last list innermost.
 */
module Products {

  ghost predicate NoDuplicates<T>(s: seq<T>) {
    forall i, j :: 0 <= i < j < |s| ==> s[i] != s[j]
  }

  /** Every element of `l` put in front of every tuple of `p`, `l` varying outermost. */
  function Prepend<T>(l: seq<T>, p: seq<seq<T>>): seq<seq<T>> {
    if l == [] then []
    else seq(|p|, j requires 0 <= j < |p| => [l[0]] + p[j]) + Prepend(l[1..], p)
  }

  /** The tuples of `lists`, in nested-loop order. */
  function Product<T>(lists: seq<seq<T>>): seq<seq<T>> {
    if lists == [] then [[]] else Prepend(lists[0], Product(lists[1..]))
  }

  lemma {:induction false} PrependMembers<T>(l: seq<T>, p: seq<seq<T>>, e: seq<T>)
    ensures e in Prepend(l, p) <==> |e| > 0 && e[0] in l && e[1..] in p
  {
    if l != [] {
      var head := seq(|p|, j requires 0 <= j < |p| => [l[0]] + p[j]);
      PrependMembers(l[1..], p, e);
      assert e in Prepend(l, p) <==> e in head || e in Prepend(l[1..], p);
      assert l == [l[0]] + l[1..];
      if e in head {
        var j :| 0 <= j < |p| && head[j] == e;
        assert e[1..] == p[j];
      }
      if |e| > 0 && e[0] == l[0] && e[1..] in p {
        var j :| 0 <= j < |p| && p[j] == e[1..];
        assert e == head[j];
      }
    }
  }

  /** A tuple is in the product exactly when each of its entries is in the corresponding list. */
  lemma {:induction false} ProductMembers<T>(lists: seq<seq<T>>, e: seq<T>)
    ensures e in Product(lists) <==>
              |e| == |lists| && forall k :: 0 <= k < |e| ==> e[k] in lists[k]
  {
    if lists != [] {
      PrependMembers(lists[0], Product(lists[1..]), e);
      if |e| > 0 {
        ProductMembers(lists[1..], e[1..]);
        if |e| == |lists| && forall k :: 0 <= k < |e| ==> e[k] in lists[k] {
          assert forall k :: 0 <= k < |e[1..]| ==> e[1..][k] == e[k + 1];
        }
        if e[0] in lists[0] && e[1..] in Product(lists[1..]) {
          forall k | 0 <= k < |e| ensures e[k] in lists[k] {
            if k > 0 { assert e[k] == e[1..][k - 1]; }
          }
        }
      }
    } else {
      assert Product(lists) == [[]];
    }
  }

  lemma {:induction false} PrependNoDuplicates<T>(l: seq<T>, p: seq<seq<T>>)
    requires NoDuplicates(l) && NoDuplicates(p)
    ensures NoDuplicates(Prepend(l, p))
  {
    if l != [] {
      var head := seq(|p|, j requires 0 <= j < |p| => [l[0]] + p[j]);
      var tail := Prepend(l[1..], p);
      PrependNoDuplicates(l[1..], p);
      var r := head + tail;
      forall i, j | 0 <= i < j < |r| ensures r[i] != r[j] {
        if j < |head| {
          assert r[i][1..] == p[i] && r[j][1..] == p[j];
        } else if i >= |head| {
          assert r[i] == tail[i - |head|] && r[j] == tail[j - |head|];
        } else {
          PrependMembers(l[1..], p, r[j]);
          assert r[j] == tail[j - |head|];
          assert r[j][0] in l[1..];
          assert r[i][0] == l[0];
        }
      }
    }
  }

  /** The product of duplicate-free lists is duplicate-free. */
  lemma {:induction false} ProductNoDuplicates<T>(lists: seq<seq<T>>)
    requires forall k :: 0 <= k < |lists| ==> NoDuplicates(lists[k])
    ensures NoDuplicates(Product(lists))
  {
    if lists != [] {
      ProductNoDuplicates(lists[1..]);
      PrependNoDuplicates(lists[0], Product(lists[1..]));
    }
  }

  lemma {:induction false} PrependLength<T>(l: seq<T>, p: seq<seq<T>>)
    ensures |Prepend(l, p)| == |l| * |p|
  {
    if l != [] {
      PrependLength(l[1..], p);
      assert |l| * |p| == |p| + (|l| - 1) * |p|;
    }
  }

  /** Entry `i * |p| + j` of `Prepend(l, p)` pairs the `i`-th element of `l` with the `j`-th tuple of `p`. */
  lemma {:induction false} PrependIndex<T>(l: seq<T>, p: seq<seq<T>>, i: nat, j: nat)
    requires i < |l| && j < |p|
    ensures i * |p| + j < |Prepend(l, p)|
    ensures Prepend(l, p)[i * |p| + j] == [l[i]] + p[j]
  {
    PrependLength(l, p);
    MulStep(i, |l|, |p|);
    if i > 0 {
      PrependIndex(l[1..], p, i - 1, j);
      assert (i - 1) * |p| + j + |p| == i * |p| + j;
    }
  }

  lemma MulStep(i: nat, n: nat, m: nat)
    requires i < n
    ensures i * m + m <= n * m
  {
    var d := n - i;
    assert n * m == i * m + d * m;
    assert d * m == m + (d - 1) * m;
  }

  /**
   * The product of two lists enumerates the pairs with the first list
   * outermost: entry `i * |b| + j` is `[a[i], b[j]]`.
   */
  lemma ProductOfTwo<T>(a: seq<T>, b: seq<T>, i: nat, j: nat)
    requires i < |a| && j < |b|
    ensures i * |b| + j < |Product([a, b])|
    ensures Product([a, b])[i * |b| + j] == [a[i], b[j]]
  {
    var inner := Product([b]);
    assert [a, b][1..] == [b] && [b][1..] == [];
    assert Product([b][1..]) == [[]];
    assert inner == Prepend(b, [[]]);
    PrependIndex(b, [[]], j, 0);
    assert inner[j] == [b[j]];
    PrependLength(b, [[]]);
    assert |inner| == |b|;
    PrependIndex(a, inner, i, j);
  }
}
