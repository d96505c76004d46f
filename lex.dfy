/**
 * Lexicographic order on grid cell index tuples, and the ascending list of
 * the distinct tuples of a sequence (the order in which groups of an
 * index-array set, and cell ranges, are reported).
 */
module LexOrder {

  /** `a` precedes `b` lexicographically (tuples of equal length). */
  predicate LexLess(a: seq<int>, b: seq<int>)
    decreases |a|
  {
    |a| > 0 && |b| > 0 && (a[0] < b[0] || (a[0] == b[0] && LexLess(a[1..], b[1..])))
  }

  lemma {:induction false} LexLessIrreflexive(a: seq<int>)
    ensures !LexLess(a, a)
    decreases |a|
  {
    if |a| > 0 {
      LexLessIrreflexive(a[1..]);
    }
  }

  lemma {:induction false} LexLessTransitive(a: seq<int>, b: seq<int>, c: seq<int>)
    requires LexLess(a, b) && LexLess(b, c)
    ensures LexLess(a, c)
    decreases |a|
  {
    if a[0] == b[0] && b[0] == c[0] {
      LexLessTransitive(a[1..], b[1..], c[1..]);
    }
  }

  /** Distinct tuples of the same length are ordered one way or the other. */
  lemma {:induction false} LexLessTotal(a: seq<int>, b: seq<int>)
    requires |a| == |b| && a != b
    ensures LexLess(a, b) || LexLess(b, a)
    decreases |a|
  {
    if a[0] == b[0] {
      assert a == [a[0]] + a[1..] && b == [b[0]] + b[1..];
      LexLessTotal(a[1..], b[1..]);
    }
  }

  /** Tuples sharing a prefix are ordered by what follows it. */
  lemma {:induction false} LexLessCommonPrefix(p: seq<int>, a: seq<int>, b: seq<int>)
    requires LexLess(a, b)
    ensures LexLess(p + a, p + b)
    decreases |p|
  {
    if |p| > 0 {
      assert (p + a)[1..] == p[1..] + a && (p + b)[1..] == p[1..] + b;
      LexLessCommonPrefix(p[1..], a, b);
    } else {
      assert p + a == a && p + b == b;
    }
  }

  /** Tuples are ordered by their first differing prefix, whatever follows. */
  lemma {:induction false} LexLessExtend(a: seq<int>, b: seq<int>, a': seq<int>, b': seq<int>)
    requires |a| == |b| && LexLess(a, b)
    ensures LexLess(a + a', b + b')
    decreases |a|
  {
    if a[0] == b[0] {
      assert (a + a')[1..] == a[1..] + a' && (b + b')[1..] == b[1..] + b';
      LexLessExtend(a[1..], b[1..], a', b');
    }
  }

  predicate SortedStrict(keys: seq<seq<int>>) {
    forall i, j :: 0 <= i < j < |keys| ==> LexLess(keys[i], keys[j])
  }

  predicate SameLength(keys: seq<seq<int>>, n: nat) {
    forall i :: 0 <= i < |keys| ==> |keys[i]| == n
  }

  /** Inserts `k` into an ascending list of distinct tuples, unless it is already there. */
  function Insert(keys: seq<seq<int>>, k: seq<int>): (r: seq<seq<int>>)
  {
    if keys == [] then [k]
    else if keys[0] == k then keys
    else if LexLess(k, keys[0]) then [k] + keys
    else [keys[0]] + Insert(keys[1..], k)
  }

  lemma {:induction false} InsertSorted(keys: seq<seq<int>>, k: seq<int>, n: nat)
    requires SortedStrict(keys) && SameLength(keys, n) && |k| == n
    ensures SortedStrict(Insert(keys, k)) && SameLength(Insert(keys, k), n)
    ensures forall x :: x in Insert(keys, k) <==> x in keys || x == k
  {
    if keys == [] || keys[0] == k {
    } else if LexLess(k, keys[0]) {
      var r := [k] + keys;
      forall i, j | 0 <= i < j < |r| ensures LexLess(r[i], r[j]) {
        if i == 0 && j > 1 {
          LexLessTransitive(k, keys[0], keys[j - 1]);
        }
      }
    } else {
      LexLessTotal(k, keys[0]);
      InsertSorted(keys[1..], k, n);
      var rest := Insert(keys[1..], k);
      var r := [keys[0]] + rest;
      forall i, j | 0 <= i < j < |r| ensures LexLess(r[i], r[j]) {
        if i == 0 {
          assert r[j] in rest;
          assert r[j] in keys[1..] || r[j] == k;
        }
      }
      assert forall x :: x in keys <==> x == keys[0] || x in keys[1..] by {
        assert keys == [keys[0]] + keys[1..];
      }
    }
  }

  /** The distinct tuples of `items`, in ascending lexicographic order. */
  function SortedDistinct(items: seq<seq<int>>): seq<seq<int>>
  {
    if items == [] then [] else Insert(SortedDistinct(items[..|items| - 1]), items[|items| - 1])
  }

  lemma {:induction false} SortedDistinctCorrect(items: seq<seq<int>>, n: nat)
    requires SameLength(items, n)
    ensures SortedStrict(SortedDistinct(items)) && SameLength(SortedDistinct(items), n)
    ensures forall x :: x in SortedDistinct(items) <==> x in items
  {
    if items != [] {
      var init := items[..|items| - 1];
      SortedDistinctCorrect(init, n);
      InsertSorted(SortedDistinct(init), items[|items| - 1], n);
      assert items == init + [items[|items| - 1]];
    }
  }

  /** In a strictly ascending list no tuple appears twice. */
  lemma SortedStrictDistinct(keys: seq<seq<int>>, i: nat, j: nat)
    requires SortedStrict(keys) && i < |keys| && j < |keys| && i != j
    ensures keys[i] != keys[j]
  {
    if i < j {
      LexLessIrreflexive(keys[i]);
    } else {
      LexLessIrreflexive(keys[j]);
    }
  }
}
