/**
 * Handing a list of results to a caller-supplied visitor, in order, stopping
 * at the first call that fails.
 */
module Visitors {
  import opened Options

  /**
   * Hands the elements of `items` to `visit`, in order, stopping at the
   * first call that fails and returning its status.  `delivered` records the
   * elements handed over.
   */
  method VisitAll<T>(items: seq<T>, visit: T -> Status) returns (status: Status, delivered: seq<T>)
    ensures delivered <= items
    ensures forall i :: 0 <= i < |delivered| - 1 ==> visit(delivered[i]).Ok?
    ensures status.Ok? ==> delivered == items && forall i :: 0 <= i < |delivered| ==> visit(delivered[i]).Ok?
    ensures status.Failed? ==> delivered != [] && status == visit(delivered[|delivered| - 1])
  {
    delivered := [];
    var i := 0;
    while i < |items|
      invariant 0 <= i <= |items|
      invariant delivered == items[..i]
      invariant forall j :: 0 <= j < i ==> visit(items[j]).Ok?
    {
      var r := visit(items[i]);
      delivered := delivered + [items[i]];
      if r.Failed? {
        return r, delivered;
      }
      i := i + 1;
    }
    status := Ok;
  }
}
