/**
 * The layout of a cell transform.  Each original input dimension either
 * takes its index from the index array of a group (one new input dimension
 * per group, first), or keeps a contiguous extent on a new input dimension
 * of its own (after the groups, in original order).
 */
module CellLayout {
  import opened Intervals
  import opened Transforms

  /** How the cell transform treats one original input dimension. */
  datatype DimRole = ArrayDim(group: nat) | FreeDim(extent: Interval)

  predicate ValidRoles(groups: seq<seq<int>>, roles: seq<DimRole>) {
    forall i :: 0 <= i < |roles| ==> roles[i].ArrayDim? ==> roles[i].group < |groups|
  }

  /** The number of free roles before position `i`. */
  function FreeBefore(roles: seq<DimRole>, i: nat): (n: nat)
    requires i <= |roles|
    ensures n <= i
  {
    if i == 0 then 0 else FreeBefore(roles, i - 1) + (if roles[i - 1].FreeDim? then 1 else 0)
  }

  /** The extents of the free roles before position `i`, in order. */
  function FreeExtents(roles: seq<DimRole>, i: nat): (r: seq<Interval>)
    requires i <= |roles|
    ensures |r| == FreeBefore(roles, i)
  {
    if i == 0 then []
    else FreeExtents(roles, i - 1) + (if roles[i - 1].FreeDim? then [roles[i - 1].extent] else [])
  }

  /** The extent of free role `i` is entry `FreeBefore(roles, i)` of every longer list of extents. */
  lemma {:induction false} FreeExtentAt(roles: seq<DimRole>, i: nat, n: nat)
    requires i < n <= |roles| && roles[i].FreeDim?
    ensures FreeBefore(roles, i) < FreeBefore(roles, n)
    ensures FreeExtents(roles, n)[FreeBefore(roles, i)] == roles[i].extent
  {
    if n - 1 > i {
      FreeExtentAt(roles, i, n - 1);
    }
  }

  function RoleOutput(groups: seq<seq<int>>, roles: seq<DimRole>, i: nat): CellOutput
    requires ValidRoles(groups, roles) && i < |roles|
  {
    match roles[i]
    case ArrayDim(k) => Indexed(k, groups[k])
    case FreeDim(_) => SingleInput(|groups| + FreeBefore(roles, i))
  }

  /** The cell transform with the given groups and roles. */
  function BuildCellTransform(groups: seq<seq<int>>, roles: seq<DimRole>): (ct: CellTransform)
    requires ValidRoles(groups, roles)
    ensures |ct.outputs| == |roles|
  {
    CellTransform(
      seq(|groups|, k requires 0 <= k < |groups| => Interval(0, |groups[k]|)) + FreeExtents(roles, |roles|),
      seq(|roles|, i requires 0 <= i < |roles| => RoleOutput(groups, roles, i)))
  }

  /**
   * Every output of `ct` reads a new input dimension of `ct`; an index array
   * has one value per index of the new dimension it reads, which starts at 0.
   */
  predicate WellFormedCellTransform(ct: CellTransform) {
    forall i :: 0 <= i < |ct.outputs| ==>
      ct.outputs[i].inputDim < |ct.domain| &&
      (ct.outputs[i].Indexed? ==>
         ct.domain[ct.outputs[i].inputDim] == Interval(0, |ct.outputs[i].values|))
  }

  /**
   * Output `i` of the built transform reaches exactly the indices of group
   * `k` for an array role, and exactly the extent for a free role.
   */
  lemma BuildReaches(groups: seq<seq<int>>, roles: seq<DimRole>, i: nat, v: int)
    requires ValidRoles(groups, roles) && i < |roles|
    ensures OutputReaches(BuildCellTransform(groups, roles), i, v) <==>
              match roles[i]
              case ArrayDim(k) => v in groups[k]
              case FreeDim(extent) => extent.Contains(v)
  {
    if roles[i].FreeDim? {
      FreeExtentAt(roles, i, |roles|);
    }
  }

  lemma BuildWellFormed(groups: seq<seq<int>>, roles: seq<DimRole>)
    requires ValidRoles(groups, roles)
    ensures WellFormedCellTransform(BuildCellTransform(groups, roles))
  {
    var ct := BuildCellTransform(groups, roles);
    forall i | 0 <= i < |ct.outputs|
      ensures ct.outputs[i].inputDim < |ct.domain|
      ensures ct.outputs[i].Indexed? ==> ct.domain[ct.outputs[i].inputDim] == Interval(0, |ct.outputs[i].values|)
    {
      if roles[i].FreeDim? {
        FreeExtentAt(roles, i, |roles|);
      }
    }
  }

  lemma {:induction false} AllFree(roles: seq<DimRole>, n: nat)
    requires n <= |roles| && forall i :: 0 <= i < |roles| ==> roles[i].FreeDim?
    ensures FreeBefore(roles, n) == n
    ensures FreeExtents(roles, n) == seq(n, i requires 0 <= i < n => roles[i].extent)
  {
    if n > 0 {
      AllFree(roles, n - 1);
    }
  }

  /**
   * Without groups and with every dimension free, the built transform keeps
   * every input dimension as it is, over its extent.
   */
  lemma BuildAllFree(roles: seq<DimRole>)
    requires forall i :: 0 <= i < |roles| ==> roles[i].FreeDim?
    ensures BuildCellTransform([], roles) ==
              CellTransform(seq(|roles|, i requires 0 <= i < |roles| => roles[i].extent),
                            seq(|roles|, i requires 0 <= i < |roles| => SingleInput(i)))
  {
    AllFree(roles, |roles|);
    var ct := BuildCellTransform([], roles);
    forall i | 0 <= i < |roles| ensures ct.outputs[i] == SingleInput(i) {
      AllFree(roles, i);
    }
    assert ct.domain == FreeExtents(roles, |roles|);
  }
}
