/**
 * Incremental aggregation (`GroupByWithAggs`): each micro-batch of changes
 * is grouped twice, once over the rows that add to the aggregate (inserts
 * and update post-images, the "plus" side) and once over the update
 * pre-images (the "minus" side); a per-group delta is staged and merged
 * into the target table, adding to a matched group and inserting a new one.
 * The aggregate modelled is a sum of one integer column.
 */
module Aggregator {
  import opened Wrappers
  import opened Rows

  /** A group key: the values of the group-by columns. */
  type GroupKey = seq<Option<int>>

  /** One change of the source stream, reduced to its group and its aggregated value. */
  datatype Change = Change(kind: ChangeType, key: GroupKey, value: int)

  /** Grouped sums, and the target table: one aggregate per group. */
  type Sums = map<GroupKey, int>

  /** The aggregate of `k`, or 0 for a group that is absent. */
  function Lookup(m: Sums, k: GroupKey): int
  {
    if k in m then m[k] else 0
  }

  /** Whether a change belongs to the minus side (update pre-images) or the plus side. */
  predicate OnSide(c: Change, minus: bool)
  {
    (c.kind == UpdatePreimage) == minus
  }

  /** Reference sum: the values of the changes of group `k` on one side. */
  function SumOf(cs: seq<Change>, minus: bool, k: GroupKey): int
  {
    if cs == [] then 0
    else SumOf(cs[..|cs| - 1], minus, k) + (if OnSide(cs[|cs| - 1], minus) && cs[|cs| - 1].key == k then cs[|cs| - 1].value else 0)
  }

  /** `where(side).groupBy(keys).agg(sum)`: one entry per group present on that side. */
  function GroupSums(cs: seq<Change>, minus: bool): (g: Sums)
  {
    if cs == [] then map[]
    else
      var g := GroupSums(cs[..|cs| - 1], minus);
      var c := cs[|cs| - 1];
      if OnSide(c, minus) then g[c.key := Lookup(g, c.key) + c.value] else g
  }

  /**
   * Grouping is exact: a group is present iff some change on that side has
   * its key, and its sum is the reference sum.
   */
  lemma {:induction false} GroupSumsAreSums(cs: seq<Change>, minus: bool, k: GroupKey)
    ensures k in GroupSums(cs, minus) <==> exists i :: 0 <= i < |cs| && OnSide(cs[i], minus) && cs[i].key == k
    ensures Lookup(GroupSums(cs, minus), k) == SumOf(cs, minus, k)
    decreases |cs|
  {
    if cs != [] {
      var init := cs[..|cs| - 1];
      GroupSumsAreSums(init, minus, k);
      assert forall i :: 0 <= i < |init| ==> init[i] == cs[i];
      if k in GroupSums(cs, minus) && k !in GroupSums(init, minus) {
        assert OnSide(cs[|cs| - 1], minus) && cs[|cs| - 1].key == k;
      }
    }
  }

  /**
   * Merge of the staged deltas into the target on null-safe key equality:
   * a matched group gets `u + staged`, an unmatched staged group is
   * inserted, and every other target group is left as it is.
   */
  function MergeInto(target: Sums, staged: Sums): (r: Sums)
    ensures r.Keys == target.Keys + staged.Keys
    ensures forall k :: k in target && k in staged ==> r[k] == target[k] + staged[k]
    ensures forall k :: k in target && k !in staged ==> r[k] == target[k]
    ensures forall k :: k !in target && k in staged ==> r[k] == staged[k]
  {
    map k | k in target.Keys + staged.Keys ::
      if k in target && k in staged then target[k] + staged[k]
      else if k in target then target[k]
      else staged[k]
  }

  // ---------------------------------------------------------------------
  // The staged delta as written

  /**
   * `plus LEFT JOIN minus`, then `CASE WHEN m IS NOT NULL THEN p - m ELSE p`:
   * one delta per group of the plus side only.
   */
  function StagedAsWritten(plus: Sums, minus: Sums): (s: Sums)
    ensures s.Keys == plus.Keys
  {
    map k | k in plus :: if k in minus then plus[k] - minus[k] else plus[k]
  }

  function ApplyAsWritten(target: Sums, cs: seq<Change>): Sums
  {
    MergeInto(target, StagedAsWritten(GroupSums(cs, false), GroupSums(cs, true)))
  }

  /**
   * What the code does get right: every group with a plus-side change ends
   * at its old aggregate plus its plus sum minus its minus sum, and groups
   * the batch does not touch are unchanged.
   */
  lemma AsWrittenUpdatesPlusGroups(target: Sums, cs: seq<Change>, k: GroupKey)
    ensures k in GroupSums(cs, false) ==>
      k in ApplyAsWritten(target, cs) &&
      ApplyAsWritten(target, cs)[k] == Lookup(target, k) + SumOf(cs, false, k) - SumOf(cs, true, k)
    ensures k !in GroupSums(cs, false) && k !in GroupSums(cs, true) ==>
      Lookup(ApplyAsWritten(target, cs), k) == Lookup(target, k)
  {
    GroupSumsAreSums(cs, false, k);
    GroupSumsAreSums(cs, true, k);
  }

  /**
   * A batch whose plus side equals its minus side (every update rewrote
   * rows without changing their aggregated values or groups) leaves every
   * matched aggregate unchanged.
   */
  lemma AsWrittenBalancedBatchKeepsMatched(target: Sums, cs: seq<Change>, k: GroupKey)
    requires GroupSums(cs, false) == GroupSums(cs, true)
    requires k in target
    ensures ApplyAsWritten(target, cs)[k] == target[k]
  {
  }

  /** A row moved from group `[1]` to group `[2]` by an update. */
  const MovedFrom: GroupKey := [Some(1)]
  const MovedTo: GroupKey := [Some(2)]
  const MovedRow: seq<Change> := [Change(UpdatePreimage, MovedFrom, 5), Change(UpdatePostimage, MovedTo, 5)]

  /** The reference sums of the moved row: 5 leaves `[1]` and 5 enters `[2]`. */
  lemma MovedRowSums()
    ensures MovedFrom != MovedTo
    ensures SumOf(MovedRow, true, MovedFrom) == 5 && SumOf(MovedRow, false, MovedFrom) == 0
    ensures SumOf(MovedRow, false, MovedTo) == 5 && SumOf(MovedRow, true, MovedTo) == 0
  {
    assert MovedFrom[0] != MovedTo[0];
    var cs := MovedRow;
    var first := cs[..1];
    assert cs[..|cs| - 1] == first;
    assert first[..|first| - 1] == [];
    assert first[0] == cs[0] && cs[0].kind == UpdatePreimage && cs[1].kind == UpdatePostimage;
    forall minus: bool, k: GroupKey | k == MovedFrom || k == MovedTo
      ensures SumOf(cs, minus, k) == SumOf(first, minus, k) + (if OnSide(cs[1], minus) && cs[1].key == k then 5 else 0)
      ensures SumOf(first, minus, k) == (if OnSide(cs[0], minus) && cs[0].key == k then 5 else 0)
    {
    }
  }

  /**
   * As written, a group that appears only among the update pre-images is
   * never decremented: moving a row of value 5 out of a group whose total
   * is 5 leaves that group at 5 instead of 0.
   */
  lemma AsWrittenMissesMinusOnlyGroup()
    ensures Lookup(map[MovedFrom := 5], MovedFrom) + SumOf(MovedRow, false, MovedFrom) - SumOf(MovedRow, true, MovedFrom) == 0
    ensures ApplyAsWritten(map[MovedFrom := 5], MovedRow)[MovedFrom] == 5
  {
    MovedRowSums();
    GroupSumsAreSums(MovedRow, false, MovedFrom);
    assert MovedFrom !in GroupSums(MovedRow, false);
  }

  // ---------------------------------------------------------------------
  // The corrected staged delta

  /**
   * `plus FULL OUTER JOIN minus`: one delta per group present on either
   * side, `p - m` with an absent side counting as 0.
   */
  function StagedFull(plus: Sums, minus: Sums): (s: Sums)
    ensures s.Keys == plus.Keys + minus.Keys
  {
    map k | k in plus.Keys + minus.Keys :: Lookup(plus, k) - Lookup(minus, k)
  }

  function ApplyFull(target: Sums, cs: seq<Change>): Sums
  {
    MergeInto(target, StagedFull(GroupSums(cs, false), GroupSums(cs, true)))
  }

  /**
   * Conservation: after the corrected merge every group's aggregate is its
   * old aggregate plus its plus sum minus its minus sum; a group is present
   * iff it was present before or the batch touched it.
   */
  lemma FullConservesEveryGroup(target: Sums, cs: seq<Change>, k: GroupKey)
    ensures Lookup(ApplyFull(target, cs), k) == Lookup(target, k) + SumOf(cs, false, k) - SumOf(cs, true, k)
    ensures k in ApplyFull(target, cs) <==>
      k in target || exists i :: 0 <= i < |cs| && cs[i].key == k
  {
    GroupSumsAreSums(cs, false, k);
    GroupSumsAreSums(cs, true, k);
    if exists i :: 0 <= i < |cs| && cs[i].key == k {
      var i :| 0 <= i < |cs| && cs[i].key == k;
      assert OnSide(cs[i], false) || OnSide(cs[i], true);
    }
  }

  /** The correction changes nothing for batches whose minus groups all have plus changes. */
  lemma FullAgreesWhenMinusGroupsArePlusGroups(target: Sums, cs: seq<Change>)
    requires GroupSums(cs, true).Keys <= GroupSums(cs, false).Keys
    ensures ApplyFull(target, cs) == ApplyAsWritten(target, cs)
  {
    var plus, minus := GroupSums(cs, false), GroupSums(cs, true);
    assert StagedFull(plus, minus) == StagedAsWritten(plus, minus);
  }

  /** The corrected merge keeps the aggregate of the moved-from group right: 5 - 5. */
  lemma FullHandlesMovedRow()
    ensures ApplyFull(map[MovedFrom := 5], MovedRow)[MovedFrom] == 0
    ensures ApplyFull(map[MovedFrom := 5], MovedRow)[MovedTo] == 5
  {
    var target := map[MovedFrom := 5];
    MovedRowSums();
    FullConservesEveryGroup(target, MovedRow, MovedFrom);
    FullConservesEveryGroup(target, MovedRow, MovedTo);
    assert MovedRow[1].key == MovedTo;
  }
}
