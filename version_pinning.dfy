/**
 * Version pinning in a stream-to-stream join: each micro-batch reads both
 * sides' snapshots at one commit version per side, chosen by a fallback
 * chain (the batch's largest `_commit_version`, else the version used for
 * the previous batch, else the table's latest version), and remembers it
 * for the next batch.
 */
module VersionPinning {
  import opened Wrappers
  import opened Rows

  /** A row of the packed stream: exactly one side carries a change event. */
  datatype Packed = Packed(left: Option<Event>, right: Option<Event>)

  /** The events of one side of a batch, without update pre-images. */
  function SideEvents(batch: seq<Packed>, isLeft: bool): (events: seq<Event>)
    ensures forall e :: e in events ==> e.changeType != UpdatePreimage
    ensures forall i :: 0 <= i < |batch| ==>
      var side := if isLeft then batch[i].left else batch[i].right;
      side.Some? && side.value.changeType != UpdatePreimage ==> side.value in events
  {
    if batch == [] then []
    else
      var side := if isLeft then batch[0].left else batch[0].right;
      var rest := SideEvents(batch[1..], isLeft);
      assert forall i :: 1 <= i < |batch| ==> batch[i] == batch[1..][i - 1];
      if side.Some? && side.value.changeType != UpdatePreimage then [side.value] + rest else rest
  }

  /** `F.max('_commit_version')`: null over no rows, else the largest version. */
  function MaxVersion(events: seq<Event>): (m: Option<nat>)
    ensures m.None? <==> events == []
    ensures m.Some? ==> (exists e :: e in events && e.commitVersion == m.value)
    ensures m.Some? ==> forall e :: e in events ==> e.commitVersion <= m.value
  {
    if events == [] then None
    else
      var rest := MaxVersion(events[1..]);
      assert forall e :: e in events[1..] ==> e in events;
      assert forall e :: e in events ==> e == events[0] || e in events[1..];
      if rest.None? || rest.value < events[0].commitVersion then Some(events[0].commitVersion) else rest
  }

  /** The fallback chain: batch maximum, then the last pinned version, then the latest version. */
  function Resolve(batchMax: Option<nat>, last: Option<nat>, latest: nat): nat
  {
    if batchMax.Some? then batchMax.value
    else if last.Some? then last.value
    else latest
  }

  // ---------------------------------------------------------------------
  // Over a sequence of batches

  /** The last present value in `s`, if any. */
  function LastPresent(s: seq<Option<nat>>): Option<nat>
  {
    if s == [] then None
    else if s[|s| - 1].Some? then s[|s| - 1]
    else LastPresent(s[..|s| - 1])
  }

  /**
   * `LastPresent` is null exactly when every value is, and otherwise it is
   * a present value with nothing present after it.
   */
  lemma {:induction false} LastPresentIsLast(s: seq<Option<nat>>)
    ensures LastPresent(s).None? <==> forall i :: 0 <= i < |s| ==> s[i].None?
    ensures LastPresent(s).Some? ==>
      exists i :: 0 <= i < |s| && s[i] == LastPresent(s) && forall j :: i < j < |s| ==> s[j].None?
    decreases |s|
  {
    if s != [] {
      var n := |s| - 1;
      if s[n].Some? {
        assert s[n] == LastPresent(s);
      } else {
        var init := s[..n];
        LastPresentIsLast(init);
        assert forall i :: 0 <= i < n ==> init[i] == s[i];
        if LastPresent(s).Some? {
          var i :| 0 <= i < n && init[i] == LastPresent(init) && forall j :: i < j < n ==> init[j].None?;
          assert s[i] == LastPresent(s) && forall j :: i < j < |s| ==> s[j].None?;
        }
      }
    }
  }

  /**
   * The versions pinned for one side over successive batches, given each
   * batch's maximum and the latest version the table reports at that batch.
   */
  function PinHistory(maxima: seq<Option<nat>>, last: Option<nat>, latests: seq<nat>): (pins: seq<nat>)
    requires |latests| == |maxima|
    ensures |pins| == |maxima|
    decreases |maxima|
  {
    if maxima == [] then []
    else
      var v := Resolve(maxima[0], last, latests[0]);
      [v] + PinHistory(maxima[1..], Some(v), latests[1..])
  }

  /**
   * Starting with no pinned version, the version pinned at batch `i` is the
   * maximum of the most recent batch up to `i` that had rows on this side;
   * before any such batch it is the latest version read at the first batch.
   * So the table history is consulted at the first batch only.
   */
  lemma {:induction false} PinHistoryFollowsLastNonEmptyBatch(maxima: seq<Option<nat>>, latests: seq<nat>, i: nat)
    requires |latests| == |maxima| && i < |maxima|
    ensures PinHistory(maxima, None, latests)[i] ==
      match LastPresent(maxima[..i + 1]) case Some(v) => v case None => latests[0]
  {
    PinHistoryFrom(maxima, None, latests, i);
  }

  /** The same statement from any starting point `last`. */
  lemma {:induction false} PinHistoryFrom(maxima: seq<Option<nat>>, last: Option<nat>, latests: seq<nat>, i: nat)
    requires |latests| == |maxima| && i < |maxima|
    ensures PinHistory(maxima, last, latests)[i] ==
      match LastPresent(maxima[..i + 1])
      case Some(v) => v
      case None => Resolve(None, last, latests[0])
    decreases i
  {
    var v := Resolve(maxima[0], last, latests[0]);
    if i > 0 {
      var tail := maxima[1..];
      PinHistoryFrom(tail, Some(v), latests[1..], i - 1);
      assert tail[..i] == maxima[1..i + 1];
      LastPresentOfCons(maxima[..i + 1]);
      assert maxima[..i + 1][1..] == tail[..i];
      assert maxima[..i + 1][0] == maxima[0];
    } else {
      assert maxima[..1] == [maxima[0]];
    }
  }

  /** The last present value of `s` is that of its tail, or its head when the tail has none. */
  lemma {:induction false} LastPresentOfCons(s: seq<Option<nat>>)
    requires s != []
    ensures LastPresent(s) == if LastPresent(s[1..]).Some? then LastPresent(s[1..]) else s[0]
    decreases |s|
  {
    if |s| > 1 && s[|s| - 1].None? {
      LastPresentOfCons(s[..|s| - 1]);
      assert s[..|s| - 1][1..] == s[1..][..|s[1..]| - 1];
      assert s[..|s| - 1][0] == s[0];
    } else if |s| == 1 {
      assert s[1..] == [];
    }
  }

  // ---------------------------------------------------------------------
  // The closure state as an object

  /**
   * The state `_mergeJoin` keeps across batches in its enclosing scope:
   * the versions pinned for the previous batch.
   */
  class Pinning {
    var lastLeft: Option<nat>
    var lastRight: Option<nat>

    constructor()
      ensures lastLeft == None && lastRight == None
    {
      lastLeft := None;
      lastRight := None;
    }

    /**
     * One batch: resolves each side's version independently and remembers
     * it. `latestLeft` and `latestRight` stand for the tables' latest
     * versions, which the source reads only when both earlier fallbacks
     * are null.
     */
    method OnBatch(batch: seq<Packed>, latestLeft: nat, latestRight: nat) returns (leftVersion: nat, rightVersion: nat)
      modifies this
      ensures leftVersion == Resolve(MaxVersion(SideEvents(batch, true)), old(lastLeft), latestLeft)
      ensures rightVersion == Resolve(MaxVersion(SideEvents(batch, false)), old(lastRight), latestRight)
      ensures lastLeft == Some(leftVersion) && lastRight == Some(rightVersion)
    {
      var leftMax := MaxVersion(SideEvents(batch, true));
      var rightMax := MaxVersion(SideEvents(batch, false));
      if leftMax.None? {
        leftMax := lastLeft;
      }
      if rightMax.None? {
        rightMax := lastRight;
      }
      if leftMax.None? {
        leftMax := Some(latestLeft);
      }
      if rightMax.None? {
        rightMax := Some(latestRight);
      }
      leftVersion, rightVersion := leftMax.value, rightMax.value;
      lastLeft := leftMax;
      lastRight := rightMax;
    }
  }

  /**
   * The version a side is pinned at for a batch: the largest commit version
   * among its rows when it has any; otherwise the previously pinned one.
   */
  lemma ResolvedVersionOfBatch(batch: seq<Packed>, isLeft: bool, last: Option<nat>, latest: nat)
    ensures var events := SideEvents(batch, isLeft);
      var v := Resolve(MaxVersion(events), last, latest);
      && (events != [] ==> (exists e :: e in events && e.commitVersion == v) && forall e :: e in events ==> e.commitVersion <= v)
      && (events == [] && last.Some? ==> v == last.value)
      && (events == [] && last.None? ==> v == latest)
  {
  }
}
