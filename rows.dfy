/**
 * Rows of the change-data feed. A row maps a column name to a nullable
 * integer value; a column that is absent reads as SQL null.
 */
module Rows {
  import opened Wrappers

  type Row = map<string, Option<int>>

  /** The value of column `c` in `row`; a missing column is null. */
  function Get(row: Row, c: string): Option<int>
  {
    if c in row then row[c] else None
  }

  /** True when every column in `cols` is null in `row`. */
  predicate AllNull(row: Row, cols: seq<string>)
  {
    forall i :: 0 <= i < |cols| ==> Get(row, cols[i]).None?
  }

  /** True when some column in `cols` is non-null in `row`. */
  predicate SomeNonNull(row: Row, cols: seq<string>)
  {
    exists i :: 0 <= i < |cols| && Get(row, cols[i]).Some?
  }

  /** The values of `cols` in `row`, in order: the row's (composite) key. */
  function KeyOf(row: Row, cols: seq<string>): (key: seq<Option<int>>)
    ensures |key| == |cols|
    ensures forall i :: 0 <= i < |cols| ==> key[i] == Get(row, cols[i])
  {
    seq(|cols|, i requires 0 <= i < |cols| => Get(row, cols[i]))
  }

  /** The `_change_type` column of the change-data feed. */
  datatype ChangeType = Insert | UpdatePreimage | UpdatePostimage | Delete

  /** One change event: its kind, its `_commit_version` and its business columns. */
  datatype Event = Event(changeType: ChangeType, commitVersion: nat, row: Row)

  /** The rows of the events that are not update pre-images, in order. */
  function NonPreimageRows(events: seq<Event>): (rows: seq<Row>)
    ensures |rows| <= |events|
    ensures forall r :: r in rows <==> exists e :: e in events && e.changeType != UpdatePreimage && e.row == r
  {
    if events == [] then []
    else
      var rest := NonPreimageRows(events[1..]);
      assert forall e :: e in events[1..] ==> e in events;
      if events[0].changeType == UpdatePreimage then rest else [events[0].row] + rest
  }
}
