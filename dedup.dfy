/**
 * Deduplication of a micro-batch: one row per primary-key value, the first
 * one in a window ordering (`row_number() = 1`), or an arbitrary one when
 * there is no ordering (`dropDuplicates`).
 */
module Dedup {
  import opened Wrappers
  import opened Rows

  /** One term of a window's ORDER BY. */
  datatype OrderKey =
    | Desc(col: string)              // F.desc(col): larger first, nulls last
    | NullCountAsc(cols: seq<string>) // fewer null columns first

  function NullCount(row: Row, cols: seq<string>): (n: nat)
    ensures n <= |cols|
  {
    if cols == [] then 0
    else (if Get(row, cols[0]).None? then 1 else 0) + NullCount(row, cols[1..])
  }

  /** Negative when `a` sorts before `b` under a descending, nulls-last order. */
  function DescCmp(a: Option<int>, b: Option<int>): int
  {
    match (a, b)
    case (Some(x), Some(y)) => if x > y then -1 else if x < y then 1 else 0
    case (Some(_), None) => -1
    case (None, Some(_)) => 1
    case (None, None) => 0
  }

  function KeyCmp(k: OrderKey, a: Row, b: Row): int
  {
    match k
    case Desc(c) => DescCmp(Get(a, c), Get(b, c))
    case NullCountAsc(cs) =>
      var na, nb := NullCount(a, cs), NullCount(b, cs);
      if na < nb then -1 else if na > nb then 1 else 0
  }

  /** Lexicographic comparison under the window ordering. */
  function Cmp(order: seq<OrderKey>, a: Row, b: Row): int
  {
    if order == [] then 0
    else
      var c := KeyCmp(order[0], a, b);
      if c != 0 then c else Cmp(order[1..], a, b)
  }

  /** `a` gets a strictly smaller row number than `b`. */
  predicate Precedes(order: seq<OrderKey>, a: Row, b: Row)
  {
    Cmp(order, a, b) < 0
  }

  lemma KeyCmpIsPreorder(k: OrderKey, a: Row, b: Row, c: Row)
    ensures KeyCmp(k, a, a) == 0
    ensures KeyCmp(k, a, b) <= 0 && KeyCmp(k, b, c) <= 0 ==> KeyCmp(k, a, c) <= 0
    ensures KeyCmp(k, a, b) < 0 && KeyCmp(k, b, c) <= 0 ==> KeyCmp(k, a, c) < 0
    ensures KeyCmp(k, a, b) <= 0 && KeyCmp(k, b, c) < 0 ==> KeyCmp(k, a, c) < 0
  {
  }

  lemma {:induction false} PrecedesIsStrictOrder(order: seq<OrderKey>, a: Row, b: Row, c: Row)
    ensures !Precedes(order, a, a)
    ensures Precedes(order, a, b) && Precedes(order, b, c) ==> Precedes(order, a, c)
    ensures Cmp(order, a, b) == 0 && Precedes(order, b, c) ==> Precedes(order, a, c)
    ensures Precedes(order, a, b) && Cmp(order, b, c) == 0 ==> Precedes(order, a, c)
    ensures Cmp(order, a, b) == 0 && Cmp(order, b, c) == 0 ==> Cmp(order, a, c) == 0
    decreases |order|
  {
    if order != [] {
      KeyCmpIsPreorder(order[0], a, b, c);
      PrecedesIsStrictOrder(order[1..], a, b, c);
    }
  }

  predicate DistinctKeys(rows: seq<Row>, pks: seq<string>)
  {
    forall i, j :: 0 <= i < j < |rows| ==> KeyOf(rows[i], pks) != KeyOf(rows[j], pks)
  }

  /** Position of the row with key `key`, or `|acc|` when there is none. */
  function IndexOfKey(acc: seq<Row>, key: seq<Option<int>>, pks: seq<string>): (j: nat)
    ensures j <= |acc|
    ensures j < |acc| ==> KeyOf(acc[j], pks) == key
    ensures j == |acc| ==> forall i :: 0 <= i < |acc| ==> KeyOf(acc[i], pks) != key
  {
    if acc == [] then 0
    else if KeyOf(acc[0], pks) == key then 0
    else IndexOfKey(acc[1..], key, pks) + 1
  }

  /** One more row enters the window: it takes its key's place when it ranks strictly first. */
  function Admit(acc: seq<Row>, r: Row, pks: seq<string>, order: seq<OrderKey>): seq<Row>
  {
    var j := IndexOfKey(acc, KeyOf(r, pks), pks);
    if j == |acc| then acc + [r]
    else if Precedes(order, r, acc[j]) then acc[j := r]
    else acc
  }

  /**
   * The rows with row number 1 per primary-key value. Ties go to the row
   * seen first; the properties below hold for any choice among tied rows.
   */
  function DedupBy(rows: seq<Row>, pks: seq<string>, order: seq<OrderKey>): (r: seq<Row>)
    ensures |r| <= |rows|
    decreases |rows|
  {
    if rows == [] then []
    else Admit(DedupBy(rows[..|rows| - 1], pks, order), rows[|rows| - 1], pks, order)
  }

  /** Every row of `r` comes from `rows`. */
  predicate RowsFrom(r: seq<Row>, rows: seq<Row>)
  {
    forall o :: o in r ==> o in rows
  }

  /** Some row of `r` has key `key`. */
  predicate HasKey(r: seq<Row>, key: seq<Option<int>>, pks: seq<string>)
  {
    exists o :: o in r && KeyOf(o, pks) == key
  }

  /** Every key present in `rows` has a row in `r`. */
  predicate CoversKeys(r: seq<Row>, rows: seq<Row>, pks: seq<string>)
  {
    forall x :: x in rows ==> HasKey(r, KeyOf(x, pks), pks)
  }

  /** No row of `rows` ranks strictly before the row of `r` with its key. */
  predicate RanksFirst(r: seq<Row>, rows: seq<Row>, pks: seq<string>, order: seq<OrderKey>)
  {
    forall i, x :: 0 <= i < |r| && x in rows && KeyOf(x, pks) == KeyOf(r[i], pks) ==> !Precedes(order, x, r[i])
  }

  /** What a deduplicated batch satisfies with respect to its input. */
  predicate DedupOf(r: seq<Row>, rows: seq<Row>, pks: seq<string>, order: seq<OrderKey>)
  {
    DistinctKeys(r, pks) && RowsFrom(r, rows) && CoversKeys(r, rows, pks) && RanksFirst(r, rows, pks, order)
  }

  lemma AdmitNewKey(acc: seq<Row>, rows: seq<Row>, r: Row, pks: seq<string>, order: seq<OrderKey>)
    requires DedupOf(acc, rows, pks, order)
    requires forall i :: 0 <= i < |acc| ==> KeyOf(acc[i], pks) != KeyOf(r, pks)
    ensures DedupOf(acc + [r], rows + [r], pks, order)
  {
    var res, all := acc + [r], rows + [r];
    PrecedesIsStrictOrder(order, r, r, r);
    forall x | x in rows ensures KeyOf(x, pks) != KeyOf(r, pks) {
      var o :| o in acc && KeyOf(o, pks) == KeyOf(x, pks);
    }
    forall x | x in all ensures HasKey(res, KeyOf(x, pks), pks) {
      if x == r {
        assert res[|acc|] == r;
      } else {
        assert x in rows;
        var o :| o in acc && KeyOf(o, pks) == KeyOf(x, pks);
        assert o in res;
      }
    }
    forall i, x | 0 <= i < |res| && x in all && KeyOf(x, pks) == KeyOf(res[i], pks)
      ensures !Precedes(order, x, res[i])
    {
      if i < |acc| {
        assert x in rows;
        assert res[i] == acc[i];
      }
    }
  }

  lemma AdmitReplacesRanksFirst(acc: seq<Row>, rows: seq<Row>, r: Row, pks: seq<string>, order: seq<OrderKey>, j: nat)
    requires DistinctKeys(acc, pks) && RanksFirst(acc, rows, pks, order)
    requires j < |acc| && KeyOf(acc[j], pks) == KeyOf(r, pks) && Precedes(order, r, acc[j])
    ensures RanksFirst(acc[j := r], rows + [r], pks, order)
  {
    var res, all := acc[j := r], rows + [r];
    PrecedesIsStrictOrder(order, r, r, r);
    forall i, x | 0 <= i < |res| && x in all && KeyOf(x, pks) == KeyOf(res[i], pks)
      ensures !Precedes(order, x, res[i])
    {
      if x != r {
        assert x in rows;
        if i == j {
          assert !Precedes(order, x, acc[j]);
          PrecedesIsStrictOrder(order, x, r, acc[j]);
        } else {
          assert res[i] == acc[i];
        }
      }
    }
  }

  lemma AdmitReplacesCoversKeys(acc: seq<Row>, rows: seq<Row>, r: Row, pks: seq<string>, j: nat)
    requires CoversKeys(acc, rows, pks)
    requires j < |acc| && KeyOf(acc[j], pks) == KeyOf(r, pks)
    ensures CoversKeys(acc[j := r], rows + [r], pks)
  {
    var res, all := acc[j := r], rows + [r];
    forall x | x in all ensures HasKey(res, KeyOf(x, pks), pks) {
      if x == r {
        assert res[j] == r;
      } else {
        assert x in rows;
        var o :| o in acc && KeyOf(o, pks) == KeyOf(x, pks);
        var i :| 0 <= i < |acc| && acc[i] == o;
        if i == j {
          assert res[j] == r;
        } else {
          assert res[i] == o;
        }
      }
    }
  }

  lemma AdmitReplacesKeepsRows(acc: seq<Row>, rows: seq<Row>, r: Row, pks: seq<string>, j: nat)
    requires DistinctKeys(acc, pks) && RowsFrom(acc, rows)
    requires j < |acc| && KeyOf(acc[j], pks) == KeyOf(r, pks)
    ensures DistinctKeys(acc[j := r], pks) && RowsFrom(acc[j := r], rows + [r])
  {
    var res, all := acc[j := r], rows + [r];
    assert forall i :: 0 <= i < |res| ==> KeyOf(res[i], pks) == KeyOf(acc[i], pks);
    forall o | o in res ensures o in all {
      var i :| 0 <= i < |res| && res[i] == o;
      if i != j {
        assert acc[i] == o;
      }
    }
  }

  lemma AdmitReplaces(acc: seq<Row>, rows: seq<Row>, r: Row, pks: seq<string>, order: seq<OrderKey>, j: nat)
    requires DedupOf(acc, rows, pks, order)
    requires j < |acc| && KeyOf(acc[j], pks) == KeyOf(r, pks) && Precedes(order, r, acc[j])
    ensures DedupOf(acc[j := r], rows + [r], pks, order)
  {
    AdmitReplacesRanksFirst(acc, rows, r, pks, order, j);
    AdmitReplacesCoversKeys(acc, rows, r, pks, j);
    AdmitReplacesKeepsRows(acc, rows, r, pks, j);
  }

  lemma AdmitKeeps(acc: seq<Row>, rows: seq<Row>, r: Row, pks: seq<string>, order: seq<OrderKey>, j: nat)
    requires DedupOf(acc, rows, pks, order)
    requires j < |acc| && KeyOf(acc[j], pks) == KeyOf(r, pks) && !Precedes(order, r, acc[j])
    ensures DedupOf(acc, rows + [r], pks, order)
  {
    var all := rows + [r];
    forall x | x in all ensures HasKey(acc, KeyOf(x, pks), pks) {
      if x == r {
        assert acc[j] in acc;
      } else {
        assert x in rows;
      }
    }
    forall i, x | 0 <= i < |acc| && x in all && KeyOf(x, pks) == KeyOf(acc[i], pks)
      ensures !Precedes(order, x, acc[i])
    {
      if x == r {
        assert i == j;
      } else {
        assert x in rows;
      }
    }
  }

  lemma AdmitKeepsDedup(acc: seq<Row>, rows: seq<Row>, r: Row, pks: seq<string>, order: seq<OrderKey>)
    requires DedupOf(acc, rows, pks, order)
    ensures DedupOf(Admit(acc, r, pks, order), rows + [r], pks, order)
  {
    var j := IndexOfKey(acc, KeyOf(r, pks), pks);
    if j == |acc| {
      AdmitNewKey(acc, rows, r, pks, order);
    } else if Precedes(order, r, acc[j]) {
      AdmitReplaces(acc, rows, r, pks, order, j);
    } else {
      AdmitKeeps(acc, rows, r, pks, order, j);
    }
  }

  /**
   * Deduplication keeps exactly one row per primary-key value present in
   * the batch; it is a batch row, and no batch row with the same key ranks
   * strictly before it.
   */
  lemma {:induction false} DedupByIsDedup(rows: seq<Row>, pks: seq<string>, order: seq<OrderKey>)
    ensures DedupOf(DedupBy(rows, pks, order), rows, pks, order)
    decreases |rows|
  {
    if rows != [] {
      var init := rows[..|rows| - 1];
      DedupByIsDedup(init, pks, order);
      AdmitKeepsDedup(DedupBy(init, pks, order), init, rows[|rows| - 1], pks, order);
      assert init + [rows[|rows| - 1]] == rows;
    }
  }

  // ---------------------------------------------------------------------
  // The two window orderings of the source

  function DescAll(cols: seq<string>): (keys: seq<OrderKey>)
    ensures |keys| == |cols|
    ensures forall i :: 0 <= i < |cols| ==> keys[i] == Desc(cols[i])
  {
    seq(|cols|, i requires 0 <= i < |cols| => Desc(cols[i]))
  }

  /**
   * The micro-batch ordering: by the sequence columns, descending, when
   * both primary keys and sequence columns are declared; otherwise no
   * window and `dropDuplicates` on the primary keys.
   */
  function BatchOrder(pks: seq<string>, seqCols: seq<string>): seq<OrderKey>
  {
    if |pks| > 0 && |seqCols| > 0 then DescAll(seqCols) else []
  }

  /**
   * `mergeTransformFunc` then `_dedupBatch`: update pre-images are dropped,
   * then one row per key is kept.
   */
  function DedupBatch(events: seq<Event>, pks: seq<string>, seqCols: seq<string>): seq<Row>
  {
    DedupBy(NonPreimageRows(events), pks, BatchOrder(pks, seqCols))
  }

  /**
   * A deduplicated batch holds no row of an update pre-image: its rows come
   * from the other events, have distinct keys and cover every key of those
   * events.
   */
  lemma DedupBatchIsDedupOfChanges(events: seq<Event>, pks: seq<string>, seqCols: seq<string>)
    ensures var r := DedupBatch(events, pks, seqCols);
      && DistinctKeys(r, pks)
      && (forall o :: o in r ==> exists e :: e in events && e.changeType != UpdatePreimage && e.row == o)
      && (forall e :: e in events && e.changeType != UpdatePreimage ==>
            HasKey(r, KeyOf(e.row, pks), pks))
  {
    var rows := NonPreimageRows(events);
    var r := DedupBatch(events, pks, seqCols);
    DedupByIsDedup(rows, pks, BatchOrder(pks, seqCols));
    forall e | e in events && e.changeType != UpdatePreimage
      ensures HasKey(r, KeyOf(e.row, pks), pks)
    {
      assert e.row in rows;
    }
  }

  /**
   * With primary keys and sequence columns declared, each surviving row
   * carries the largest value of the first sequence column among the
   * batch rows with its key (a null never beats a value).
   */
  lemma DedupBatchKeepsLatest(events: seq<Event>, pks: seq<string>, seqCols: seq<string>, i: nat, e: Event)
    requires |pks| > 0 && |seqCols| > 0
    requires i < |DedupBatch(events, pks, seqCols)|
    requires e in events && e.changeType != UpdatePreimage
    requires KeyOf(e.row, pks) == KeyOf(DedupBatch(events, pks, seqCols)[i], pks)
    requires Get(e.row, seqCols[0]).Some?
    ensures var o := DedupBatch(events, pks, seqCols)[i];
      Get(o, seqCols[0]).Some? && Get(e.row, seqCols[0]).value <= Get(o, seqCols[0]).value
  {
    var rows := NonPreimageRows(events);
    var order := BatchOrder(pks, seqCols);
    var o := DedupBatch(events, pks, seqCols)[i];
    DedupByIsDedup(rows, pks, order);
    assert e.row in rows;
    assert !Precedes(order, e.row, o);
    assert order[0] == Desc(seqCols[0]);
  }

  /**
   * The target-side ordering: by the sequence columns, descending, then by
   * the number of null columns, ascending.
   */
  function TargetOrder(seqCols: seq<string>, tableCols: seq<string>): seq<OrderKey>
  {
    DescAll(seqCols) + [NullCountAsc(tableCols)]
  }

  lemma {:induction false} CmpOfEqualDescPrefix(seqCols: seq<string>, rest: seq<OrderKey>, a: Row, b: Row)
    requires forall i :: 0 <= i < |seqCols| ==> Get(a, seqCols[i]) == Get(b, seqCols[i])
    ensures Cmp(DescAll(seqCols) + rest, a, b) == Cmp(rest, a, b)
    decreases |seqCols|
  {
    if seqCols != [] {
      var order := DescAll(seqCols) + rest;
      assert order[0] == Desc(seqCols[0]);
      assert order[1..] == DescAll(seqCols[1..]) + rest;
      assert Get(a, seqCols[0]) == Get(b, seqCols[0]);
      assert KeyCmp(order[0], a, b) == 0;
      assert Cmp(order, a, b) == Cmp(order[1..], a, b);
      CmpOfEqualDescPrefix(seqCols[1..], rest, a, b);
    } else {
      assert DescAll(seqCols) + rest == rest;
    }
  }

  /**
   * Tie-break of the target-side deduplication: among rows with the same
   * key and the same sequence values, the survivor has the fewest nulls.
   */
  lemma TargetDedupPrefersFewestNulls(rows: seq<Row>, pks: seq<string>, seqCols: seq<string>, tableCols: seq<string>,
                                      i: nat, x: Row)
    requires i < |DedupBy(rows, pks, TargetOrder(seqCols, tableCols))|
    requires x in rows
    requires var o := DedupBy(rows, pks, TargetOrder(seqCols, tableCols))[i];
             KeyOf(x, pks) == KeyOf(o, pks) && forall k :: 0 <= k < |seqCols| ==> Get(x, seqCols[k]) == Get(o, seqCols[k])
    ensures NullCount(DedupBy(rows, pks, TargetOrder(seqCols, tableCols))[i], tableCols) <= NullCount(x, tableCols)
  {
    var order := TargetOrder(seqCols, tableCols);
    var o := DedupBy(rows, pks, order)[i];
    DedupByIsDedup(rows, pks, order);
    assert !Precedes(order, x, o);
    CmpOfEqualDescPrefix(seqCols, [NullCountAsc(tableCols)], x, o);
    var last := [NullCountAsc(tableCols)];
    assert last[1..] == [];
    assert Cmp(order, x, o) == Cmp(last, x, o);
    assert KeyCmp(last[0], x, o) >= 0;
  }
}
