/**
 * Emulation of a stream-to-stream outer join inside one micro-batch
 * (`MicrobatchJoin`): each side's new rows are joined to the other side's
 * snapshot, the two results are full-outer-joined on the join predicate and
 * on null-safe equality of the primary keys, and the joined pairs are
 * classified into left-only, right-only and matched rows.
 */
module MicrobatchJoin {
  import opened Wrappers
  import opened Rows
  import opened Keys

  /** The row read from a side that is absent in an outer join: every column null. */
  const NullRow: Row := map[]

  /** The elements of `s` satisfying `keep`, in order. */
  function Filter<T(!new)>(s: seq<T>, keep: T -> bool): (r: seq<T>)
    ensures |r| <= |s|
    ensures forall x :: x in r <==> x in s && keep(x)
    ensures (forall x :: x in s ==> !keep(x)) ==> r == []
  {
    if s == [] then []
    else
      var rest := Filter(s[1..], keep);
      assert forall x :: x in s[1..] ==> x in s;
      assert forall x :: x in s ==> x == s[0] || x in s[1..];
      if keep(s[0]) then [s[0]] + rest else rest
  }

  // ---------------------------------------------------------------------
  // Joining a side's micro-batch to the other side's snapshot

  /** The join predicate, with the driving row `d` on its own side of the join. */
  predicate Joins(pred: (Row, Row) -> bool, d: Row, o: Row, driveIsLeft: bool)
  {
    if driveIsLeft then pred(d, o) else pred(o, d)
  }

  /** The selection, with the driving row `d` on its own side of the join. */
  function Select(sel: (Row, Row) -> Row, d: Row, o: Row, driveIsLeft: bool): Row
  {
    if driveIsLeft then sel(d, o) else sel(o, d)
  }

  /** No row of `other` joins the driving row `d`. */
  predicate Unmatched(d: Row, other: seq<Row>, driveIsLeft: bool, pred: (Row, Row) -> bool)
  {
    forall o :: o in other ==> !Joins(pred, d, o, driveIsLeft)
  }

  /**
   * `x` is a row that the side join yields for the driving row `d`: the
   * selection over `d` and a row of `other` it joins, or, in an outer join
   * where `d` joins nothing, over `d` and an all-null row.
   */
  predicate Produces(x: Row, d: Row, other: seq<Row>, driveIsLeft: bool, pred: (Row, Row) -> bool,
                     outer: bool, sel: (Row, Row) -> Row)
  {
    || (exists o :: o in other && Joins(pred, d, o, driveIsLeft) && x == Select(sel, d, o, driveIsLeft))
    || (outer && Unmatched(d, other, driveIsLeft, pred) && x == Select(sel, d, NullRow, driveIsLeft))
  }

  /** The rows of `other` that the join predicate pairs with the driving row `d`. */
  function DriveMatches(d: Row, other: seq<Row>, driveIsLeft: bool, pred: (Row, Row) -> bool): (ms: seq<Row>)
    ensures forall o :: o in ms <==> o in other && Joins(pred, d, o, driveIsLeft)
    ensures Unmatched(d, other, driveIsLeft, pred) ==> ms == []
  {
    Filter(other, o => Joins(pred, d, o, driveIsLeft))
  }

  /**
   * The rows produced by one driving row: the selection applied to each
   * matching row of `other`, or, in an outer join without a match, to the
   * driving row and an all-null row.
   */
  function DriveRow(d: Row, other: seq<Row>, driveIsLeft: bool, pred: (Row, Row) -> bool,
                    outer: bool, sel: (Row, Row) -> Row): (out: seq<Row>)
    ensures outer ==> |out| >= 1
  {
    var ms := DriveMatches(d, other, driveIsLeft, pred);
    if ms == [] then
      (if outer then [Select(sel, d, NullRow, driveIsLeft)] else [])
    else
      seq(|ms|, i requires 0 <= i < |ms| => Select(sel, d, ms[i], driveIsLeft))
  }

  /** One driving row yields exactly the rows it `Produces`. */
  lemma DriveRowProduces(d: Row, other: seq<Row>, driveIsLeft: bool, pred: (Row, Row) -> bool,
                         outer: bool, sel: (Row, Row) -> Row, x: Row)
    ensures x in DriveRow(d, other, driveIsLeft, pred, outer, sel) <==> Produces(x, d, other, driveIsLeft, pred, outer, sel)
  {
    var ms := DriveMatches(d, other, driveIsLeft, pred);
    var out := DriveRow(d, other, driveIsLeft, pred, outer, sel);
    if ms == [] {
      assert Unmatched(d, other, driveIsLeft, pred) by {
        forall o | o in other ensures !Joins(pred, d, o, driveIsLeft) {
          assert o !in ms;
        }
      }
    } else {
      assert ms[0] in ms;
      if x in out {
        var i :| 0 <= i < |out| && out[i] == x;
        assert ms[i] in ms;
      }
      if exists o :: o in other && Joins(pred, d, o, driveIsLeft) && x == Select(sel, d, o, driveIsLeft) {
        var o :| o in other && Joins(pred, d, o, driveIsLeft) && x == Select(sel, d, o, driveIsLeft);
        assert o in ms;
        var i :| 0 <= i < |ms| && ms[i] == o;
        assert out[i] == x;
      }
    }
  }

  /**
   * `F.broadcast(micro).join(static, joinExpr, 'left' | 'inner')` followed by
   * the selection: the driving side is the micro-batch.
   */
  function SideJoin(drive: seq<Row>, other: seq<Row>, driveIsLeft: bool, pred: (Row, Row) -> bool,
                    outer: bool, sel: (Row, Row) -> Row): (out: seq<Row>)
    ensures outer ==> |out| >= |drive|
    ensures other == [] && !outer ==> out == []
  {
    if drive == [] then []
    else DriveRow(drive[0], other, driveIsLeft, pred, outer, sel) + SideJoin(drive[1..], other, driveIsLeft, pred, outer, sel)
  }

  /**
   * The side join yields exactly the selected rows of the joined pairs and,
   * in an outer join, the selected rows of the driving rows that join nothing.
   */
  lemma {:induction false} SideJoinRows(drive: seq<Row>, other: seq<Row>, driveIsLeft: bool, pred: (Row, Row) -> bool,
                                        outer: bool, sel: (Row, Row) -> Row, x: Row)
    ensures x in SideJoin(drive, other, driveIsLeft, pred, outer, sel) <==>
      exists d :: d in drive && Produces(x, d, other, driveIsLeft, pred, outer, sel)
    decreases |drive|
  {
    if drive != [] {
      DriveRowProduces(drive[0], other, driveIsLeft, pred, outer, sel, x);
      SideJoinRows(drive[1..], other, driveIsLeft, pred, outer, sel, x);
      assert SideJoin(drive, other, driveIsLeft, pred, outer, sel) ==
        DriveRow(drive[0], other, driveIsLeft, pred, outer, sel) + SideJoin(drive[1..], other, driveIsLeft, pred, outer, sel);
      assert forall d :: d in drive <==> d == drive[0] || d in drive[1..];
    }
  }

  /**
   * A row of `drive` with no match in `other` passes through an outer side
   * join, paired with an all-null row on the other side.
   */
  lemma UnmatchedDrivingRowIsKept(drive: seq<Row>, other: seq<Row>, driveIsLeft: bool, pred: (Row, Row) -> bool,
                                  sel: (Row, Row) -> Row, d: Row)
    requires d in drive
    requires Unmatched(d, other, driveIsLeft, pred)
    ensures Select(sel, d, NullRow, driveIsLeft) in SideJoin(drive, other, driveIsLeft, pred, true, sel)
  {
    SideJoinRows(drive, other, driveIsLeft, pred, true, sel, Select(sel, d, NullRow, driveIsLeft));
    assert Produces(Select(sel, d, NullRow, driveIsLeft), d, other, driveIsLeft, pred, true, sel);
  }

  // ---------------------------------------------------------------------
  // The full outer join of the two sides

  /** One row of a full outer join; a missing side reads as all-null. */
  datatype Pair = Pair(left: Option<Row>, right: Option<Row>)

  function Side(r: Option<Row>): Row
  {
    if r.Some? then r.value else NullRow
  }

  predicate HasMatch(l: Row, rs: seq<Row>, on: (Row, Row) -> bool)
  {
    exists r :: r in rs && on(l, r)
  }

  predicate HasMatchFrom(r: Row, ls: seq<Row>, on: (Row, Row) -> bool)
  {
    exists l :: l in ls && on(l, r)
  }

  /** The right rows that `on` pairs with the left row `l`. */
  function MatchesOf(l: Row, rs: seq<Row>, on: (Row, Row) -> bool): (ms: seq<Row>)
    ensures forall r :: r in ms <==> r in rs && on(l, r)
  {
    Filter(rs, r => on(l, r))
  }

  /** The pairs of one left row: one per match, or one with a null right side. */
  function PairsOf(l: Row, rs: seq<Row>, on: (Row, Row) -> bool): seq<Pair>
  {
    var ms := MatchesOf(l, rs, on);
    if ms == [] then [Pair(Some(l), None)]
    else seq(|ms|, i requires 0 <= i < |ms| => Pair(Some(l), Some(ms[i])))
  }

  lemma PairsOfMembers(l: Row, rs: seq<Row>, on: (Row, Row) -> bool)
    ensures forall p :: p in PairsOf(l, rs, on) ==> p.left == Some(l)
    ensures forall r :: Pair(Some(l), Some(r)) in PairsOf(l, rs, on) <==> r in rs && on(l, r)
    ensures Pair(Some(l), None) in PairsOf(l, rs, on) <==> !HasMatch(l, rs, on)
  {
    var ms := MatchesOf(l, rs, on);
    var here := PairsOf(l, rs, on);
    forall r | r in rs && on(l, r) ensures Pair(Some(l), Some(r)) in here {
      assert r in ms;
      var i :| 0 <= i < |ms| && ms[i] == r;
      assert here[i] == Pair(Some(l), Some(r));
    }
    if ms != [] {
      assert ms[0] in ms;
    }
  }

  /** The pairs of the left rows, in order. */
  function LeftPairs(ls: seq<Row>, rs: seq<Row>, on: (Row, Row) -> bool): seq<Pair>
  {
    if ls == [] then [] else PairsOf(ls[0], rs, on) + LeftPairs(ls[1..], rs, on)
  }

  lemma {:induction false} LeftPairsHaveLeftRows(ls: seq<Row>, rs: seq<Row>, on: (Row, Row) -> bool)
    ensures forall p :: p in LeftPairs(ls, rs, on) ==> p.left.Some? && p.left.value in ls
    decreases |ls|
  {
    if ls != [] {
      PairsOfMembers(ls[0], rs, on);
      LeftPairsHaveLeftRows(ls[1..], rs, on);
      assert forall p :: p in LeftPairs(ls, rs, on) ==> p in PairsOf(ls[0], rs, on) || p in LeftPairs(ls[1..], rs, on);
    }
  }

  lemma {:induction false} LeftPairsMatched(ls: seq<Row>, rs: seq<Row>, on: (Row, Row) -> bool, l: Row, r: Row)
    ensures Pair(Some(l), Some(r)) in LeftPairs(ls, rs, on) <==> l in ls && r in rs && on(l, r)
    decreases |ls|
  {
    if ls != [] {
      PairsOfMembers(ls[0], rs, on);
      LeftPairsMatched(ls[1..], rs, on, l, r);
      assert LeftPairs(ls, rs, on) == PairsOf(ls[0], rs, on) + LeftPairs(ls[1..], rs, on);
      assert l in ls <==> l == ls[0] || l in ls[1..];
    }
  }

  lemma {:induction false} LeftPairsUnmatched(ls: seq<Row>, rs: seq<Row>, on: (Row, Row) -> bool, l: Row)
    ensures Pair(Some(l), None) in LeftPairs(ls, rs, on) <==> l in ls && !HasMatch(l, rs, on)
    decreases |ls|
  {
    if ls != [] {
      PairsOfMembers(ls[0], rs, on);
      LeftPairsUnmatched(ls[1..], rs, on, l);
      assert LeftPairs(ls, rs, on) == PairsOf(ls[0], rs, on) + LeftPairs(ls[1..], rs, on);
      assert l in ls <==> l == ls[0] || l in ls[1..];
    }
  }

  /** The right rows that match no left row, with a null left side. */
  function RightOnlyPairs(rs: seq<Row>, ls: seq<Row>, on: (Row, Row) -> bool): (ps: seq<Pair>)
    ensures forall p :: p in ps ==> p.left.None? && p.right.Some? && p.right.value in rs
    ensures forall r :: Pair(None, Some(r)) in ps <==> r in rs && !HasMatchFrom(r, ls, on)
  {
    var unmatched := Filter(rs, r => !HasMatchFrom(r, ls, on));
    var ps := seq(|unmatched|, i requires 0 <= i < |unmatched| => Pair(None, Some(unmatched[i])));
    assert forall r :: Pair(None, Some(r)) in ps <==> r in unmatched by {
      forall r | r in unmatched ensures Pair(None, Some(r)) in ps {
        var i :| 0 <= i < |unmatched| && unmatched[i] == r;
        assert ps[i] == Pair(None, Some(r));
      }
    }
    ps
  }

  /**
   * `newLeft.join(newRight, on, 'outer')`: every matching pair, every
   * unmatched left row and every unmatched right row, each exactly as a
   * SQL full outer join yields them.
   */
  function FullOuterJoin(ls: seq<Row>, rs: seq<Row>, on: (Row, Row) -> bool): seq<Pair>
  {
    LeftPairs(ls, rs, on) + RightOnlyPairs(rs, ls, on)
  }

  /** No pair of a full outer join lacks both sides. */
  lemma FullOuterJoinHasNoEmptyPair(ls: seq<Row>, rs: seq<Row>, on: (Row, Row) -> bool)
    ensures forall p :: p in FullOuterJoin(ls, rs, on) ==> p.left.Some? || p.right.Some?
  {
    var lp, rp := LeftPairs(ls, rs, on), RightOnlyPairs(rs, ls, on);
    assert FullOuterJoin(ls, rs, on) == lp + rp;
    assert forall p :: p in lp + rp <==> p in lp || p in rp;
    LeftPairsHaveLeftRows(ls, rs, on);
  }

  /** A matched pair is in the full outer join exactly when both rows are present and `on` holds. */
  lemma FullOuterJoinMatched(ls: seq<Row>, rs: seq<Row>, on: (Row, Row) -> bool, l: Row, r: Row)
    ensures Pair(Some(l), Some(r)) in FullOuterJoin(ls, rs, on) <==> l in ls && r in rs && on(l, r)
  {
    var lp, rp := LeftPairs(ls, rs, on), RightOnlyPairs(rs, ls, on);
    assert FullOuterJoin(ls, rs, on) == lp + rp;
    assert forall p :: p in lp + rp <==> p in lp || p in rp;
    LeftPairsMatched(ls, rs, on, l, r);
  }

  /** A left row appears with a null right side exactly when it matches no right row. */
  lemma FullOuterJoinLeftOnly(ls: seq<Row>, rs: seq<Row>, on: (Row, Row) -> bool, l: Row)
    ensures Pair(Some(l), None) in FullOuterJoin(ls, rs, on) <==> l in ls && !HasMatch(l, rs, on)
  {
    var lp, rp := LeftPairs(ls, rs, on), RightOnlyPairs(rs, ls, on);
    assert FullOuterJoin(ls, rs, on) == lp + rp;
    assert forall p :: p in lp + rp <==> p in lp || p in rp;
    LeftPairsUnmatched(ls, rs, on, l);
    LeftPairsHaveLeftRows(ls, rs, on);
  }

  /** A right row appears with a null left side exactly when it matches no left row. */
  lemma FullOuterJoinRightOnly(ls: seq<Row>, rs: seq<Row>, on: (Row, Row) -> bool, r: Row)
    ensures Pair(None, Some(r)) in FullOuterJoin(ls, rs, on) <==> r in rs && !HasMatchFrom(r, ls, on)
  {
    var lp, rp := LeftPairs(ls, rs, on), RightOnlyPairs(rs, ls, on);
    assert FullOuterJoin(ls, rs, on) == lp + rp;
    assert forall p :: p in lp + rp <==> p in lp || p in rp;
    LeftPairsHaveLeftRows(ls, rs, on);
  }

  /** The join predicate conjoined with null-safe equality on every primary key. */
  function OnKeys(pred: (Row, Row) -> bool, pks: seq<string>): (Row, Row) -> bool
  {
    (l: Row, r: Row) => pred(l, r) && KeyOf(l, pks) == KeyOf(r, pks)
  }

  // ---------------------------------------------------------------------
  // Classification of the joined pairs

  /** Goes to "left": every primary key of the right side is null. */
  predicate InLeft(p: Pair, pks: seq<string>)
  {
    AllNull(Side(p.right), pks)
  }

  /** Goes to "right": every primary key of the left side is null. */
  predicate InRight(p: Pair, pks: seq<string>)
  {
    AllNull(Side(p.left), pks)
  }

  /**
   * Goes to "both": for an inner join every key is non-null on both sides;
   * otherwise each key is non-null on both sides or null on both.
   */
  predicate InBoth(jt: JoinType, p: Pair, pks: seq<string>)
  {
    var l, r := Side(p.left), Side(p.right);
    if jt == Inner then
      forall i :: 0 <= i < |pks| ==> Get(l, pks[i]).Some? && Get(r, pks[i]).Some?
    else
      forall i :: 0 <= i < |pks| ==> (Get(l, pks[i]).Some? && Get(r, pks[i]).Some?) ||
                                     (Get(l, pks[i]).None? && Get(r, pks[i]).None?)
  }

  /** The rows `f(p)` of the pairs `p` of `ps` that satisfy `keep`, in order. */
  function Collect(ps: seq<Pair>, keep: Pair -> bool, f: Pair -> Row): (rows: seq<Row>)
    ensures forall x :: x in rows <==> exists p :: p in ps && keep(p) && x == f(p)
  {
    var kept := Filter(ps, keep);
    var rows := seq(|kept|, i requires 0 <= i < |kept| => f(kept[i]));
    assert forall x :: x in rows <==> exists p :: p in kept && x == f(p) by {
      forall x | x in rows ensures exists p :: p in kept && x == f(p) {
        var i :| 0 <= i < |rows| && rows[i] == x;
        assert kept[i] in kept;
      }
      forall p | p in kept ensures f(p) in rows {
        var i :| 0 <= i < |kept| && kept[i] == p;
        assert rows[i] == f(p);
      }
    }
    rows
  }

  /** "left": the left side of the pairs whose right keys are all null, and nothing else. */
  function LeftRows(ps: seq<Pair>, pks: seq<string>): (rows: seq<Row>)
    ensures forall x :: x in rows <==> exists p :: p in ps && InLeft(p, pks) && x == Side(p.left)
  {
    Collect(ps, p => InLeft(p, pks), (p: Pair) => Side(p.left))
  }

  /** "right": the right side of the pairs whose left keys are all null, and nothing else. */
  function RightRows(ps: seq<Pair>, pks: seq<string>): (rows: seq<Row>)
    ensures forall x :: x in rows <==> exists p :: p in ps && InRight(p, pks) && x == Side(p.right)
  {
    Collect(ps, p => InRight(p, pks), (p: Pair) => Side(p.right))
  }

  /** "both": the selection over the pairs that pass the join type's key filter, and nothing else. */
  function BothRows(jt: JoinType, ps: seq<Pair>, pks: seq<string>, sel: (Row, Row) -> Row): (rows: seq<Row>)
    ensures forall x :: x in rows <==> exists p :: p in ps && InBoth(jt, p, pks) && x == sel(Side(p.left), Side(p.right))
  {
    Collect(ps, p => InBoth(jt, p, pks), (p: Pair) => sel(Side(p.left), Side(p.right)))
  }

  /** The pair `p` contributes the row `x` to "left", "right" or "both". */
  predicate Emits(jt: JoinType, p: Pair, pks: seq<string>, sel: (Row, Row) -> Row, x: Row)
  {
    || (InLeft(p, pks) && x == Side(p.left))
    || (InRight(p, pks) && x == Side(p.right))
    || (InBoth(jt, p, pks) && x == sel(Side(p.left), Side(p.right)))
  }

  /**
   * `left.unionByName(right).unionByName(both)` followed by the filter that
   * drops rows whose primary keys are all null: exactly the rows with a
   * non-null key that some pair contributes to one of the three frames.
   */
  function KeyedUnion(jt: JoinType, ps: seq<Pair>, pks: seq<string>, sel: (Row, Row) -> Row): (rows: seq<Row>)
    ensures forall x :: x in rows <==> SomeNonNull(x, pks) && exists p :: p in ps && Emits(jt, p, pks, sel, x)
  {
    var all := LeftRows(ps, pks) + RightRows(ps, pks) + BothRows(jt, ps, pks, sel);
    assert forall x :: x in all <==> exists p :: p in ps && Emits(jt, p, pks, sel, x);
    Filter(all, x => SomeNonNull(x, pks))
  }

  /** A reason `MicrobatchJoin.join` raises. */
  datatype JoinError =
    | EmptyPrimaryKeys              // `reduce` over an empty list of key conditions
    | UnsupportedJoinType(name: string)

  /** The side joins and the full outer join, as persisted first. */
  function JoinedOuter(jt: JoinType, leftMicro: seq<Row>, leftStatic: seq<Row>, rightMicro: seq<Row>, rightStatic: seq<Row>,
                       pred: (Row, Row) -> bool, pks: seq<string>, sel: (Row, Row) -> Row): seq<Pair>
  {
    var newLeft := SideJoin(leftMicro, rightStatic, true, pred, jt == Left, sel);
    var newRight := SideJoin(rightMicro, leftStatic, false, pred, jt == Right, sel);
    FullOuterJoin(newLeft, newRight, OnKeys(pred, pks))
  }

  /** What `join` returns, or why it raises. */
  function JoinOutcome(jt: JoinType, leftMicro: seq<Row>, leftStatic: seq<Row>, rightMicro: seq<Row>, rightStatic: seq<Row>,
                       pred: (Row, Row) -> bool, pks: seq<string>, sel: (Row, Row) -> Row, finalSel: Row -> Row)
    : (res: Result<seq<Row>, JoinError>)
    ensures res.Err? <==> pks == [] || !Supported(jt)
    ensures pks == [] ==> res == Err(EmptyPrimaryKeys)
    ensures pks != [] && jt.Unsupported? ==> res == Err(UnsupportedJoinType(jt.name))
  {
    if pks == [] then Err(EmptyPrimaryKeys)
    else if !Supported(jt) then Err(UnsupportedJoinType(jt.name))
    else
      var keyed := KeyedUnion(jt, JoinedOuter(jt, leftMicro, leftStatic, rightMicro, rightStatic, pred, pks, sel), pks, sel);
      Ok(seq(|keyed|, i requires 0 <= i < |keyed| => finalSel(keyed[i])))
  }

  // ---------------------------------------------------------------------
  // Properties of the classification

  /**
   * In a left or right join, every matched pair goes to "both": null-safe
   * key equality makes each key non-null on both sides or null on both.
   */
  lemma MatchedPairsGoToBothInOuterJoins(jt: JoinType, ls: seq<Row>, rs: seq<Row>, pred: (Row, Row) -> bool,
                                         pks: seq<string>, l: Row, r: Row)
    requires jt == Left || jt == Right
    requires Pair(Some(l), Some(r)) in FullOuterJoin(ls, rs, OnKeys(pred, pks))
    ensures InBoth(jt, Pair(Some(l), Some(r)), pks)
  {
    FullOuterJoinMatched(ls, rs, OnKeys(pred, pks), l, r);
    assert KeyOf(l, pks) == KeyOf(r, pks);
  }

  /** In an inner join, a matched pair goes to "both" exactly when none of its keys is null. */
  lemma MatchedPairsInInnerJoin(ls: seq<Row>, rs: seq<Row>, pred: (Row, Row) -> bool,
                                pks: seq<string>, l: Row, r: Row)
    requires Pair(Some(l), Some(r)) in FullOuterJoin(ls, rs, OnKeys(pred, pks))
    ensures InBoth(Inner, Pair(Some(l), Some(r)), pks) <==> forall i :: 0 <= i < |pks| ==> Get(l, pks[i]).Some?
  {
    FullOuterJoinMatched(ls, rs, OnKeys(pred, pks), l, r);
    assert KeyOf(l, pks) == KeyOf(r, pks);
    if forall i :: 0 <= i < |pks| ==> Get(l, pks[i]).Some? {
      forall i | 0 <= i < |pks| ensures Get(r, pks[i]).Some? {
        assert KeyOf(l, pks)[i] == KeyOf(r, pks)[i];
      }
    }
  }

  /**
   * A pair can land in "left" and "both" only in an outer join and only
   * when its left keys are all null as well, so the final filter drops the
   * "left" copy.
   */
  lemma LeftAndBothOverlapOnlyOnNullKeys(jt: JoinType, p: Pair, pks: seq<string>)
    requires pks != []
    requires InLeft(p, pks) && InBoth(jt, p, pks)
    ensures jt != Inner
    ensures AllNull(Side(p.left), pks)
  {
    assert Get(Side(p.right), pks[0]).None?;
    forall i | 0 <= i < |pks| ensures Get(Side(p.left), pks[i]).None? {
      assert Get(Side(p.right), pks[i]).None?;
    }
  }

  /**
   * Nothing keyed is lost: a left row with a non-null primary key that
   * matches no right row comes out of the union unchanged, through "left".
   */
  lemma {:induction false} UnmatchedLeftRowSurvives(jt: JoinType, ls: seq<Row>, rs: seq<Row>, pred: (Row, Row) -> bool,
                                                     pks: seq<string>, sel: (Row, Row) -> Row, l: Row)
    requires l in ls && SomeNonNull(l, pks)
    requires !HasMatch(l, rs, OnKeys(pred, pks))
    ensures l in KeyedUnion(jt, FullOuterJoin(ls, rs, OnKeys(pred, pks)), pks, sel)
  {
    var ps := FullOuterJoin(ls, rs, OnKeys(pred, pks));
    var p := Pair(Some(l), None);
    FullOuterJoinLeftOnly(ls, rs, OnKeys(pred, pks), l);
    assert p in ps && InLeft(p, pks);
  }

  /** The mirror image: an unmatched keyed right row comes out through "right". */
  lemma {:induction false} UnmatchedRightRowSurvives(jt: JoinType, ls: seq<Row>, rs: seq<Row>, pred: (Row, Row) -> bool,
                                                      pks: seq<string>, sel: (Row, Row) -> Row, r: Row)
    requires r in rs && SomeNonNull(r, pks)
    requires !HasMatchFrom(r, ls, OnKeys(pred, pks))
    ensures r in KeyedUnion(jt, FullOuterJoin(ls, rs, OnKeys(pred, pks)), pks, sel)
  {
    var ps := FullOuterJoin(ls, rs, OnKeys(pred, pks));
    var p := Pair(None, Some(r));
    FullOuterJoinRightOnly(ls, rs, OnKeys(pred, pks), r);
    assert p in ps && InRight(p, pks);
  }

  // ---------------------------------------------------------------------
  // The object: persisted frames and their release

  /** A frame held in memory by `persist`. */
  datatype Frame = Joined(pairs: seq<Pair>) | Final(rows: seq<Row>)

  class Joiner {
    var leftMicrobatch: seq<Row>
    var leftStatic: seq<Row>
    var rightMicrobatch: seq<Row>
    var rightStatic: seq<Row>
    /** Frames persisted and not yet released. */
    var persisted: seq<Frame>
    /** Frames released by `Exit`, in release order. */
    var released: seq<Frame>

    constructor(leftMicrobatch: seq<Row>, leftStatic: seq<Row>, rightMicrobatch: seq<Row>, rightStatic: seq<Row>)
      ensures this.leftMicrobatch == leftMicrobatch && this.leftStatic == leftStatic
      ensures this.rightMicrobatch == rightMicrobatch && this.rightStatic == rightStatic
      ensures persisted == [] && released == []
    {
      this.leftMicrobatch := leftMicrobatch;
      this.leftStatic := leftStatic;
      this.rightMicrobatch := rightMicrobatch;
      this.rightStatic := rightStatic;
      persisted := [];
      released := [];
    }

    /**
     * `join`: raises before persisting anything when there are no primary
     * keys; persists the outer join and then raises for an unsupported
     * join type; otherwise persists the outer join and the result.
     */
    method Join(jt: JoinType, pred: (Row, Row) -> bool, pks: seq<string>, sel: (Row, Row) -> Row, finalSel: Row -> Row)
      returns (res: Result<seq<Row>, JoinError>)
      modifies this
      ensures res == JoinOutcome(jt, old(leftMicrobatch), old(leftStatic), old(rightMicrobatch), old(rightStatic),
                                 pred, pks, sel, finalSel)
      ensures leftMicrobatch == old(leftMicrobatch) && leftStatic == old(leftStatic)
      ensures rightMicrobatch == old(rightMicrobatch) && rightStatic == old(rightStatic)
      ensures released == old(released)
      ensures var outer := JoinedOuter(jt, leftMicrobatch, leftStatic, rightMicrobatch, rightStatic, pred, pks, sel);
        persisted == if pks == [] then old(persisted)
                     else if !Supported(jt) then old(persisted) + [Joined(outer)]
                     else old(persisted) + [Joined(outer), Final(res.value)]
    {
      if pks == [] {
        return Err(EmptyPrimaryKeys);
      }
      var outer := JoinedOuter(jt, leftMicrobatch, leftStatic, rightMicrobatch, rightStatic, pred, pks, sel);
      persisted := persisted + [Joined(outer)];
      if !Supported(jt) {
        return Err(UnsupportedJoinType(jt.name));
      }
      res := JoinOutcome(jt, leftMicrobatch, leftStatic, rightMicrobatch, rightStatic, pred, pks, sel, finalSel);
      persisted := persisted + [Final(res.value)];
    }

    /** `__exit__`: releases every persisted frame, in order, and clears the list. */
    method Exit()
      modifies this
      ensures persisted == []
      ensures released == old(released) + old(persisted)
      ensures leftMicrobatch == old(leftMicrobatch) && leftStatic == old(leftStatic)
      ensures rightMicrobatch == old(rightMicrobatch) && rightStatic == old(rightStatic)
    {
      var i := 0;
      while i < |persisted|
        invariant 0 <= i <= |persisted|
        invariant persisted == old(persisted)
        invariant released == old(released) + persisted[..i]
        invariant leftMicrobatch == old(leftMicrobatch) && leftStatic == old(leftStatic)
        invariant rightMicrobatch == old(rightMicrobatch) && rightStatic == old(rightStatic)
      {
        released := released + [persisted[i]];
        i := i + 1;
      }
      assert persisted[..i] == persisted;
      persisted := [];
    }
  }
}
