/**
 * Primary-key bookkeeping of a join stage: the ordered, duplicate-free
 * union of key lists and the split of a stage's keys into keys that are
 * always present on an emitted row ("non-nullable") and keys that may be
 * null because they come from the unmatched side of an outer join
 * ("nullable").
 */
module Keys {
  import opened Wrappers

  /** The join types the library accepts; any other string is kept as is. */
  datatype JoinType = Inner | Left | Right | Unsupported(name: string)

  predicate Supported(jt: JoinType)
  {
    !jt.Unsupported?
  }

  predicate NoDup<T(==,!new)>(s: seq<T>)
  {
    forall i, j :: 0 <= i < j < |s| ==> s[i] != s[j]
  }

  predicate Disjoint<T(==,!new)>(a: seq<T>, b: seq<T>)
  {
    forall x :: x in a ==> x !in b
  }

  /** Index of the first occurrence of `x` in `s`. */
  function FirstIndex<T(==,!new)>(s: seq<T>, x: T): (i: nat)
    requires x in s
    ensures i < |s| && s[i] == x && x !in s[..i]
  {
    if s[0] == x then 0 else FirstIndex(s[1..], x) + 1
  }

  /**
   * `list(dict.fromkeys(s))`: the elements of `s`, each once, in the order
   * of their first occurrence.
   */
  function Distinct<T(==,!new)>(s: seq<T>): (r: seq<T>)
    ensures NoDup(r)
    ensures forall x :: x in r <==> x in s
    ensures |r| <= |s|
    decreases |s|
  {
    if s == [] then []
    else
      var init := s[..|s| - 1];
      var d := Distinct(init);
      assert forall x :: x in init ==> x in s;
      assert s == init + [s[|s| - 1]];
      if s[|s| - 1] in d then d else d + [s[|s| - 1]]
  }

  lemma FirstIndexOfPrefix<T(!new)>(s: seq<T>, n: nat, x: T)
    requires n <= |s| && x in s[..n]
    ensures FirstIndex(s[..n], x) == FirstIndex(s, x)
  {
    var i := FirstIndex(s[..n], x);
    var j := FirstIndex(s, x);
    assert s[..n][i] == s[i];
    assert s[..n][..i] == s[..i];
  }

  /** Distinct keeps first-occurrence order: earlier in the result means earlier first seen. */
  lemma {:induction false} DistinctKeepsFirstOccurrenceOrder<T(!new)>(s: seq<T>)
    ensures forall i, j :: 0 <= i < j < |Distinct(s)| ==>
      FirstIndex(s, Distinct(s)[i]) < FirstIndex(s, Distinct(s)[j])
    decreases |s|
  {
    if s != [] {
      var n := |s| - 1;
      var init := s[..n];
      var d := Distinct(init);
      DistinctKeepsFirstOccurrenceOrder(init);
      assert s[..n] == init;
      forall x | x in d ensures FirstIndex(init, x) == FirstIndex(s, x) {
        FirstIndexOfPrefix(s, n, x);
      }
      if s[n] !in d {
        assert s[n] !in init;
        forall x | x in d ensures FirstIndex(s, x) < n {
          FirstIndexOfPrefix(s, n, x);
        }
        assert FirstIndex(s, s[n]) == n;
      }
    }
  }

  /** Distinct leaves a duplicate-free list unchanged. */
  lemma {:induction false} DistinctOfNoDup<T(!new)>(s: seq<T>)
    requires NoDup(s)
    ensures Distinct(s) == s
    decreases |s|
  {
    if s != [] {
      var n := |s| - 1;
      assert NoDup(s[..n]);
      DistinctOfNoDup(s[..n]);
      assert s[n] !in s[..n];
      assert s[..n] + [s[n]] == s;
    }
  }

  function OrEmpty<T>(o: Option<seq<T>>): seq<T>
  {
    if o.Some? then o.value else []
  }

  /**
   * `_safeMergeLists(l, r)`: None only when both lists are None; otherwise
   * every element of `l ++ r` exactly once.
   */
  function SafeMergeLists<T(==,!new)>(l: Option<seq<T>>, r: Option<seq<T>>): (m: Option<seq<T>>)
    ensures m.None? <==> l.None? && r.None?
    ensures m.Some? ==> NoDup(m.value)
    ensures m.Some? ==> forall x :: x in m.value <==> x in OrEmpty(l) + OrEmpty(r)
  {
    var a := if r.Some? then (if l.None? then r else Some(l.value + r.value)) else l;
    if a.Some? then Some(Distinct(a.value)) else None
  }

  /** The merged list is the first-occurrence-ordered union, left list first. */
  lemma SafeMergeListsIsOrderedUnion<T(!new)>(l: Option<seq<T>>, r: Option<seq<T>>)
    requires l.Some? || r.Some?
    ensures SafeMergeLists(l, r) == Some(Distinct(OrEmpty(l) + OrEmpty(r)))
  {
    if l.None? {
      assert OrEmpty(l) + OrEmpty(r) == r.value;
    } else if r.None? {
      assert OrEmpty(l) + OrEmpty(r) == l.value;
    }
  }

  /** The join's primary keys: `list(dict.fromkeys(left + right))`. */
  function JoinPrimaryKeys(leftKeys: seq<string>, rightKeys: seq<string>): (pks: seq<string>)
    ensures NoDup(pks)
    ensures forall k :: k in pks <==> k in leftKeys || k in rightKeys
    ensures SafeMergeLists(Some(leftKeys), Some(rightKeys)) == Some(pks)
  {
    Distinct(leftKeys + rightKeys)
  }

  /** `[x for x in s if x in keep]`. */
  function Keep<T(==,!new)>(s: seq<T>, keep: seq<T>): (r: seq<T>)
    ensures forall x :: x in r <==> x in s && x in keep
    ensures NoDup(s) ==> NoDup(r)
    ensures |r| <= |s|
  {
    if s == [] then []
    else
      var rest := Keep(s[1..], keep);
      assert forall x :: x in s[1..] ==> x in s;
      if s[0] in keep then [s[0]] + rest else rest
  }

  /** `[x for x in s if x not in drop]`. */
  function Without<T(==,!new)>(s: seq<T>, drop: seq<T>): (r: seq<T>)
    ensures forall x :: x in r <==> x in s && x !in drop
    ensures |r| <= |s|
  {
    if s == [] then []
    else
      var rest := Without(s[1..], drop);
      assert forall x :: x in s[1..] ==> x in s;
      if s[0] in drop then rest else [s[0]] + rest
  }

  lemma WithoutNothing<T(!new)>(s: seq<T>)
    ensures Without(s, []) == s
  {
  }

  /**
   * `_nonNullAndNullPrimaryKeys`: a left join keeps the left keys and may
   * null the right ones, a right join the reverse; every other join type
   * treats all keys as present.
   */
  function NonNullAndNullPrimaryKeys(jt: JoinType, leftKeys: seq<string>, rightKeys: seq<string>)
    : (split: (seq<string>, seq<string>))
    ensures multiset(split.0 + split.1) == multiset(leftKeys + rightKeys)
    ensures jt.Left? ==> split.1 == rightKeys
    ensures jt.Right? ==> split.1 == leftKeys
    ensures !jt.Left? && !jt.Right? ==> split.1 == []
  {
    match jt
    case Left => (leftKeys, rightKeys)
    case Right => (rightKeys, leftKeys)
    case _ => (leftKeys + rightKeys, [])
  }

  /**
   * `_mergeNonNullKeysForJoin`: folds a stage's candidate split into the
   * split inherited from the upstream stage. None for an unsupported join
   * type (the Python function falls off its if-chain).
   */
  function MergeNonNullKeys(jt: JoinType, nonNull: seq<string>, nullable: seq<string>,
                            nonNullCand: seq<string>, nullCand: seq<string>): (r: Option<seq<string>>)
    ensures r.Some? <==> Supported(jt)
    ensures r.Some? ==> NoDup(r.value)
  {
    match jt
    case Inner => Some(Distinct(nonNull + Without(nonNullCand, nullable)))
    case Left => Some(Distinct(Without(nonNull, nullCand) + Without(nonNullCand, nullable)))
    case Right => Some(Distinct(Without(nonNullCand, nullable) + Without(nonNull, nullCand)))
    case Unsupported(_) => None
  }

  /** `_mergeNullKeysForJoin`, the nullable half of the fold. */
  function MergeNullKeys(jt: JoinType, nonNull: seq<string>, nullable: seq<string>,
                         nonNullCand: seq<string>, nullCand: seq<string>): (r: Option<seq<string>>)
    ensures r.Some? <==> Supported(jt)
    ensures r.Some? ==> NoDup(r.value)
  {
    match jt
    case Inner => Some(Distinct(nullable + Without(nullCand, nonNull + nullable + nonNullCand)))
    case Left => Some(Distinct(Without(nullable, nonNull) + Without(nullCand, nonNull)))
    case Right => Some(Distinct(Without(nullable, nonNull) + Without(nullCand, nullable)))
    case Unsupported(_) => None
  }

  /**
   * With nothing inherited from upstream, the merged split is the stage's
   * own candidate split, deduplicated.
   */
  lemma MergeWithEmptyUpstream(jt: JoinType, leftKeys: seq<string>, rightKeys: seq<string>)
    requires Supported(jt)
    ensures var c := NonNullAndNullPrimaryKeys(jt, leftKeys, rightKeys);
            && MergeNonNullKeys(jt, [], [], c.0, c.1) == Some(Distinct(c.0))
            && MergeNullKeys(jt, [], [], c.0, c.1) == Some(Distinct(c.1))
  {
    var c := NonNullAndNullPrimaryKeys(jt, leftKeys, rightKeys);
    var e: seq<string> := [];
    WithoutNothing(c.0);
    WithoutNothing(c.1);
    assert Without(e, c.0) == [] && Without(e, c.1) == [];
    assert e + c.0 == c.0 + e == c.0;
    assert e + c.1 == c.1 + e == c.1;
    match jt
    case Inner =>
      assert c.1 == [];
      assert Without(c.1, e + e + c.0) == [];
      assert MergeNullKeys(jt, e, e, c.0, c.1) == Some(Distinct(e + Without(c.1, e + e + c.0)));
    case Left =>
      assert MergeNonNullKeys(jt, e, e, c.0, c.1) == Some(Distinct(Without(e, c.1) + Without(c.0, e)));
      assert MergeNullKeys(jt, e, e, c.0, c.1) == Some(Distinct(Without(e, e) + Without(c.1, e)));
    case Right =>
      assert MergeNonNullKeys(jt, e, e, c.0, c.1) == Some(Distinct(Without(c.0, e) + Without(e, c.1)));
      assert MergeNullKeys(jt, e, e, c.0, c.1) == Some(Distinct(Without(e, e) + Without(c.1, e)));
  }

  /**
   * The fold keeps a split a partition: when the inherited split is
   * disjoint, the candidates of an outer join are disjoint, and the
   * inherited keys belong to the side the outer join keeps, every key of
   * either split ends up in exactly one of the two merged lists.
   */
  lemma MergedSplitIsPartition(jt: JoinType, nonNull: seq<string>, nullable: seq<string>,
                               nonNullCand: seq<string>, nullCand: seq<string>)
    requires Supported(jt)
    requires Disjoint(nonNull, nullable)
    requires !jt.Inner? ==> Disjoint(nonNullCand, nullCand)
    requires jt.Left? ==> forall k :: k in nonNull || k in nullable ==> k in nonNullCand
    requires jt.Right? ==> forall k :: k in nonNull || k in nullable ==> k in nullCand
    ensures var nn := MergeNonNullKeys(jt, nonNull, nullable, nonNullCand, nullCand).value;
            var n := MergeNullKeys(jt, nonNull, nullable, nonNullCand, nullCand).value;
            && Disjoint(nn, n)
            && forall k :: k in nn || k in n <==> k in nonNull || k in nullable || k in nonNullCand || k in nullCand
  {
  }

  /**
   * The key split one join stage hands to its merge condition and to the
   * next stage: the join's primary keys restricted to each side, split by
   * join type and folded into the split inherited from upstream (an absent
   * upstream counts as two empty lists). None for an unsupported join type.
   */
  function StageKeySplit(jt: JoinType, upstream: Option<(seq<string>, seq<string>)>,
                         leftKeys: seq<string>, rightKeys: seq<string>)
    : (split: Option<(seq<string>, seq<string>)>)
    ensures split.Some? <==> Supported(jt)
    ensures split.Some? ==> NoDup(split.value.0) && NoDup(split.value.1)
  {
    var pks := JoinPrimaryKeys(leftKeys, rightKeys);
    var c := NonNullAndNullPrimaryKeys(jt, Keep(pks, leftKeys), Keep(pks, rightKeys));
    var up := if upstream.Some? then upstream.value else ([], []);
    var nn := MergeNonNullKeys(jt, up.0, up.1, c.0, c.1);
    var n := MergeNullKeys(jt, up.0, up.1, c.0, c.1);
    if nn.Some? && n.Some? then Some((nn.value, n.value)) else None
  }

  /**
   * Across a chain of stages the split stays a partition of the stage's
   * primary keys: provided the upstream split is disjoint and made of keys
   * of the left (staged) input, and the two inputs of an outer join share
   * no key, each primary key is non-nullable or nullable, never both.
   */
  lemma StageKeySplitPartitionsPrimaryKeys(jt: JoinType, upstream: Option<(seq<string>, seq<string>)>,
                                           leftKeys: seq<string>, rightKeys: seq<string>)
    requires Supported(jt)
    requires upstream.Some? ==> Disjoint(upstream.value.0, upstream.value.1)
    requires upstream.Some? ==> forall k :: k in upstream.value.0 || k in upstream.value.1 ==> k in leftKeys
    requires !jt.Inner? ==> Disjoint(leftKeys, rightKeys)
    ensures var split := StageKeySplit(jt, upstream, leftKeys, rightKeys).value;
            && Disjoint(split.0, split.1)
            && forall k :: k in split.0 || k in split.1 <==> k in JoinPrimaryKeys(leftKeys, rightKeys)
  {
    var pks := JoinPrimaryKeys(leftKeys, rightKeys);
    var lk, rk := Keep(pks, leftKeys), Keep(pks, rightKeys);
    var c := NonNullAndNullPrimaryKeys(jt, lk, rk);
    var up := if upstream.Some? then upstream.value else ([], []);
    assert forall k :: k in c.0 || k in c.1 <==> k in lk || k in rk by {
      assert multiset(c.0 + c.1) == multiset(lk + rk);
      forall k ensures k in c.0 + c.1 <==> k in lk + rk {
        assert k in c.0 + c.1 <==> k in multiset(c.0 + c.1);
        assert k in lk + rk <==> k in multiset(lk + rk);
      }
    }
    MergedSplitIsPartition(jt, up.0, up.1, c.0, c.1);
  }

  /**
   * Two inputs of an outer join that declare the same key: when the
   * upstream split does not mention it, the key lands in both lists of the
   * stage's split, non-nullable from the kept side and nullable from the
   * other.
   */
  lemma SharedOuterKeyIsInBothLists(jt: JoinType, upstream: Option<(seq<string>, seq<string>)>,
                                    leftKeys: seq<string>, rightKeys: seq<string>, k: string)
    requires jt.Left? || jt.Right?
    requires k in leftKeys && k in rightKeys
    requires upstream.Some? ==> k !in upstream.value.0 && k !in upstream.value.1
    ensures k in StageKeySplit(jt, upstream, leftKeys, rightKeys).value.0
    ensures k in StageKeySplit(jt, upstream, leftKeys, rightKeys).value.1
  {
    var pks := JoinPrimaryKeys(leftKeys, rightKeys);
    var c := NonNullAndNullPrimaryKeys(jt, Keep(pks, leftKeys), Keep(pks, rightKeys));
    var up := if upstream.Some? then upstream.value else ([], []);
    assert k in c.0 && k in c.1 by {
      assert k in Keep(pks, leftKeys) && k in Keep(pks, rightKeys);
    }
    assert k !in up.0 && k !in up.1;
  }
}
