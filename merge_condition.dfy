/**
 * The match condition of the upsert of a joined batch (`staged_updates`)
 * into the target table (`u`), and the last-write-wins guard of its update.
 * Conditions are kept as a small syntax tree instead of SQL text.
 */
module MergeCondition {
  import opened Wrappers
  import opened Rows

  datatype Cond =
    | Eq(key: string)          // u.k = staged_updates.k
    | NullSafeEq(key: string)  // u.k <=> staged_updates.k
    | EitherNull(key: string)  // (u.k is null OR staged_updates.k is null)
    | And(conjuncts: seq<Cond>)
    | Or(disjuncts: seq<Cond>)

  /** `u.k = staged_updates.k` is TRUE: both non-null and equal. */
  predicate EqHolds(k: string, u: Row, s: Row)
  {
    Get(u, k).Some? && Get(s, k).Some? && Get(u, k) == Get(s, k)
  }

  /**
   * Whether a condition is TRUE for a target row `u` and a staged row `s`.
   * A merge matches only on TRUE; the conditions have no negation, so SQL
   * null reads as "not TRUE" throughout.
   */
  predicate Holds(c: Cond, u: Row, s: Row)
    decreases c
  {
    match c
    case Eq(k) => EqHolds(k, u, s)
    case NullSafeEq(k) => Get(u, k) == Get(s, k)
    case EitherNull(k) => Get(u, k).None? || Get(s, k).None?
    case And(cs) => forall i :: 0 <= i < |cs| ==> Holds(cs[i], u, s)
    case Or(cs) => exists i :: 0 <= i < |cs| && Holds(cs[i], u, s)
  }

  // ---------------------------------------------------------------------
  // itertools.combinations

  function PrependAll<T>(x: T, cs: seq<seq<T>>): (r: seq<seq<T>>)
    ensures |r| == |cs|
    ensures forall i :: 0 <= i < |cs| ==> r[i] == [x] + cs[i]
  {
    seq(|cs|, i requires 0 <= i < |cs| => [x] + cs[i])
  }

  /**
   * `itertools.combinations(s, k)`: the length-`k` subsequences of `s`
   * (chosen by position), in lexicographic order of the chosen positions.
   */
  function Combinations<T>(s: seq<T>, k: nat): seq<seq<T>>
    decreases |s|
  {
    if k == 0 then [[]]
    else if s == [] then []
    else PrependAll(s[0], Combinations(s[1..], k - 1)) + Combinations(s[1..], k)
  }

  /** The combinations of sizes `0 .. m - 1`, smallest size first. */
  function CombinationsBelow<T>(s: seq<T>, m: nat): seq<seq<T>>
  {
    if m == 0 then [] else CombinationsBelow(s, m - 1) + Combinations(s, m - 1)
  }

  /** Every combination of `s`, size 0 up to `|s|`, in the source's loop order. */
  function AllCombinations<T>(s: seq<T>): seq<seq<T>>
  {
    CombinationsBelow(s, |s| + 1)
  }

  function Pow2(n: nat): (p: nat)
    ensures p >= 1
  {
    if n == 0 then 1 else 2 * Pow2(n - 1)
  }

  lemma {:induction false} NoCombinationsAboveLength<T>(s: seq<T>, k: nat)
    requires k > |s|
    ensures Combinations(s, k) == []
    decreases |s|
  {
    if s != [] {
      NoCombinationsAboveLength(s[1..], k - 1);
      NoCombinationsAboveLength(s[1..], k);
      assert Combinations(s, k) == PrependAll(s[0], Combinations(s[1..], k - 1)) + Combinations(s[1..], k);
    }
  }

  /** Pascal's rule, summed: each combination of `s` either starts with `s[0]` or not. */
  lemma {:induction false} CombinationsBelowSplit<T>(s: seq<T>, m: nat)
    requires s != []
    ensures |CombinationsBelow(s, m + 1)| == |CombinationsBelow(s[1..], m)| + |CombinationsBelow(s[1..], m + 1)|
    decreases m
  {
    var t := s[1..];
    assert CombinationsBelow(s, m + 1) == CombinationsBelow(s, m) + Combinations(s, m);
    assert CombinationsBelow(t, m + 1) == CombinationsBelow(t, m) + Combinations(t, m);
    if m > 0 {
      CombinationsBelowSplit(s, m - 1);
      assert CombinationsBelow(t, m) == CombinationsBelow(t, m - 1) + Combinations(t, m - 1);
      assert Combinations(s, m) == PrependAll(s[0], Combinations(t, m - 1)) + Combinations(t, m);
    } else {
      assert Combinations(s, 0) == [[]] && Combinations(t, 0) == [[]];
    }
  }

  /** There are `2^|s|` combinations in all. */
  lemma {:induction false} AllCombinationsCount<T>(s: seq<T>)
    ensures |AllCombinations(s)| == Pow2(|s|)
    decreases |s|
  {
    if s != [] {
      var t := s[1..];
      CombinationsBelowSplit(s, |s|);
      AllCombinationsCount(t);
      NoCombinationsAboveLength(t, |s|);
      assert CombinationsBelow(t, |s| + 1) == AllCombinations(t) + Combinations(t, |s|);
    }
  }

  /** The elements of `s` that satisfy `p`, in order. */
  function FilterBy<T(!new)>(s: seq<T>, p: T -> bool): (r: seq<T>)
    ensures |r| <= |s|
    ensures forall x :: x in r <==> x in s && p(x)
  {
    if s == [] then []
    else
      var rest := FilterBy(s[1..], p);
      assert forall x :: x in s[1..] ==> x in s;
      if p(s[0]) then [s[0]] + rest else rest
  }

  /** Every subsequence picked by a predicate is one of the combinations. */
  lemma {:induction false} FilterIsCombination<T(!new)>(s: seq<T>, p: T -> bool)
    ensures FilterBy(s, p) in Combinations(s, |FilterBy(s, p)|)
    decreases |s|
  {
    var f := FilterBy(s, p);
    if s == [] {
      assert f == [];
    } else {
      var rest := FilterBy(s[1..], p);
      FilterIsCombination(s[1..], p);
      if p(s[0]) {
        assert f == [s[0]] + rest;
        var cs := Combinations(s[1..], |rest|);
        var i :| 0 <= i < |cs| && cs[i] == rest;
        var pre := PrependAll(s[0], cs);
        assert pre[i] == f;
        assert Combinations(s, |f|) == pre + Combinations(s[1..], |f|);
      } else {
        assert f == rest;
        if |f| > 0 {
          assert Combinations(s, |f|) == PrependAll(s[0], Combinations(s[1..], |f| - 1)) + Combinations(s[1..], |f|);
        }
      }
    }
  }

  lemma {:induction false} CombinationsBelowContains<T>(s: seq<T>, m: nat, k: nat, c: seq<T>)
    requires k < m && c in Combinations(s, k)
    ensures c in CombinationsBelow(s, m)
    decreases m
  {
    if k < m - 1 {
      CombinationsBelowContains(s, m - 1, k, c);
    }
  }

  // ---------------------------------------------------------------------
  // _mergeCondition

  function EqAll(keys: seq<string>): (r: seq<Cond>)
    ensures |r| == |keys|
    ensures forall i :: 0 <= i < |keys| ==> r[i] == Eq(keys[i])
  {
    seq(|keys|, i requires 0 <= i < |keys| => Eq(keys[i]))
  }

  /** `(u.k is null OR staged_updates.k is null)` for each key of `keys` not in `item`. */
  function EitherNullFor(keys: seq<string>, item: seq<string>): (r: seq<Cond>)
    ensures forall c :: c in r <==> exists k :: k in keys && k !in item && c == EitherNull(k)
  {
    if keys == [] then []
    else
      var init := keys[..|keys| - 1];
      var last := keys[|keys| - 1];
      assert keys == init + [last];
      EitherNullFor(init, item) + (if last in item then [] else [EitherNull(last)])
  }

  /** The extra condition is appended only when there are nullable keys. */
  function ExtraTail(nullable: seq<string>, extra: Option<Cond>): seq<Cond>
  {
    if |nullable| > 0 && extra.Some? then [extra.value] else []
  }

  /** The branch for one combination `c` of the nullable keys. */
  function Branch(nonNullable: seq<string>, nullable: seq<string>, extra: Option<Cond>, c: seq<string>): Cond
  {
    And(EqAll(nonNullable + c) + EitherNullFor(nullable, nonNullable + c) + ExtraTail(nullable, extra))
  }

  function Branches(nonNullable: seq<string>, nullable: seq<string>, extra: Option<Cond>, combos: seq<seq<string>>)
    : (r: seq<Cond>)
    ensures |r| == |combos|
    ensures forall i :: 0 <= i < |combos| ==> r[i] == Branch(nonNullable, nullable, extra, combos[i])
  {
    seq(|combos|, i requires 0 <= i < |combos| => Branch(nonNullable, nullable, extra, combos[i]))
  }

  /** The condition `_mergeCondition(nonNullableKeys, nullableKeys, extraCond)` returns. */
  function MergeConditionOf(nonNullable: seq<string>, nullable: seq<string>, extra: Option<Cond>): Cond
  {
    Or(Branches(nonNullable, nullable, extra, AllCombinations(nullable)))
  }

  /** Adding a combination adds its branch. */
  lemma BranchesAppend(nonNullable: seq<string>, nullable: seq<string>, extra: Option<Cond>,
                       combos: seq<seq<string>>, c: seq<string>)
    ensures Branches(nonNullable, nullable, extra, combos + [c])
         == Branches(nonNullable, nullable, extra, combos) + [Branch(nonNullable, nullable, extra, c)]
  {
  }

  /**
   * The body of the middle loop of `_mergeCondition`: the branch for one
   * combination `combo` of the nullable keys.
   */
  method BuildBranch(nonNullable: seq<string>, nullable: seq<string>, extra: Option<Cond>, combo: seq<string>)
    returns (branch: Cond)
    ensures branch == Branch(nonNullable, nullable, extra, combo)
  {
    var item := nonNullable;
    var out := EqAll(nonNullable);
    var iii := 0;
    while iii < |combo|
      invariant 0 <= iii <= |combo|
      invariant item == nonNullable + combo[..iii]
      invariant out == EqAll(item)
    {
      assert combo[..iii + 1] == combo[..iii] + [combo[iii]];
      item := item + [combo[iii]];
      out := out + [Eq(combo[iii])];
      iii := iii + 1;
    }
    assert combo[..iii] == combo;
    var j := 0;
    while j < |nullable|
      invariant 0 <= j <= |nullable|
      invariant out == EqAll(item) + EitherNullFor(nullable[..j], item)
    {
      assert nullable[..j + 1][..j] == nullable[..j];
      if nullable[j] !in item {
        out := out + [EitherNull(nullable[j])];
      }
      j := j + 1;
    }
    assert nullable[..j] == nullable;
    branch := And(out + ExtraTail(nullable, extra));
  }

  /**
   * `_mergeCondition`: one disjunct per combination of the nullable keys,
   * built in the source's nested loops.
   */
  method BuildMergeCondition(nonNullable: seq<string>, nullable: seq<string>, extra: Option<Cond>)
    returns (cond: Cond)
    ensures cond == MergeConditionOf(nonNullable, nullable, extra)
  {
    var arr: seq<Cond> := [];
    var i := 0;
    while i < |nullable| + 1
      invariant 0 <= i <= |nullable| + 1
      invariant arr == Branches(nonNullable, nullable, extra, CombinationsBelow(nullable, i))
    {
      var t := Combinations(nullable, i);
      var ii := 0;
      while ii < |t|
        invariant 0 <= ii <= |t|
        invariant arr == Branches(nonNullable, nullable, extra, CombinationsBelow(nullable, i) + t[..ii])
      {
        var branch := BuildBranch(nonNullable, nullable, extra, t[ii]);
        assert CombinationsBelow(nullable, i) + t[..ii + 1] == (CombinationsBelow(nullable, i) + t[..ii]) + [t[ii]];
        BranchesAppend(nonNullable, nullable, extra, CombinationsBelow(nullable, i) + t[..ii], t[ii]);
        arr := arr + [branch];
        ii := ii + 1;
      }
      assert t[..ii] == t;
      assert CombinationsBelow(nullable, i + 1) == CombinationsBelow(nullable, i) + t;
      i := i + 1;
    }
    cond := Or(arr);
  }

  /** The condition has exactly `2^|nullable|` disjuncts. */
  lemma MergeConditionDisjunctCount(nonNullable: seq<string>, nullable: seq<string>, extra: Option<Cond>)
    ensures MergeConditionOf(nonNullable, nullable, extra).Or?
    ensures |MergeConditionOf(nonNullable, nullable, extra).disjuncts| == Pow2(|nullable|)
  {
    AllCombinationsCount(nullable);
  }

  /** With no nullable keys the condition is the single conjunction of key equalities. */
  lemma MergeConditionWithoutNullableKeys(nonNullable: seq<string>, extra: Option<Cond>)
    ensures MergeConditionOf(nonNullable, [], extra) == Or([And(EqAll(nonNullable))])
  {
    var none: seq<string> := [];
    assert CombinationsBelow(none, 0) == [];
    assert Combinations(none, 0) == [[]];
    var combos: seq<seq<string>> := AllCombinations(none);
    assert combos == [[]];
    assert nonNullable + [] == nonNullable;
    assert EqAll(nonNullable) + EitherNullFor([], nonNullable) + ExtraTail([], extra) == EqAll(nonNullable);
  }

  /**
   * Every subset of the nullable keys (given as the keys picked by `chosen`)
   * has its branch: equality on the non-nullable keys and the chosen ones,
   * "either null" on every other nullable key.
   */
  lemma EverySubsetHasBranch(nonNullable: seq<string>, nullable: seq<string>, extra: Option<Cond>,
                             chosen: string -> bool)
    ensures Branch(nonNullable, nullable, extra, FilterBy(nullable, chosen))
            in MergeConditionOf(nonNullable, nullable, extra).disjuncts
  {
    FilterIsInAllCombinations(nullable, chosen);
    BranchOfEachCombination(nonNullable, nullable, extra, AllCombinations(nullable), FilterBy(nullable, chosen));
  }

  /** The keys a predicate picks form one of the combinations the loops visit. */
  lemma FilterIsInAllCombinations<T(!new)>(s: seq<T>, p: T -> bool)
    ensures FilterBy(s, p) in AllCombinations(s)
  {
    var c := FilterBy(s, p);
    FilterIsCombination(s, p);
    assert |c| < |s| + 1;
    CombinationsBelowContains(s, |s| + 1, |c|, c);
    assert AllCombinations(s) == CombinationsBelow(s, |s| + 1);
  }

  lemma BranchOfEachCombination(nonNullable: seq<string>, nullable: seq<string>, extra: Option<Cond>,
                                combos: seq<seq<string>>, c: seq<string>)
    requires c in combos
    ensures Branch(nonNullable, nullable, extra, c) in Branches(nonNullable, nullable, extra, combos)
  {
    var i :| 0 <= i < |combos| && combos[i] == c;
    var bs := Branches(nonNullable, nullable, extra, combos);
    assert bs[i] == Branch(nonNullable, nullable, extra, c);
  }

  /** A target row and a staged row agree on a key, or one of them has it null. */
  predicate EqualOrEitherNull(k: string, u: Row, s: Row)
  {
    EqHolds(k, u, s) || Get(u, k).None? || Get(s, k).None?
  }

  lemma BranchHoldsExactly(nonNullable: seq<string>, nullable: seq<string>, extra: Option<Cond>,
                           c: seq<string>, u: Row, s: Row)
    requires Holds(Branch(nonNullable, nullable, extra, c), u, s)
    ensures forall k :: k in nonNullable ==> EqHolds(k, u, s)
    ensures forall k :: k in nullable ==> EqualOrEitherNull(k, u, s)
    ensures |nullable| > 0 && extra.Some? ==> Holds(extra.value, u, s)
  {
    var item := nonNullable + c;
    var eqs := EqAll(item);
    var nulls := EitherNullFor(nullable, item);
    var tail := ExtraTail(nullable, extra);
    var all := eqs + nulls + tail;
    assert Branch(nonNullable, nullable, extra, c) == And(all);
    assert forall i :: 0 <= i < |all| ==> Holds(all[i], u, s);
    forall k | k in item ensures EqHolds(k, u, s) {
      var i :| 0 <= i < |item| && item[i] == k;
      assert all[i] == Eq(k);
      assert Holds(all[i], u, s);
    }
    forall k | k in nullable && k !in item ensures Get(u, k).None? || Get(s, k).None? {
      assert EitherNull(k) in nulls;
      var i :| 0 <= i < |nulls| && nulls[i] == EitherNull(k);
      assert all[|eqs| + i] == EitherNull(k);
      assert Holds(all[|eqs| + i], u, s);
    }
    if |nullable| > 0 && extra.Some? {
      assert all[|eqs| + |nulls|] == extra.value;
      assert Holds(all[|eqs| + |nulls|], u, s);
    }
  }

  /** Keys equal or null as the condition allows, with the extra condition where it applies. */
  predicate KeysMatch(nonNullable: seq<string>, nullable: seq<string>, extra: Option<Cond>, u: Row, s: Row)
  {
    && (forall k :: k in nonNullable ==> EqHolds(k, u, s))
    && (forall k :: k in nullable ==> EqualOrEitherNull(k, u, s))
    && (|nullable| > 0 && extra.Some? ==> Holds(extra.value, u, s))
  }

  lemma MergeConditionSound(nonNullable: seq<string>, nullable: seq<string>, extra: Option<Cond>, u: Row, s: Row)
    requires Holds(MergeConditionOf(nonNullable, nullable, extra), u, s)
    ensures KeysMatch(nonNullable, nullable, extra, u, s)
  {
    var cond := MergeConditionOf(nonNullable, nullable, extra);
    var combos := AllCombinations(nullable);
    var i :| 0 <= i < |cond.disjuncts| && Holds(cond.disjuncts[i], u, s);
    BranchHoldsExactly(nonNullable, nullable, extra, combos[i], u, s);
  }

  /** The branch of the keys that are equal holds when the keys match. */
  lemma ChosenBranchHolds(nonNullable: seq<string>, nullable: seq<string>, extra: Option<Cond>, u: Row, s: Row)
    requires KeysMatch(nonNullable, nullable, extra, u, s)
    ensures Holds(Branch(nonNullable, nullable, extra, FilterBy(nullable, k => EqHolds(k, u, s))), u, s)
  {
    var chosen := k => EqHolds(k, u, s);
    var c := FilterBy(nullable, chosen);
    var item := nonNullable + c;
    var nulls := EitherNullFor(nullable, item);
    var all := EqAll(item) + nulls + ExtraTail(nullable, extra);
    forall i | 0 <= i < |all| ensures Holds(all[i], u, s) {
      if i < |item| {
        assert all[i] == Eq(item[i]);
        if i >= |nonNullable| {
          assert item[i] == c[i - |nonNullable|];
          assert item[i] in c;
        } else {
          assert item[i] in nonNullable;
        }
      } else if i < |item| + |nulls| {
        assert all[i] == nulls[i - |item|];
        assert all[i] in nulls;
        var k :| k in nullable && k !in item && all[i] == EitherNull(k);
        assert k !in c;
      } else {
        assert all[i] == extra.value;
      }
    }
  }

  lemma MergeConditionComplete(nonNullable: seq<string>, nullable: seq<string>, extra: Option<Cond>, u: Row, s: Row)
    requires KeysMatch(nonNullable, nullable, extra, u, s)
    ensures Holds(MergeConditionOf(nonNullable, nullable, extra), u, s)
  {
    var cond := MergeConditionOf(nonNullable, nullable, extra);
    var chosen := k => EqHolds(k, u, s);
    var b := Branch(nonNullable, nullable, extra, FilterBy(nullable, chosen));
    EverySubsetHasBranch(nonNullable, nullable, extra, chosen);
    ChosenBranchHolds(nonNullable, nullable, extra, u, s);
    var j :| 0 <= j < |cond.disjuncts| && cond.disjuncts[j] == b;
  }

  /**
   * What the `2^n`-way disjunction means: it holds exactly when every
   * non-nullable key is equal on both rows, every nullable key is equal or
   * null on at least one side, and (with nullable keys) the extra condition
   * holds.
   */
  lemma MergeConditionMeaning(nonNullable: seq<string>, nullable: seq<string>, extra: Option<Cond>, u: Row, s: Row)
    ensures Holds(MergeConditionOf(nonNullable, nullable, extra), u, s) <==>
      && (forall k :: k in nonNullable ==> EqHolds(k, u, s))
      && (forall k :: k in nullable ==> EqualOrEitherNull(k, u, s))
      && (|nullable| > 0 && extra.Some? ==> Holds(extra.value, u, s))
  {
    if Holds(MergeConditionOf(nonNullable, nullable, extra), u, s) {
      MergeConditionSound(nonNullable, nullable, extra, u, s);
    }
    if KeysMatch(nonNullable, nullable, extra, u, s) {
      MergeConditionComplete(nonNullable, nullable, extra, u, s);
    }
  }

  // ---------------------------------------------------------------------
  // condInitial

  function NullSafeEqAll(keys: seq<string>): (r: seq<Cond>)
    ensures |r| == |keys|
    ensures forall i :: 0 <= i < |keys| ==> r[i] == NullSafeEq(keys[i])
  {
    seq(|keys|, i requires 0 <= i < |keys| => NullSafeEq(keys[i]))
  }

  /**
   * `condInitial`: equality on the non-nullable keys and null-safe
   * equality on the nullable ones.
   */
  function InitialCondition(nonNullable: seq<string>, nullable: seq<string>): Cond
  {
    And(EqAll(nonNullable) + NullSafeEqAll(nullable))
  }

  lemma InitialConditionMatchesKeys(nonNullable: seq<string>, nullable: seq<string>, u: Row, s: Row)
    requires Holds(InitialCondition(nonNullable, nullable), u, s)
    ensures KeysMatch(nonNullable, nullable, None, u, s)
  {
    var all := EqAll(nonNullable) + NullSafeEqAll(nullable);
    assert forall i :: 0 <= i < |all| ==> Holds(all[i], u, s);
    forall k | k in nonNullable ensures EqHolds(k, u, s) {
      var i :| 0 <= i < |nonNullable| && nonNullable[i] == k;
      assert all[i] == Eq(k);
      assert Holds(all[i], u, s);
    }
    forall k | k in nullable ensures EqualOrEitherNull(k, u, s) {
      var i :| 0 <= i < |nullable| && nullable[i] == k;
      assert all[|nonNullable| + i] == NullSafeEq(k);
      assert Holds(all[|nonNullable| + i], u, s);
    }
  }

  lemma KeysMatchWithoutNullableIsInitial(nonNullable: seq<string>, u: Row, s: Row)
    requires KeysMatch(nonNullable, [], None, u, s)
    ensures Holds(InitialCondition(nonNullable, []), u, s)
  {
    var all := EqAll(nonNullable) + NullSafeEqAll([]);
    assert all == EqAll(nonNullable);
    forall i | 0 <= i < |all| ensures Holds(all[i], u, s) {
      assert all[i] == Eq(nonNullable[i]);
      assert nonNullable[i] in nonNullable;
    }
  }

  /**
   * The initial condition is at least as strict as the outer merge
   * condition, and the two agree when no key is nullable.
   */
  lemma InitialConditionImpliesMergeCondition(nonNullable: seq<string>, nullable: seq<string>, u: Row, s: Row)
    ensures Holds(InitialCondition(nonNullable, nullable), u, s) ==> Holds(MergeConditionOf(nonNullable, nullable, None), u, s)
    ensures nullable == [] ==>
      (Holds(InitialCondition(nonNullable, nullable), u, s) <==> Holds(MergeConditionOf(nonNullable, nullable, None), u, s))
  {
    if Holds(InitialCondition(nonNullable, nullable), u, s) {
      InitialConditionMatchesKeys(nonNullable, nullable, u, s);
      MergeConditionComplete(nonNullable, nullable, None, u, s);
    }
    if nullable == [] && Holds(MergeConditionOf(nonNullable, nullable, None), u, s) {
      MergeConditionSound(nonNullable, nullable, None, u, s);
      KeysMatchWithoutNullableIsInitial(nonNullable, u, s);
    }
  }

  /**
   * A key in both lists of the split (an outer join whose inputs both
   * declare it) is compared with `=` and with `<=>` in `condInitial`; the
   * `=` decides, so a null on either side never matches.
   */
  lemma InitialConditionOnSharedKey(nonNullable: seq<string>, nullable: seq<string>, k: string, u: Row, s: Row)
    requires k in nonNullable && k in nullable
    ensures Eq(k) in InitialCondition(nonNullable, nullable).conjuncts
    ensures NullSafeEq(k) in InitialCondition(nonNullable, nullable).conjuncts
    ensures Holds(InitialCondition(nonNullable, nullable), u, s) ==> EqHolds(k, u, s) && Get(u, k).Some?
  {
    var all := EqAll(nonNullable) + NullSafeEqAll(nullable);
    var i :| 0 <= i < |nonNullable| && nonNullable[i] == k;
    var j :| 0 <= j < |nullable| && nullable[j] == k;
    assert all[i] == Eq(k);
    assert all[|nonNullable| + j] == NullSafeEq(k);
    if Holds(InitialCondition(nonNullable, nullable), u, s) {
      InitialConditionMatchesKeys(nonNullable, nullable, u, s);
    }
  }

  // ---------------------------------------------------------------------
  // The last-write-wins guard of the matched update

  /**
   * `matchCondition`: for every sequence column, the target's value is null
   * or not greater than the staged one (a null staged value fails the
   * comparison).
   */
  predicate GuardAllows(u: Row, s: Row, seqCols: seq<string>)
  {
    forall i :: 0 <= i < |seqCols| ==>
      Get(u, seqCols[i]).None? || (Get(s, seqCols[i]).Some? && Get(u, seqCols[i]).value <= Get(s, seqCols[i]).value)
  }

  /** The staged row's values of the target's columns (`updateCols`). */
  function Project(s: Row, cols: seq<string>): (r: Row)
    ensures forall c :: c in cols ==> Get(r, c) == Get(s, c)
    ensures forall c :: c !in cols ==> c !in r
  {
    map c | c in cols :: Get(s, c)
  }

  /** `whenMatchedUpdate(condition = matchCondition, set = updateCols)` applied to one matched row. */
  function ApplyMatched(u: Row, s: Row, cols: seq<string>, seqCols: seq<string>): Row
  {
    if GuardAllows(u, s, seqCols) then Project(s, cols) else u
  }

  /** Replaying the same staged row leaves the target row as one application did. */
  lemma ApplyMatchedIdempotent(u: Row, s: Row, cols: seq<string>, seqCols: seq<string>)
    requires forall sc :: sc in seqCols ==> sc in cols
    ensures ApplyMatched(ApplyMatched(u, s, cols, seqCols), s, cols, seqCols) == ApplyMatched(u, s, cols, seqCols)
  {
    var once := ApplyMatched(u, s, cols, seqCols);
    if GuardAllows(u, s, seqCols) {
      assert forall i :: 0 <= i < |seqCols| ==> seqCols[i] in cols;
      assert GuardAllows(once, s, seqCols);
    }
  }

  /** A non-null sequence value in the target never decreases. */
  lemma ApplyMatchedKeepsSequenceMonotonic(u: Row, s: Row, cols: seq<string>, seqCols: seq<string>, i: nat)
    requires forall sc :: sc in seqCols ==> sc in cols
    requires i < |seqCols| && Get(u, seqCols[i]).Some?
    ensures Get(ApplyMatched(u, s, cols, seqCols), seqCols[i]).Some?
    ensures Get(u, seqCols[i]).value <= Get(ApplyMatched(u, s, cols, seqCols), seqCols[i]).value
  {
    assert seqCols[i] in cols;
  }

  lemma GuardOfOneColumn(u: Row, s: Row, sc: string)
    ensures GuardAllows(u, s, [sc]) <==> Get(u, sc).None? || (Get(s, sc).Some? && Get(u, sc).value <= Get(s, sc).value)
  {
    assert [sc][0] == sc;
  }

  function MaxInt(a: int, b: int): int
  {
    if a >= b then a else b
  }

  /** The larger of a possibly null target value and a non-null one. */
  function MaxWithNull(a: Option<int>, b: int): int
  {
    if a.Some? then MaxInt(a.value, b) else b
  }

  /**
   * Last write wins: two updates of the same row with one sequence column
   * leave the largest sequence value among the target row's and the two
   * updates', whichever order they arrive in. An update older than the
   * target row is refused by the guard.
   */
  lemma LastWriteWinsInEitherOrder(u: Row, s1: Row, s2: Row, cols: seq<string>, sc: string)
    requires sc in cols
    requires Get(s1, sc).Some? && Get(s2, sc).Some?
    ensures Get(ApplyMatched(ApplyMatched(u, s1, cols, [sc]), s2, cols, [sc]), sc)
         == Some(MaxWithNull(Get(u, sc), MaxInt(Get(s1, sc).value, Get(s2, sc).value)))
    ensures Get(ApplyMatched(ApplyMatched(u, s2, cols, [sc]), s1, cols, [sc]), sc)
         == Some(MaxWithNull(Get(u, sc), MaxInt(Get(s1, sc).value, Get(s2, sc).value)))
  {
    var r1, r2 := ApplyMatched(u, s1, cols, [sc]), ApplyMatched(u, s2, cols, [sc]);
    GuardOfOneColumn(u, s1, sc);
    GuardOfOneColumn(u, s2, sc);
    GuardOfOneColumn(r1, s2, sc);
    GuardOfOneColumn(r2, s1, sc);
  }
}
