/**
 * Chains of streaming queries. A stage that reads the output of an
 * upstream stage holds that stage's writer as its "dependent"; starting,
 * stopping and observing a stage recurse into the dependent first.
 */
module Chain {
  import opened Wrappers

  /** A `DataStreamWriter`: its query's name and the upstream writer it depends on. */
  datatype Writer = Writer(name: string, dependent: Option<Writer>)

  /** A started `StreamingQuery` and the started query of its dependent. */
  datatype Query = Query(name: string, dependent: Option<Query>)

  /** `_chainStreamingQuery`: the same writer with `dependent` recorded. */
  function ChainTo(w: Writer, dependent: Option<Writer>): (c: Writer)
    ensures c.name == w.name && c.dependent == dependent
  {
    w.(dependent := dependent)
  }

  /** The names along a chain, the most upstream first. */
  function Names(w: Writer): (ns: seq<string>)
    ensures |ns| >= 1 && ns[|ns| - 1] == w.name
  {
    match w.dependent
    case None => [w.name]
    case Some(d) => Names(d) + [w.name]
  }

  function QueryNames(q: Query): (ns: seq<string>)
    ensures |ns| >= 1 && ns[|ns| - 1] == q.name
  {
    match q.dependent
    case None => [q.name]
    case Some(d) => QueryNames(d) + [q.name]
  }

  /** `_depth(index)`: follows the dependents, adding one per link. */
  function Depth(w: Writer, index: nat): nat
  {
    match w.dependent
    case None => index
    case Some(d) => Depth(d, index + 1)
  }

  /** `_depth(i)` is `i` plus the number of dependent links. */
  lemma {:induction false} DepthCountsLinks(w: Writer, index: nat)
    ensures Depth(w, index) == index + |Names(w)| - 1
  {
    match w.dependent
    case None =>
    case Some(d) =>
      DepthCountsLinks(d, index + 1);
  }

  /** `stagingIndex`: the dependent's depth from 1, or 0 without a dependent. */
  function StagingIndex(dependent: Option<Writer>): nat
  {
    if dependent.Some? then Depth(dependent.value, 1) else 0
  }

  /** A stage's staging index is the number of stages upstream of it. */
  lemma StagingIndexCountsUpstream(w: Writer)
    ensures StagingIndex(w.dependent) == |Names(w)| - 1
  {
    if w.dependent.Some? {
      DepthCountsLinks(w.dependent.value, 1);
    }
  }

  /** The query a writer's `start` returns: the same chain, started. */
  function Started(w: Writer): (q: Query)
    ensures QueryNames(q) == Names(w)
  {
    match w.dependent
    case None => Query(w.name, None)
    case Some(d) => Query(w.name, Some(Started(d)))
  }

  /** `isActive`: the dependent is active, or else this query is. */
  function IsActive(q: Query, active: set<string>): bool
  {
    match q.dependent
    case Some(d) => if IsActive(d, active) then true else q.name in active
    case None => q.name in active
  }

  /** A chain is active iff some query along it is active. */
  lemma {:induction false} IsActiveIffSomeActive(q: Query, active: set<string>)
    ensures IsActive(q, active) <==> exists i :: 0 <= i < |QueryNames(q)| && QueryNames(q)[i] in active
  {
    match q.dependent
    case None =>
      assert QueryNames(q) == [q.name];
    case Some(d) =>
      IsActiveIffSomeActive(d, active);
      var ns := QueryNames(q);
      assert ns == QueryNames(d) + [q.name];
      assert IsActive(q, active) == (IsActive(d, active) || q.name in active);
      if exists i :: 0 <= i < |ns| && ns[i] in active {
        var i :| 0 <= i < |ns| && ns[i] in active;
        if i < |ns| - 1 {
          assert ns[i] == QueryNames(d)[i];
          assert IsActive(d, active);
        } else {
          assert ns[i] == q.name;
        }
      }
      if IsActive(d, active) {
        var i :| 0 <= i < |QueryNames(d)| && QueryNames(d)[i] in active;
        assert ns[i] == QueryNames(d)[i];
        assert IsActive(q, active) && QueryNames(q)[i] in active;
        assert exists j :: 0 <= j < |QueryNames(q)| && QueryNames(q)[j] in active;
      } else if q.name in active {
        assert ns[|ns| - 1] in active;
      } else {
        forall i | 0 <= i < |ns| ensures ns[i] !in active {
          if i < |ns| - 1 {
            assert ns[i] == QueryNames(d)[i];
          }
        }
      }
  }

  /**
   * `lastProgress`: the dependent's progress map, updated with this
   * query's progress under its name.
   */
  function LastProgress<P>(q: Query, progressOf: string -> P): (pd: map<string, P>)
  {
    var upstream := if q.dependent.Some? then LastProgress(q.dependent.value, progressOf) else map[];
    upstream[q.name := progressOf(q.name)]
  }

  /** The progress map has one entry per query name of the chain, with that query's progress. */
  lemma {:induction false} LastProgressCoversChain<P>(q: Query, progressOf: string -> P)
    ensures forall n :: n in LastProgress(q, progressOf) <==> n in QueryNames(q)
    ensures forall n :: n in LastProgress(q, progressOf) ==> LastProgress(q, progressOf)[n] == progressOf(n)
  {
    if q.dependent.Some? {
      LastProgressCoversChain(q.dependent.value, progressOf);
    }
  }

  /** The streaming engine: which queries run, and the order of starts and stops. */
  class Engine {
    var active: set<string>
    var startLog: seq<string>
    var stopLog: seq<string>

    constructor()
      ensures active == {} && startLog == [] && stopLog == []
    {
      active := {};
      startLog := [];
      stopLog := [];
    }

    /**
     * `DataStreamWriter.start`: starts the dependent chain first, then this
     * writer's query, and returns the started chain.
     */
    method Start(w: Writer) returns (q: Query)
      modifies this
      ensures q == Started(w)
      ensures startLog == old(startLog) + Names(w)
      ensures active == old(active) + set n | n in Names(w)
      ensures stopLog == old(stopLog)
      decreases w
    {
      var dq: Option<Query> := None;
      if w.dependent.Some? {
        var d := Start(w.dependent.value);
        dq := Some(d);
      }
      startLog := startLog + [w.name];
      active := active + {w.name};
      q := Query(w.name, dq);
    }

    /**
     * `StreamingQuery.stop`: stops the dependent chain first, then this
     * query.
     */
    method Stop(q: Query)
      modifies this
      ensures stopLog == old(stopLog) + QueryNames(q)
      ensures active == old(active) - set n | n in QueryNames(q)
      ensures startLog == old(startLog)
      decreases q
    {
      if q.dependent.Some? {
        Stop(q.dependent.value);
      }
      stopLog := stopLog + [q.name];
      active := active - {q.name};
    }
  }

  /** After `stop`, no query of the chain is active. */
  lemma StoppedChainIsInactive(q: Query, before: set<string>)
    ensures !IsActive(q, before - set n | n in QueryNames(q))
  {
    IsActiveIffSomeActive(q, before - set n | n in QueryNames(q));
  }

  /** Right after `start`, the started chain is active. */
  lemma StartedChainIsActive(w: Writer, before: set<string>)
    ensures IsActive(Started(w), before + set n | n in Names(w))
  {
    var ns := Names(w);
    IsActiveIffSomeActive(Started(w), before + set n | n in ns);
    assert ns[|ns| - 1] in ns;
  }
}
