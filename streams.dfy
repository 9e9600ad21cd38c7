/**
 * A change-data stream handle (`Stream`) and the resolution of join
 * expressions written over stream columns (`stream['col'] == other['col']`)
 * into columns of the left or right frame of a join.
 */
module Streams {
  import opened Wrappers
  import opened Rows
  import opened Keys

  /** The change-feed bookkeeping columns that `columns()` hides. */
  const ExcludedColumns: seq<string> := ["_commit_version", "_change_type"]

  /** `columns()`: the stream's columns without the change-feed bookkeeping columns. */
  function VisibleColumns(all: seq<string>): (cols: seq<string>)
    ensures forall c :: c in cols <==> c in all && c != "_commit_version" && c != "_change_type"
  {
    Without(all, ExcludedColumns)
  }

  class Stream {
    /** The cached unversioned snapshot (`_static`). */
    var staticCache: Option<seq<Row>>
    var primaryKeys: Option<seq<string>>
    var sequenceColumns: Option<seq<string>>

    constructor()
      ensures staticCache == None && primaryKeys == None && sequenceColumns == None
    {
      staticCache := None;
      primaryKeys := None;
      sequenceColumns := None;
    }

    /**
     * `static(version)`: a versioned read goes to the reader every time; the
     * unversioned read is done once and then served from the cache.
     * `read` stands for the snapshot reader (`_staticReader`).
     */
    method Static(version: Option<nat>, read: Option<nat> -> seq<Row>) returns (snapshot: seq<Row>)
      modifies this
      ensures version.Some? ==> snapshot == read(version) && staticCache == old(staticCache)
      ensures version.None? && old(staticCache).Some? ==> snapshot == old(staticCache).value && staticCache == old(staticCache)
      ensures version.None? && old(staticCache).None? ==> snapshot == read(None) && staticCache == Some(snapshot)
      ensures primaryKeys == old(primaryKeys) && sequenceColumns == old(sequenceColumns)
    {
      if version.None? {
        if staticCache.None? {
          staticCache := Some(read(version));
        }
        return staticCache.value;
      }
      return read(version);
    }

    /** `primaryKeys(*keys)`. */
    method SetPrimaryKeys(keys: seq<string>)
      modifies this
      ensures primaryKeys == Some(keys)
      ensures staticCache == old(staticCache) && sequenceColumns == old(sequenceColumns)
    {
      primaryKeys := Some(keys);
    }

    /** `sequenceBy(*columns)`. */
    method SetSequenceColumns(columns: seq<string>)
      modifies this
      ensures sequenceColumns == Some(columns)
      ensures staticCache == old(staticCache) && primaryKeys == old(primaryKeys)
    {
      sequenceColumns := Some(columns);
    }
  }

  /**
   * Once an unversioned snapshot has been read, every later unversioned
   * read returns it, whatever the reader would now return.
   */
  method StaticIsReadOnce(s: Stream, read1: Option<nat> -> seq<Row>, read2: Option<nat> -> seq<Row>)
    returns (first: seq<Row>, second: seq<Row>)
    modifies s
    ensures first == second
    ensures old(s.staticCache).None? ==> first == read1(None)
  {
    first := s.Static(None, read1);
    second := s.Static(None, read2);
  }

  // ---------------------------------------------------------------------
  // Join expressions

  /** The operators an `Expression` combines its operands with. */
  datatype Op = Equal | Less | Greater | LessEq | GreaterEq | NotEqual | And | Or

  /**
   * An expression over stream columns: a column of a stream handle
   * (`ColumnSelector`), a ready-made Spark column, or an operator over two
   * expressions.
   */
  datatype Expr =
    | Selector(frame: Stream, column: string)
    | Literal(name: string)
    | Binary(op: Op, left: Expr, right: Expr)

  /** A column of a join: from the left frame, the right frame, or neither. */
  datatype Column =
    | LeftColumn(column: string)
    | RightColumn(column: string)
    | Constant(name: string)
    | Apply(op: Op, left: Column, right: Column)

  /**
   * `toColumn(left, right)`: a selector whose stream is the right handle
   * itself becomes a right-frame column; every other selector becomes a
   * left-frame column.
   */
  function ToColumn(e: Expr, left: Stream, right: Stream): Column
  {
    match e
    case Selector(frame, c) => if frame == right then RightColumn(c) else LeftColumn(c)
    case Literal(n) => Constant(n)
    case Binary(op, a, b) => Apply(op, ToColumn(a, left, right), ToColumn(b, left, right))
  }

  /** The (stream, column) pairs an expression selects. */
  function Selected(e: Expr): set<(Stream, string)>
  {
    match e
    case Selector(frame, c) => {(frame, c)}
    case Literal(_) => {}
    case Binary(_, a, b) => Selected(a) + Selected(b)
  }

  function RightColumns(c: Column): set<string>
  {
    match c
    case RightColumn(n) => {n}
    case LeftColumn(_) => {}
    case Constant(_) => {}
    case Apply(_, a, b) => RightColumns(a) + RightColumns(b)
  }

  function LeftColumns(c: Column): set<string>
  {
    match c
    case LeftColumn(n) => {n}
    case RightColumn(_) => {}
    case Constant(_) => {}
    case Apply(_, a, b) => LeftColumns(a) + LeftColumns(b)
  }

  /**
   * Resolution never fails and sorts by identity alone: the right-frame
   * columns are those selected from the right handle, and every other
   * selected column (whichever stream it came from) is a left-frame column.
   */
  lemma {:induction false} ResolutionByIdentity(e: Expr, left: Stream, right: Stream)
    ensures RightColumns(ToColumn(e, left, right)) == set p | p in Selected(e) && p.0 == right :: p.1
    ensures LeftColumns(ToColumn(e, left, right)) == set p | p in Selected(e) && p.0 != right :: p.1
  {
    match e
    case Selector(frame, c) =>
      assert (frame, c) in Selected(e);
    case Literal(_) =>
    case Binary(_, a, b) =>
      ResolutionByIdentity(a, left, right);
      ResolutionByIdentity(b, left, right);
  }

  /** The left handle is never consulted: only the right one decides. */
  lemma {:induction false} LeftHandleIsIrrelevant(e: Expr, left1: Stream, left2: Stream, right: Stream)
    ensures ToColumn(e, left1, right) == ToColumn(e, left2, right)
  {
    match e
    case Selector(_, _) =>
    case Literal(_) =>
    case Binary(_, a, b) =>
      LeftHandleIsIrrelevant(a, left1, left2, right);
      LeftHandleIsIrrelevant(b, left1, left2, right);
  }

  /**
   * In a self-join, where both handles are the same object, every selector
   * of that stream resolves to the right frame.
   */
  lemma SelfJoinResolvesRight(e: Expr, s: Stream)
    requires forall p :: p in Selected(e) ==> p.0 == s
    ensures LeftColumns(ToColumn(e, s, s)) == {}
    ensures RightColumns(ToColumn(e, s, s)) == set p | p in Selected(e) :: p.1
  {
    ResolutionByIdentity(e, s, s);
  }
}
