/**
 * Record-source helpers of src/jrd/RecordSourceNodes.h: where a sort puts NULLs,
 * the flag word of a query expression (`RseNode`) and its copy, the streams each
 * kind of record source answers for, and the three ways an inversion node is made.
 */
module RecordSourceNodes {
  import opened Common
  import opened Nodes

  // ---------------------------------------------------------------------------
  // SortNode

  /** `SortDirection`: `ORDER_ANY`, `ORDER_ASC`, `ORDER_DESC`. */
  datatype SortDirection = OrderAny | OrderAsc | OrderDesc

  /** `NullsPlacement`: `NULLS_DEFAULT`, `NULLS_FIRST`, `NULLS_LAST`. */
  datatype NullsPlacement = NullsDefault | NullsFirst | NullsLast

  /** The sort keys of a `SortNode`: one direction and one NULL placement per expression. */
  datatype SortNode = SortNode(unique: bool, expressions: seq<Expr>, direction: seq<SortDirection>,
                               nullOrder: seq<NullsPlacement>)

  /**
   * `getEffectiveNullOrder(index)`: an explicit placement is kept; the default puts
   * NULLs first in an ascending key and last in a descending one. A key without a
   * direction, which the engine asserts never reaches this call, answers the default.
   */
  function GetEffectiveNullOrder(sort: SortNode, index: nat): (r: NullsPlacement)
    requires index < |sort.direction| && index < |sort.nullOrder|
    ensures sort.nullOrder[index] != NullsDefault && sort.direction[index] != OrderAny ==>
      r == sort.nullOrder[index]
    ensures sort.nullOrder[index] == NullsDefault && sort.direction[index] == OrderAsc ==> r == NullsFirst
    ensures sort.nullOrder[index] == NullsDefault && sort.direction[index] == OrderDesc ==> r == NullsLast
    ensures sort.direction[index] == OrderAny ==> r == NullsDefault
  {
    match sort.direction[index]
    case OrderAsc => if sort.nullOrder[index] == NullsDefault then NullsFirst else sort.nullOrder[index]
    case OrderDesc => if sort.nullOrder[index] == NullsDefault then NullsLast else sort.nullOrder[index]
    case OrderAny => NullsDefault
  }

  function Flip(p: NullsPlacement): NullsPlacement {
    match p
    case NullsFirst => NullsLast
    case NullsLast => NullsFirst
    case NullsDefault => NullsDefault
  }

  function Reverse(d: SortDirection): SortDirection {
    match d
    case OrderAsc => OrderDesc
    case OrderDesc => OrderAsc
    case OrderAny => OrderAny
  }

  /**
   * A key with a direction always gets a definite placement, and with the default
   * placement NULLs sort as the lowest value: reversing the direction moves them
   * to the other end.
   */
  lemma EffectiveNullOrderIsDefinite(sort: SortNode, index: nat)
    requires index < |sort.direction| && index < |sort.nullOrder|
    ensures sort.direction[index] != OrderAny ==> GetEffectiveNullOrder(sort, index) != NullsDefault
    ensures sort.nullOrder[index] == NullsDefault ==>
      var reversed := sort.(direction := sort.direction[index := Reverse(sort.direction[index])]);
      GetEffectiveNullOrder(reversed, index) == Flip(GetEffectiveNullOrder(sort, index))
  {
  }

  // ---------------------------------------------------------------------------
  // RseNode flags

  /** The bits of `RseNode::flags`. */
  datatype RseFlag = Variant | Singular | WriteLock | Scrollable | DsqlComparative | Lateral | SkipLocked | SubQuery

  /** `FLAG_VARIANT` … `FLAG_SUB_QUERY`. */
  function Bit(f: RseFlag): (b: bv16)
    ensures b != 0 && b & (b - 1) == 0
  {
    match f
    case Variant => 0x01
    case Singular => 0x02
    case WriteLock => 0x04
    case Scrollable => 0x08
    case DsqlComparative => 0x10
    case Lateral => 0x20
    case SkipLocked => 0x40
    case SubQuery => 0x80
  }

  predicate HasFlag(flags: bv16, f: RseFlag) {
    HasBit(flags, Bit(f))
  }

  predicate HasBit(x: bv16, b: bv16) {
    x & b != 0
  }

  /** `isInvariant`: the variant bit is clear. */
  predicate IsInvariant(flags: bv16) { !HasFlag(flags, Variant) }
  /** `isSingular`. */
  predicate IsSingular(flags: bv16) { HasFlag(flags, Singular) }
  /** `isScrollable`. */
  predicate IsScrollable(flags: bv16) { HasFlag(flags, Scrollable) }
  /** `isLateral`. */
  predicate IsLateral(flags: bv16) { HasFlag(flags, Lateral) }
  /** `isSubQuery`. */
  predicate IsSubQuery(flags: bv16) { HasFlag(flags, SubQuery) }
  /** `hasWriteLock`. */
  predicate HasWriteLock(flags: bv16) { HasFlag(flags, WriteLock) }
  /** `hasSkipLocked`. */
  predicate HasSkipLocked(flags: bv16) { HasFlag(flags, SkipLocked) }

  /** The flags are distinct single bits. */
  lemma FlagBitsDisjoint(f: RseFlag, g: RseFlag)
    ensures f != g ==> Bit(f) & Bit(g) == 0
    ensures f == g <==> Bit(f) == Bit(g)
  {
  }

  /**
   * Setting one flag turns its own predicate on and leaves every other flag as
   * it was; clearing one turns it off and likewise leaves the others.
   */
  lemma FlagsIndependent(flags: bv16, f: RseFlag, g: RseFlag)
    ensures HasFlag(flags | Bit(g), f) <==> HasFlag(flags, f) || f == g
    ensures HasFlag(flags & !Bit(g), f) <==> HasFlag(flags, f) && f != g
  {
    SetFlag(flags, f, g);
    ClearFlag(flags, f, g);
  }

  lemma SetFlag(flags: bv16, f: RseFlag, g: RseFlag)
    ensures HasFlag(flags | Bit(g), f) <==> HasFlag(flags, f) || f == g
  {
    FlagBitsDisjoint(f, g);
    SetBit(flags, Bit(f), Bit(g));
  }

  lemma ClearFlag(flags: bv16, f: RseFlag, g: RseFlag)
    ensures HasFlag(flags & !Bit(g), f) <==> HasFlag(flags, f) && f != g
  {
    FlagBitsDisjoint(f, g);
    ClearBit(flags, Bit(f), Bit(g));
  }

  /** Setting bit `c` makes a single bit `b` present when it is `c`, and leaves it as it was when disjoint. */
  lemma SetBit(x: bv16, b: bv16, c: bv16)
    requires b != 0 && (b == c || b & c == 0)
    ensures HasBit(x | c, b) <==> HasBit(x, b) || b == c
  {
    if b == c {
      OrSame(x, b);
    } else {
      OrDisjoint(x, b, c);
    }
  }

  lemma OrSame(x: bv16, b: bv16)
    ensures (x | b) & b == b
  {
  }

  lemma OrDisjoint(x: bv16, b: bv16, c: bv16)
    requires b & c == 0
    ensures (x | c) & b == x & b
  {
  }

  /** Clearing bit `c` makes a single bit `b` absent when it is `c`, and leaves it as it was when disjoint. */
  lemma ClearBit(x: bv16, b: bv16, c: bv16)
    requires b == c || b & c == 0
    ensures HasBit(x & !c, b) <==> HasBit(x, b) && b != c
  {
  }

  /** The predicates of the empty flag word: invariant, and nothing else. */
  lemma DefaultFlags()
    ensures IsInvariant(0) && !IsSingular(0) && !IsScrollable(0) && !IsLateral(0)
    ensures !IsSubQuery(0) && !HasWriteLock(0) && !HasSkipLocked(0)
  {
  }

  // ---------------------------------------------------------------------------
  // RseNode

  /** `Firebird::TriState`. */
  datatype TriState = Unknown | Known(value: bool)

  /** `blr_inner`, the join type a new query expression starts with. */
  const BlrInner: nat := 0

  /** The fields `clone` copies, as one value. */
  datatype RseFields = RseFields(
    dsqlFirst: Expr, dsqlSkip: Expr, dsqlDistinct: Expr, dsqlSelectList: Expr, dsqlFrom: Expr,
    dsqlWhere: Expr, dsqlJoinUsing: Expr, dsqlGroup: Expr, dsqlHaving: Expr,
    dsqlNamedWindows: Option<nat>, dsqlOrder: Expr, dsqlStreams: Expr, dsqlContext: Option<nat>,
    dsqlExplicitJoin: bool, rseJoinType: nat, rseFirst: Expr, rseSkip: Expr, rseBoolean: Expr,
    rseSorted: Option<SortNode>, rseProjection: Option<SortNode>, rseAggregate: Option<SortNode>,
    rsePlan: Option<nat>, rseInvariants: Option<seq<nat>>, flags: bv16,
    rseRelations: seq<Expr>, firstRows: TriState)

  /**
   * A query expression. Pointers to objects outside this model (the named-window
   * clause, the DSQL context, the plan, the invariant list) are kept as identities.
   */
  class RseNode {
    var dsqlFirst: Expr
    var dsqlSkip: Expr
    var dsqlDistinct: Expr
    var dsqlSelectList: Expr
    var dsqlFrom: Expr
    var dsqlWhere: Expr
    var dsqlJoinUsing: Expr
    var dsqlGroup: Expr
    var dsqlHaving: Expr
    var dsqlNamedWindows: Option<nat>
    var dsqlOrder: Expr
    var dsqlStreams: Expr
    var dsqlContext: Option<nat>
    var dsqlExplicitJoin: bool
    var rseJoinType: nat
    var rseFirst: Expr
    var rseSkip: Expr
    var rseBoolean: Expr
    var rseSorted: Option<SortNode>
    var rseProjection: Option<SortNode>
    var rseAggregate: Option<SortNode>
    var rsePlan: Option<nat>
    var rseInvariants: Option<seq<nat>>
    var flags: bv16
    var rseRelations: seq<Expr>
    var firstRows: TriState
    /** `RecordSourceNode::stream`. */
    var stream: int
    /** `RecordSourceNode::dsqlFlags`. */
    var dsqlFlags: bv16

    function Fields(): RseFields
      reads this
    {
      RseFields(dsqlFirst, dsqlSkip, dsqlDistinct, dsqlSelectList, dsqlFrom, dsqlWhere, dsqlJoinUsing,
                dsqlGroup, dsqlHaving, dsqlNamedWindows, dsqlOrder, dsqlStreams, dsqlContext,
                dsqlExplicitJoin, rseJoinType, rseFirst, rseSkip, rseBoolean, rseSorted, rseProjection,
                rseAggregate, rsePlan, rseInvariants, flags, rseRelations, firstRows)
    }

    /** `RseNode(pool)`: everything absent, no flags, an inner join, no stream. */
    constructor ()
      ensures Fields() == RseFields(Null, Null, Null, Null, Null, Null, Null, Null, Null, None, Null, Null,
                                    None, false, BlrInner, Null, Null, Null, None, None, None, None, None,
                                    0, [], Unknown)
      ensures stream == InvalidStream && dsqlFlags == 0
    {
      dsqlFirst, dsqlSkip, dsqlDistinct, dsqlSelectList, dsqlFrom := Null, Null, Null, Null, Null;
      dsqlWhere, dsqlJoinUsing, dsqlGroup, dsqlHaving := Null, Null, Null, Null;
      dsqlNamedWindows, dsqlOrder, dsqlStreams, dsqlContext := None, Null, Null, None;
      dsqlExplicitJoin, rseJoinType := false, BlrInner;
      rseFirst, rseSkip, rseBoolean := Null, Null, Null;
      rseSorted, rseProjection, rseAggregate, rsePlan, rseInvariants := None, None, None, None, None;
      flags, rseRelations, firstRows := 0, [], Unknown;
      stream, dsqlFlags := InvalidStream, 0;
    }

    /** The allocation and field copies of `clone`, done as the new node is built. */
    constructor CopyOf(from: RseNode)
      ensures Fields() == from.Fields()
      ensures stream == InvalidStream && dsqlFlags == 0
    {
      dsqlFirst, dsqlSkip, dsqlDistinct := from.dsqlFirst, from.dsqlSkip, from.dsqlDistinct;
      dsqlSelectList, dsqlFrom, dsqlWhere := from.dsqlSelectList, from.dsqlFrom, from.dsqlWhere;
      dsqlJoinUsing, dsqlGroup, dsqlHaving := from.dsqlJoinUsing, from.dsqlGroup, from.dsqlHaving;
      dsqlNamedWindows, dsqlOrder, dsqlStreams := from.dsqlNamedWindows, from.dsqlOrder, from.dsqlStreams;
      dsqlContext, dsqlExplicitJoin := from.dsqlContext, from.dsqlExplicitJoin;
      rseJoinType, rseFirst, rseSkip, rseBoolean := from.rseJoinType, from.rseFirst, from.rseSkip, from.rseBoolean;
      rseSorted, rseProjection, rseAggregate := from.rseSorted, from.rseProjection, from.rseAggregate;
      rsePlan, rseInvariants, flags := from.rsePlan, from.rseInvariants, from.flags;
      rseRelations, firstRows := from.rseRelations, from.firstRows;
      stream, dsqlFlags := InvalidStream, 0;
    }

    /**
     * `clone`: a new node with every query field, the flags, the relations and the
     * first-rows hint of this one. The stream and the DSQL flags are not copied:
     * the clone has no stream and no DSQL flags.
     */
    method Clone() returns (obj: RseNode)
      ensures fresh(obj) && obj.Fields() == Fields()
      ensures obj.stream == InvalidStream && obj.dsqlFlags == 0
    {
      obj := new RseNode.CopyOf(this);
    }

    /** The DSQL children, in the order `getChildren` adds them. */
    function DsqlChildren(): (r: seq<Expr>)
      reads this
      ensures |r| == 8 && r[0] == dsqlStreams && r[1] == dsqlWhere && r[7] == dsqlSkip
    {
      [dsqlStreams, dsqlWhere, dsqlJoinUsing, dsqlOrder, dsqlDistinct, dsqlSelectList, dsqlFirst, dsqlSkip]
    }

    /**
     * `getChildren(holder, dsql)`: in DSQL mode the eight DSQL children are
     * appended to the holder; otherwise the holder is left as it was.
     */
    method GetChildren(holder: seq<Expr>, dsql: bool) returns (r: seq<Expr>)
      ensures dsql ==> r == holder + DsqlChildren()
      ensures !dsql ==> r == holder
    {
      r := holder;
      if dsql {
        r := r + [dsqlStreams];
        r := r + [dsqlWhere];
        r := r + [dsqlJoinUsing];
        r := r + [dsqlOrder];
        r := r + [dsqlDistinct];
        r := r + [dsqlSelectList];
        r := r + [dsqlFirst];
        r := r + [dsqlSkip];
      }
    }
  }

  // ---------------------------------------------------------------------------
  // Record sources

  /** The record-source kinds whose stream rules this model covers, each with its stream. */
  datatype SourceNode =
    | LocalTableSource(stream: int)
    | RelationSource(stream: int)
    | ProcedureSource(stream: int)
    | AggregateSource(stream: int)
    | WindowSource

  /** `containsStream(checkStream)` of a local table, a relation or a procedure: whether it is its own stream. */
  function SourceContainsStream(src: SourceNode, checkStream: int): (r: bool)
    requires src.LocalTableSource? || src.RelationSource? || src.ProcedureSource?
    ensures r <==> checkStream == src.stream
  {
    match src
    case LocalTableSource(s) => checkStream == s
    case RelationSource(s) => checkStream == s
    case ProcedureSource(s) => checkStream == s
  }

  /**
   * `computeDbKeyStreams(streamList)`: a local table and a relation append their
   * own stream, since their records carry a dbkey; procedures, aggregates and
   * windows append nothing.
   */
  function ComputeDbKeyStreams(src: SourceNode, streamList: seq<int>): (r: seq<int>)
    ensures src.LocalTableSource? || src.RelationSource? ==> r == streamList + [src.stream]
    ensures !(src.LocalTableSource? || src.RelationSource?) ==> r == streamList
  {
    match src
    case LocalTableSource(s) => streamList + [s]
    case RelationSource(s) => streamList + [s]
    case _ => streamList
  }

  /**
   * For a table or a relation, the streams whose dbkeys are carried are exactly the
   * streams it contains; the list before the call is kept as its prefix.
   */
  lemma DbKeyStreamsAreContainedStreams(src: SourceNode, streamList: seq<int>)
    requires src.LocalTableSource? || src.RelationSource?
    ensures var r := ComputeDbKeyStreams(src, streamList);
      |r| == |streamList| + 1 && r[..|streamList|] == streamList &&
      SourceContainsStream(src, r[|streamList|])
    ensures forall s :: s in ComputeDbKeyStreams(src, []) <==> SourceContainsStream(src, s)
  {
    assert ComputeDbKeyStreams(src, []) == [src.stream];
  }

  /**
   * The expression-tree leaf of a local table or a relation, whose streams are just
   * its own: these two keep the base `collectStreams`, which adds the node's stream.
   */
  lemma SourceLeafStreams(src: SourceNode, s: int)
    requires src.LocalTableSource? || src.RelationSource?
    ensures ContainsStream(Source(src.stream), s, false) == SourceContainsStream(src, s)
    ensures ContainsStream(Source(src.stream), s, true) == SourceContainsStream(src, s)
  {
  }

  // ---------------------------------------------------------------------------
  // InversionNode

  /** `InversionNode::Type`. */
  datatype InversionType = TypeAnd | TypeOr | TypeIn | TypeDbKey | TypeIndex

  /** An inversion: how an index or a dbkey narrows a retrieval, combined by AND, OR and IN. */
  datatype InversionNode = InversionNode(
    impure: nat, id: nat, kind: InversionType, retrieval: Option<nat>,
    node1: Option<InversionNode>, node2: Option<InversionNode>, value: Expr)

  /** The shape each kind of inversion node has when it is built. */
  predicate WellFormedInversion(n: InversionNode)
    decreases n
  {
    match n.kind
    case TypeIndex => n.retrieval.Some? && n.node1.None? && n.node2.None? && n.value == Null
    case TypeDbKey => n.retrieval.None? && n.node1.None? && n.node2.None? && n.impure == 0
    case _ =>
      n.retrieval.None? && n.node1.Some? && n.node2.Some? && n.value == Null &&
      n.impure == 0 && n.id == 0 &&
      WellFormedInversion(n.node1.value) && WellFormedInversion(n.node2.value)
  }

  /** `InversionNode(type, node1, node2)`: a combination with no impure offset and id 0. */
  function BinaryInversion(kind: InversionType, node1: Option<InversionNode>, node2: Option<InversionNode>): (r: InversionNode)
    ensures r.kind == kind && r.impure == 0 && r.id == 0 && r.retrieval.None? && r.value == Null
    ensures r.node1 == node1 && r.node2 == node2
    ensures (kind in {TypeAnd, TypeOr, TypeIn} && node1.Some? && node2.Some? &&
             WellFormedInversion(node1.value) && WellFormedInversion(node2.value)) ==> WellFormedInversion(r)
  {
    InversionNode(0, 0, kind, None, node1, node2, Null)
  }

  /** `InversionNode(retrieval, impure)`: an index scan, a leaf. */
  function IndexInversion(retrieval: nat, impure: nat): (r: InversionNode)
    ensures r.kind == TypeIndex && r.impure == impure && r.id == 0 && r.retrieval == Some(retrieval)
    ensures r.node1.None? && r.node2.None? && r.value == Null
    ensures WellFormedInversion(r)
  {
    InversionNode(impure, 0, TypeIndex, Some(retrieval), None, None, Null)
  }

  /** `InversionNode(value, id)`: a dbkey lookup of the given value, a leaf. */
  function DbKeyInversion(value: Expr, id: nat): (r: InversionNode)
    ensures r.kind == TypeDbKey && r.impure == 0 && r.id == id && r.value == value
    ensures r.retrieval.None? && r.node1.None? && r.node2.None?
    ensures WellFormedInversion(r)
  {
    InversionNode(0, id, TypeDbKey, None, None, None, value)
  }
}
