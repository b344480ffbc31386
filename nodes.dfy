/**
 * The expression-tree helpers of src/dsql/Nodes.h: type-checked downcasts, the
 * stream bookkeeping every expression offers, the child enumeration its visitors
 * are built on, the value-list container and the stream map of the sub-expression
 * copier.
 *
 * A node is a value of `Expr`; an absent child (a null `NestConst`) is `Null`.
 * The boolean nodes of src/dsql/BoolNodes.h are constructors of their own; every
 * record source is a `Source` leaf carrying its stream, an aggregate function
 * (`AggNode`) is an `Aggregate` carrying its type tag and its argument, and every
 * other value expression is a `Value` carrying its type tag, the streams it refers
 * to itself and its children.
 */
module Nodes {

  /** `MAX_STREAMS`. */
  const MaxStreams: int := 4096
  /** `STREAM_MAP_LENGTH`: two slots beyond the largest stream number. */
  const StreamMapLength: int := MaxStreams + 2
  /** `INVALID_STREAM`, the all-ones stream number; no valid stream has it. */
  const InvalidStream: int := -1

  /** The BLR operators the boolean nodes distinguish. */
  datatype BlrOp = BlrAnd | BlrOr | BlrEql | BlrEquiv | BlrOtherOp(code: nat)

  datatype Expr =
    | Null
    | BinaryBool(blrOp: BlrOp, arg1: Expr, arg2: Expr)
    | ComparativeBool(blrOp: BlrOp, arg1: Expr, arg2: Expr, arg3: Expr, dsqlSpecialArg: Expr)
    | InListBool(arg: Expr, list: seq<Expr>)
    | MissingBool(arg: Expr)
    | NotBool(arg: Expr)
    | RseBool(blrOp: BlrOp, dsqlRse: Expr, rse: Expr)
    | ValueList(items: seq<Expr>)
    | Source(stream: int)
    | Value(tag: nat, ownStreams: seq<int>, args: seq<Expr>)
    | Aggregate(tag: nat, arg: Expr)

  /** The `ExprNode::Type` tags of the modelled nodes. */
  datatype NodeType =
    | TypeBinaryBool | TypeComparativeBool | TypeInListBool | TypeMissingBool | TypeNotBool
    | TypeRseBool | TypeValueList | TypeRecordSource | TypeAggregate | TypeOther(tag: nat)

  /** `getType()` of a node. */
  function TypeOf(e: Expr): NodeType
    requires e != Null
  {
    match e
    case BinaryBool(_, _, _) => TypeBinaryBool
    case ComparativeBool(_, _, _, _, _) => TypeComparativeBool
    case InListBool(_, _) => TypeInListBool
    case MissingBool(_) => TypeMissingBool
    case NotBool(_) => TypeNotBool
    case RseBool(_, _, _) => TypeRseBool
    case ValueList(_) => TypeValueList
    case Source(_) => TypeRecordSource
    case Value(tag, _, _) => TypeOther(tag)
    case Aggregate(_, _) => TypeAggregate
  }

  /** `nodeAs<To>`: the same node when it is present and of type `t`, null otherwise. */
  function NodeAs(node: Expr, t: NodeType): (r: Expr)
    ensures r == node || r == Null
    ensures r != Null <==> node != Null && TypeOf(node) == t
  {
    if node != Null && TypeOf(node) == t then node else Null
  }

  /** `nodeIs<To>`: whether the node is present and of type `t`. */
  predicate NodeIs(node: Expr, t: NodeType)
    ensures NodeIs(node, t) <==> NodeAs(node, t) != Null
  {
    node != Null && TypeOf(node) == t
  }

  /**
   * A cast that succeeded can be repeated with the same result, and a cast of its
   * result to any other type fails.
   */
  lemma NodeAsStable(node: Expr, t: NodeType, u: NodeType)
    ensures NodeAs(NodeAs(node, t), t) == NodeAs(node, t)
    ensures u != t ==> NodeAs(NodeAs(node, t), u) == Null
  {
  }

  /**
   * `DdlNode::createAlterCode`: the error code for a statement that creates,
   * alters, or creates or alters an object; 0 when neither flag is set.
   */
  function CreateAlterCode(create: bool, alter: bool, createCode: int, alterCode: int,
                           createOrAlterCode: int): (r: int)
    ensures create && alter ==> r == createOrAlterCode
    ensures create && !alter ==> r == createCode
    ensures !create && alter ==> r == alterCode
    ensures !create && !alter ==> r == 0
  {
    if create && alter then createOrAlterCode
    else if create then createCode
    else if alter then alterCode
    else 0
  }

  // ---------------------------------------------------------------------------
  // Child enumeration

  /** The number of nodes in a tree, null children included; it bounds every walk over it. */
  function Size(e: Expr): (n: nat)
    ensures n >= 1
    decreases e
  {
    match e
    case Null => 1
    case BinaryBool(_, a1, a2) => 1 + Size(a1) + Size(a2)
    case ComparativeBool(_, a1, a2, a3, sp) => 1 + Size(a1) + Size(a2) + Size(a3) + Size(sp)
    case InListBool(arg, list) => 2 + Size(arg) + SumSizes(list)
    case MissingBool(arg) => 1 + Size(arg)
    case NotBool(arg) => 1 + Size(arg)
    case RseBool(_, d, r) => 1 + Size(d) + Size(r)
    case ValueList(items) => 1 + SumSizes(items)
    case Source(_) => 1
    case Value(_, _, args) => 1 + SumSizes(args)
    case Aggregate(_, arg) => 1 + Size(arg)
  }

  function SumSizes(es: seq<Expr>): nat
    decreases es
  {
    if es == [] then 0 else Size(es[0]) + SumSizes(es[1..])
  }

  lemma {:induction false} SumSizesAppend(a: seq<Expr>, b: seq<Expr>)
    ensures SumSizes(a + b) == SumSizes(a) + SumSizes(b)
    decreases |a|
  {
    if a != [] {
      assert (a + b)[0] == a[0];
      assert (a + b)[1..] == a[1..] + b;
      SumSizesAppend(a[1..], b);
      assert SumSizes(a + b) == Size(a[0]) + SumSizes(a[1..] + b);
    } else {
      assert a + b == b;
    }
  }

  lemma SumSizesCons(x: Expr, rest: seq<Expr>)
    ensures SumSizes([x] + rest) == Size(x) + SumSizes(rest)
  {
    assert ([x] + rest)[1..] == rest;
  }

  lemma SumSizesPair(x: Expr, y: Expr)
    ensures SumSizes([x, y]) == Size(x) + Size(y)
  {
    SumSizesCons(y, []);
    assert [x, y] == [x] + [y];
    SumSizesCons(x, [y]);
  }

  /**
   * `getChildren(holder, dsql)`: the child references a node adds to the holder,
   * in order. The boolean nodes list their arguments in declaration order, the IN
   * predicate its argument and then its list, and `RseBoolNode` its DSQL or its
   * compiled sub-query depending on `dsql`; a value list lists its items. Each
   * child is smaller than the node, so walks over children end.
   */
  function Children(e: Expr, dsql: bool): (r: seq<Expr>)
    ensures SumSizes(r) < Size(e)
  {
    match e
    case Null => []
    case BinaryBool(_, a1, a2) =>
      SumSizesPair(a1, a2);
      [a1, a2]
    case ComparativeBool(_, a1, a2, a3, sp) =>
      SumSizesPair(a3, sp);
      assert [a1, a2, a3, sp] == [a1] + ([a2] + [a3, sp]);
      SumSizesCons(a2, [a3, sp]);
      SumSizesCons(a1, [a2] + [a3, sp]);
      [a1, a2, a3, sp]
    case InListBool(arg, list) =>
      SumSizesPair(arg, ValueList(list));
      [arg, ValueList(list)]
    case MissingBool(arg) =>
      SumSizesCons(arg, []);
      [arg]
    case NotBool(arg) =>
      SumSizesCons(arg, []);
      [arg]
    case RseBool(_, d, r) =>
      SumSizesCons(d, []);
      SumSizesCons(r, []);
      if dsql then [d] else [r]
    case ValueList(items) => items
    case Source(_) => []
    case Value(_, _, args) => args
    case Aggregate(_, arg) =>
      SumSizesCons(arg, []);
      [arg]
  }

  /** The non-null nodes reachable from `refs` by repeated `getChildren`, each counted once per occurrence. */
  function Reach(refs: seq<Expr>, dsql: bool): nat
    decreases SumSizes(refs)
  {
    if refs == [] then 0
    else (if refs[0] == Null then 0 else 1 + Reach(Children(refs[0], dsql), dsql)) + Reach(refs[1..], dsql)
  }

  /** The non-null nodes strictly below `e`. */
  function Descendants(e: Expr, dsql: bool): nat {
    Reach(Children(e, dsql), dsql)
  }

  lemma {:induction false} ReachAppend(a: seq<Expr>, b: seq<Expr>, dsql: bool)
    ensures Reach(a + b, dsql) == Reach(a, dsql) + Reach(b, dsql)
    decreases |a|
  {
    if a != [] {
      assert (a + b)[0] == a[0];
      assert (a + b)[1..] == a[1..] + b;
      ReachAppend(a[1..], b, dsql);
      var head := if a[0] == Null then 0 else 1 + Reach(Children(a[0], dsql), dsql);
      assert Reach(a + b, dsql) == head + Reach(a[1..] + b, dsql);
    } else {
      assert a + b == b;
    }
  }

  /**
   * `expressionLength`: the holder starts with the node's children and, while it
   * is walked, every non-null entry appends its own children; the result is the
   * number of entries minus the null ones, which is the number of non-null nodes
   * below the node.
   */
  method ExpressionLength(root: Expr, dsql: bool) returns (r: int)
    ensures r == Descendants(root, dsql)
  {
    var refs := Children(root, dsql);
    var empty := 0;
    var i := 0;
    while i < |refs|
      invariant 0 <= empty <= i <= |refs|
      invariant (i - empty) + Reach(refs[i..], dsql) == Descendants(root, dsql)
      decreases SumSizes(refs[i..])
    {
      var node := refs[i];
      var rest := refs[i + 1..];
      assert refs[i..] == [node] + rest;
      assert ([node] + rest)[1..] == rest;
      if node != Null {
        var added := Children(node, dsql);
        assert (refs + added)[i + 1..] == rest + added;
        ReachAppend(rest, added, dsql);
        SumSizesAppend(rest, added);
        refs := refs + added;
      } else {
        empty := empty + 1;
      }
      i := i + 1;
    }
    r := |refs| - empty;
  }

  /**
   * The loop behind the `dsql...Finder` visitors of `ExprNode`: every DSQL child
   * is visited, in order, even after one has answered true, and the answers are
   * or-ed together.
   */
  method VisitChildren(e: Expr, visit: Expr -> bool) returns (ret: bool, visited: seq<Expr>)
    ensures visited == Children(e, true)
    ensures ret <==> exists i :: 0 <= i < |visited| && visit(visited[i])
  {
    var refs := Children(e, true);
    ret := false;
    visited := [];
    for i := 0 to |refs|
      invariant visited == refs[..i]
      invariant ret <==> exists j :: 0 <= j < i && visit(refs[j])
    {
      ret := visit(refs[i]) || ret;
      visited := visited + [refs[i]];
    }
    assert refs[..|refs|] == refs;
  }

  // ---------------------------------------------------------------------------
  // Streams

  /** A `SortedStreamList`: strictly ascending, so without duplicates. */
  predicate SortedUnique(l: seq<int>) {
    forall i, j :: 0 <= i < j < |l| ==> l[i] < l[j]
  }

  /** `if (!streamList.exist(s)) streamList.add(s)`: the stream goes in at its sorted place unless it is already there. */
  function Insert(l: seq<int>, s: int): (r: seq<int>)
    requires SortedUnique(l)
    ensures SortedUnique(r)
    ensures forall x :: x in r <==> x in l || x == s
    ensures s in l ==> r == l
    decreases |l|
  {
    if l == [] then [s]
    else if l[0] == s then l
    else if s < l[0] then [s] + l
    else
      var tail := Insert(l[1..], s);
      assert forall x :: x in l <==> x == l[0] || x in l[1..];
      assert forall k :: 0 <= k < |tail| ==> l[0] < tail[k] by {
        forall k | 0 <= k < |tail|
          ensures l[0] < tail[k]
        {
          assert tail[k] in tail;
        }
      }
      [l[0]] + tail
  }

  function InsertAll(l: seq<int>, ss: seq<int>): (r: seq<int>)
    requires SortedUnique(l)
    ensures SortedUnique(r)
    ensures forall x :: x in r <==> x in l || x in ss
    decreases |ss|
  {
    if ss == [] then l
    else
      assert forall x :: x in ss <==> x == ss[0] || x in ss[1..];
      InsertAll(Insert(l, ss[0]), ss[1..])
  }

  /**
   * The streams a node refers to: a record source its own stream (the base rule
   * of `RecordSourceNode`, which the procedure, window and RSE sources override),
   * an aggregate none (`AggNode::collectStreams` does not visit its argument), any
   * other value expression the streams it names itself and those of its children,
   * and every other node those of its children.
   */
  function StreamsOf(e: Expr): set<int>
    decreases Size(e), 1
  {
    match e
    case Null => {}
    case Source(s) => {s}
    case Value(_, own, _) => (set x | x in own) + StreamsOfAll(Children(e, false))
    case Aggregate(_, _) => {}
    case _ => StreamsOfAll(Children(e, false))
  }

  function StreamsOfAll(es: seq<Expr>): set<int>
    decreases SumSizes(es), 2
  {
    if es == [] then {} else StreamsOf(es[0]) + StreamsOfAll(es[1..])
  }

  /**
   * `collectStreams(streamList)`: a record source adds its stream when it is not
   * there yet (the base `RecordSourceNode::collectStreams`), an aggregate adds
   * nothing, and every other node passes the list to its children. The list stays sorted without duplicates and gains
   * exactly the node's streams.
   */
  function CollectStreams(e: Expr, l: seq<int>): (r: seq<int>)
    requires SortedUnique(l)
    ensures SortedUnique(r)
    ensures forall x :: x in r <==> x in l || x in StreamsOf(e)
    decreases Size(e), 1
  {
    match e
    case Null => l
    case Source(s) => Insert(l, s)
    case Value(_, own, _) => CollectAll(Children(e, false), InsertAll(l, own))
    case Aggregate(_, _) => l
    case _ => CollectAll(Children(e, false), l)
  }

  function CollectAll(es: seq<Expr>, l: seq<int>): (r: seq<int>)
    requires SortedUnique(l)
    ensures SortedUnique(r)
    ensures forall x :: x in r <==> x in l || x in StreamsOfAll(es)
    decreases SumSizes(es), 2
  {
    if es == [] then l else CollectAll(es[1..], CollectStreams(es[0], l))
  }

  lemma FirstTwoAscend(l: seq<int>)
    requires SortedUnique(l) && |l| > 1
    ensures l[0] < l[1]
  {
  }

  lemma SingleStream(l: seq<int>, s: int)
    requires SortedUnique(l)
    ensures (|l| == 1 && l[0] == s) <==> (forall x :: x in l <==> x == s)
  {
    if |l| == 1 && l[0] == s {
      assert l == [s];
    }
    if forall x :: x in l <==> x == s {
      assert s in l;
      forall i | 0 <= i < |l|
        ensures l[i] == s
      {
        assert l[i] in l;
      }
      if |l| > 1 {
        FirstTwoAscend(l);
        assert false;
      }
    }
  }

  /**
   * `containsStream(s, only)`: with `only`, whether `s` is the one and only stream
   * the node refers to; otherwise whether it is one of them.
   */
  function ContainsStream(e: Expr, s: int, only: bool): (r: bool)
    ensures only ==> (r <==> StreamsOf(e) == {s})
    ensures !only ==> (r <==> s in StreamsOf(e))
  {
    var l := CollectStreams(e, []);
    SingleStream(l, s);
    if only then |l| == 1 && l[0] == s else s in l
  }

  /** The loop of `containsAnyStream` over the listed streams, against the collected ones. */
  function AnyListed(streams: seq<int>, collected: seq<int>): (r: bool)
    ensures r <==> exists i :: 0 <= i < |streams| && streams[i] in collected
    decreases |streams|
  {
    if streams == [] then false
    else if streams[0] in collected then true
    else
      var r := AnyListed(streams[1..], collected);
      assert forall i :: 1 <= i < |streams| ==> streams[i] == streams[1..][i - 1];
      r
  }

  /** `containsAnyStream`: whether the node refers to some listed stream; never for an empty list. */
  function ContainsAnyStream(e: Expr, streams: seq<int>): (r: bool)
    ensures r <==> exists i :: 0 <= i < |streams| && streams[i] in StreamsOf(e)
    ensures streams == [] ==> !r
  {
    AnyListed(streams, CollectStreams(e, []))
  }

  /**
   * An aggregate leaves the stream list as it is and so contains no stream, not
   * even one its argument refers to, while the same argument under any other value
   * expression contributes its streams.
   */
  lemma AggregateHidesStreams(tag: nat, arg: Expr, l: seq<int>, s: int, streams: seq<int>)
    requires SortedUnique(l)
    ensures CollectStreams(Aggregate(tag, arg), l) == l
    ensures !ContainsStream(Aggregate(tag, arg), s, false)
    ensures !ContainsAnyStream(Aggregate(tag, arg), streams)
    ensures ContainsStream(Value(tag, [], [Source(s)]), s, true)
  {
    assert StreamsOf(Source(s)) == {s};
    assert StreamsOfAll([Source(s)]) == {s};
  }

  // ---------------------------------------------------------------------------
  // ValueListNode

  /** `ValueListNode::GroupKind`. */
  datatype GroupKind = GroupSimpleOrNone | GroupRollup | GroupCube | GroupGroupingSets

  /** The value-list container: its `items`, and the `groupItems` that only `addToGroup` touches. */
  class ValueListNode {
    var items: seq<Expr>
    var groupItems: seq<ValueListNode>
    var kind: GroupKind

    /** The node as an expression, as `getChildren` and the visitors see it. */
    function AsExpr(): (e: Expr)
      reads this
      ensures Children(e, true) == items && Children(e, false) == items
    {
      ValueList(items)
    }

    /** `ValueListNode(pool, count)`: `count` null items. */
    constructor WithCount(count: nat)
      ensures |items| == count && forall i :: 0 <= i < count ==> items[i] == Null
      ensures groupItems == [] && kind == GroupSimpleOrNone
    {
      var nulls := [];
      for i := 0 to count
        invariant |nulls| == i && forall j :: 0 <= j < i ==> nulls[j] == Null
      {
        nulls := nulls + [Null];
      }
      items := nulls;
      groupItems := [];
      kind := GroupSimpleOrNone;
    }

    /** `ValueListNode(pool, arg1)`: the single item `arg1`. */
    constructor Single(arg1: Expr)
      ensures items == [arg1] && groupItems == [] && kind == GroupSimpleOrNone
    {
      items := [arg1];
      groupItems := [];
      kind := GroupSimpleOrNone;
    }

    /** `ValueListNode(pool)`: no items. */
    constructor Empty()
      ensures items == [] && groupItems == [] && kind == GroupSimpleOrNone
    {
      items := [];
      groupItems := [];
      kind := GroupSimpleOrNone;
    }

    /** `add`: appends one item. */
    method Add(arg: Expr) returns (self: ValueListNode)
      modifies this
      ensures self == this && items == old(items) + [arg]
      ensures groupItems == old(groupItems) && kind == old(kind)
    {
      items := items + [arg];
      self := this;
    }

    /** `addList`: appends the other list's items, in their order. */
    method AddList(other: ValueListNode) returns (self: ValueListNode)
      requires other != this
      modifies this
      ensures self == this && items == old(items) + other.items
      ensures groupItems == old(groupItems) && kind == old(kind)
    {
      for i := 0 to |other.items|
        invariant items == old(items) + other.items[..i]
        invariant groupItems == old(groupItems) && kind == old(kind)
      {
        items := items + [other.items[i]];
        assert other.items[..i + 1] == other.items[..i] + [other.items[i]];
      }
      assert other.items[..|other.items|] == other.items;
      self := this;
    }

    /** `addToGroup`: appends a list to the grouping items; `items` is untouched. */
    method AddToGroup(arg: ValueListNode) returns (self: ValueListNode)
      modifies this
      ensures self == this && groupItems == old(groupItems) + [arg]
      ensures items == old(items) && kind == old(kind)
    {
      groupItems := groupItems + [arg];
      self := this;
    }

    /** `addFront`: inserts one item at index 0, shifting the others up by one. */
    method AddFront(arg: Expr) returns (self: ValueListNode)
      modifies this
      ensures self == this && items == [arg] + old(items)
      ensures |items| == |old(items)| + 1 && items[0] == arg
      ensures forall i :: 0 <= i < |old(items)| ==> items[i + 1] == old(items)[i]
      ensures groupItems == old(groupItems) && kind == old(kind)
    {
      items := [arg] + items;
      self := this;
    }

    /** `clear`: no items are left; the grouping items stay. */
    method Clear()
      modifies this
      ensures items == [] && groupItems == old(groupItems) && kind == old(kind)
    {
      items := [];
    }

    /**
     * `ReplaceExpr`: every non-null item is replaced by what `findAndReplaceExpr`
     * returns for it; null items stay null.
     */
    method ReplaceExpr(find: Expr -> Expr)
      modifies this
      ensures |items| == |old(items)|
      ensures forall i :: 0 <= i < |items| ==>
        items[i] == if old(items)[i] == Null then Null else find(old(items)[i])
      ensures groupItems == old(groupItems) && kind == old(kind)
    {
      var i := 0;
      while i < |items|
        invariant 0 <= i <= |items| == |old(items)|
        invariant forall j :: 0 <= j < i ==>
          items[j] == if old(items)[j] == Null then Null else find(old(items)[j])
        invariant forall j :: i <= j < |items| ==> items[j] == old(items)[j]
        invariant groupItems == old(groupItems) && kind == old(kind)
      {
        if items[i] != Null {
          items := items[i := find(items[i])];
        }
        i := i + 1;
      }
    }
  }

  /** The stream map a `SubExprNodeCopier` starts with. */
  class SubExprNodeCopier {
    const remap: array<int>

    /** Every stream initially maps to itself. */
    constructor ()
      ensures fresh(remap) && remap.Length == StreamMapLength
      ensures forall i :: 0 <= i < remap.Length ==> remap[i] == i
    {
      var map_ := new int[StreamMapLength];
      for i := 0 to StreamMapLength
        invariant forall j :: 0 <= j < i ==> map_[j] == j
      {
        map_[i] := i;
      }
      remap := map_;
    }
  }
}
