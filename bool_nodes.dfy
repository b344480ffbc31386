/**
 * The NULL rules and rewriting hooks of the boolean nodes of src/dsql/BoolNodes.h:
 * which predicates are known to reject NULLs of given streams (`ignoreNulls`), which
 * may yield UNKNOWN (`possiblyUnknown`), how `ReplaceExpr` rewrites arguments, and
 * how the sub-query predicate answers the DSQL finders.
 */
module BoolNodes {
  import opened Nodes

  /**
   * The answers of the base `ExprNode` rules, which the nodes below fall back on;
   * they are defined in src/dsql/ExprNodes.cpp, which is not part of this model.
   */
  datatype BaseRules = BaseRules(ignoreNulls: (Expr, seq<int>) -> bool, possiblyUnknown: Expr -> bool)

  /**
   * `ignoreNulls(streams)`: OR ignores NULLs when both arguments do, IS NOT
   * DISTINCT FROM (`blr_equiv`), IS NULL, sub-query predicates, record sources and
   * aggregates (`AggNode`) never do, IN does when its argument does or every list item does, and every
   * other node follows the base rule.
   */
  function IgnoreNulls(e: Expr, streams: seq<int>, base: BaseRules): bool
    decreases e
  {
    match e
    case BinaryBool(op, a1, a2) =>
      if op == BlrOr then IgnoreNulls(a1, streams, base) && IgnoreNulls(a2, streams, base)
      else base.ignoreNulls(e, streams)
    case ComparativeBool(op, _, _, _, _) =>
      if op == BlrEquiv then false else base.ignoreNulls(e, streams)
    case InListBool(arg, list) =>
      IgnoreNulls(arg, streams, base) || AllIgnoreNulls(list, streams, base)
    case MissingBool(_) => false
    case RseBool(_, _, _) => false
    case Source(_) => false
    case Aggregate(_, _) => false
    case _ => base.ignoreNulls(e, streams)
  }

  /** The loop of `InListBoolNode::ignoreNulls` over the list: false at the first item that does not ignore NULLs. */
  function AllIgnoreNulls(items: seq<Expr>, streams: seq<int>, base: BaseRules): (r: bool)
    ensures r <==> forall i :: 0 <= i < |items| ==> IgnoreNulls(items[i], streams, base)
    decreases items
  {
    if items == [] then true
    else
      var rest := AllIgnoreNulls(items[1..], streams, base);
      assert forall i :: 1 <= i < |items| ==> items[i] == items[1..][i - 1];
      IgnoreNulls(items[0], streams, base) && rest
  }

  /**
   * `possiblyUnknown()`: IS NOT DISTINCT FROM, IS NULL, sub-query predicates,
   * record sources and aggregates always may be UNKNOWN or turn NULL into a truth value; every
   * other node follows the base rule.
   */
  function PossiblyUnknown(e: Expr, base: BaseRules): bool {
    match e
    case ComparativeBool(op, _, _, _, _) => if op == BlrEquiv then true else base.possiblyUnknown(e)
    case MissingBool(_) => true
    case RseBool(_, _, _) => true
    case Source(_) => true
    case Aggregate(_, _) => true
    case _ => base.possiblyUnknown(e)
  }

  /**
   * The predicates that turn NULL into a truth value, and the aggregates, are,
   * whatever the base rules say, possibly unknown and never ignore NULLs; an IN over
   * an empty list ignores NULLs.
   */
  lemma NullTransparentPredicates(e: Expr, arg: Expr, streams: seq<int>, base: BaseRules)
    requires e.MissingBool? || e.RseBool? || (e.ComparativeBool? && e.blrOp == BlrEquiv) || e.Aggregate?
    ensures PossiblyUnknown(e, base) && !IgnoreNulls(e, streams, base)
    ensures IgnoreNulls(InListBool(arg, []), streams, base)
  {
  }

  /** `a OR b OR ...`, nested to the right as the parser builds it. */
  function OrChain(args: seq<Expr>): Expr
    requires |args| >= 1
    decreases |args|
  {
    if |args| == 1 then args[0] else BinaryBool(BlrOr, args[0], OrChain(args[1..]))
  }

  /** A chain of ORs ignores NULLs exactly when every one of its operands does. */
  lemma {:induction false} OrChainIgnoresNulls(args: seq<Expr>, streams: seq<int>, base: BaseRules)
    requires |args| >= 1
    ensures IgnoreNulls(OrChain(args), streams, base) <==>
      forall i :: 0 <= i < |args| ==> IgnoreNulls(args[i], streams, base)
    decreases |args|
  {
    if |args| > 1 {
      OrChainIgnoresNulls(args[1..], streams, base);
      assert forall i :: 1 <= i < |args| ==> args[i] == args[1..][i - 1];
    }
  }

  /** `arg = item` for every item of the list. */
  function Equalities(arg: Expr, items: seq<Expr>): (r: seq<Expr>)
    ensures |r| == |items|
    ensures forall i :: 0 <= i < |r| ==> r[i] == ComparativeBool(BlrEql, arg, items[i], Null, Null)
  {
    seq(|items|, i requires 0 <= i < |items| => ComparativeBool(BlrEql, arg, items[i], Null, Null))
  }

  /** The base rule for an equality: it ignores NULLs when either side does. */
  ghost predicate EqualityIgnoresNullsOfEither(base: BaseRules, streams: seq<int>) {
    forall a: Expr, b: Expr :: base.ignoreNulls(ComparativeBool(BlrEql, a, b, Null, Null), streams) ==
      (IgnoreNulls(a, streams, base) || IgnoreNulls(b, streams, base))
  }

  /**
   * `arg IN (l0, l1, ...)` has the NULL rule of `arg = l0 OR arg = l1 OR ...`
   * whenever an equality ignores the NULLs of either side.
   */
  lemma InListAsOrChain(arg: Expr, items: seq<Expr>, streams: seq<int>, base: BaseRules)
    requires |items| >= 1 && EqualityIgnoresNullsOfEither(base, streams)
    ensures IgnoreNulls(InListBool(arg, items), streams, base) ==
      IgnoreNulls(OrChain(Equalities(arg, items)), streams, base)
  {
    var eqs := Equalities(arg, items);
    OrChainIgnoresNulls(eqs, streams, base);
    forall i | 0 <= i < |eqs|
      ensures IgnoreNulls(eqs[i], streams, base) ==
        (IgnoreNulls(arg, streams, base) || IgnoreNulls(items[i], streams, base))
    {
      assert eqs[i] == ComparativeBool(BlrEql, arg, items[i], Null, Null);
    }
  }

  /** `findAndReplaceExpr` applied to a child that is present; an absent one stays absent. */
  function Rewrite(x: Expr, find: Expr -> Expr): Expr {
    if x == Null then Null else find(x)
  }

  /**
   * `ReplaceExpr`: a comparison rewrites its three value arguments and IS NULL its
   * argument; AND/OR, NOT and sub-query predicates leave themselves as they are.
   */
  function ReplaceExpr(e: Expr, find: Expr -> Expr): (r: Expr)
    requires e.BinaryBool? || e.ComparativeBool? || e.MissingBool? || e.NotBool? || e.RseBool?
    ensures r.ComparativeBool? == e.ComparativeBool? && r.MissingBool? == e.MissingBool?
    ensures !e.ComparativeBool? && !e.MissingBool? ==> r == e
  {
    match e
    case ComparativeBool(op, a1, a2, a3, sp) =>
      ComparativeBool(op, Rewrite(a1, find), Rewrite(a2, find), Rewrite(a3, find), sp)
    case MissingBool(arg) => MissingBool(Rewrite(arg, find))
    case _ => e
  }

  /**
   * After `ReplaceExpr` each value child of a comparison or IS NULL is the rewrite
   * of the child in the same place, so absent children stay absent; the operator
   * and the list or select expression of a comparison are untouched.
   */
  lemma ReplaceRewritesChildren(e: Expr, find: Expr -> Expr, dsql: bool)
    requires e.ComparativeBool? || e.MissingBool?
    ensures var before, after := Children(e, dsql), Children(ReplaceExpr(e, find), dsql);
      |after| == |before| &&
      (forall i :: 0 <= i < |before| && (e.MissingBool? || i < 3) ==> after[i] == Rewrite(before[i], find)) &&
      (forall i :: 0 <= i < |before| && before[i] == Null ==> after[i] == Null)
    ensures e.ComparativeBool? ==>
      ReplaceExpr(e, find).blrOp == e.blrOp && ReplaceExpr(e, find).dsqlSpecialArg == e.dsqlSpecialArg
  {
  }

  /** A rewrite that maps every present argument to itself leaves the node unchanged. */
  lemma ReplaceIdentity(e: Expr, find: Expr -> Expr)
    requires e.BinaryBool? || e.ComparativeBool? || e.MissingBool? || e.NotBool? || e.RseBool?
    requires forall i :: 0 <= i < |Children(e, true)| && Children(e, true)[i] != Null ==>
      find(Children(e, true)[i]) == Children(e, true)[i]
    ensures ReplaceExpr(e, find) == e
  {
    if e.ComparativeBool? {
      var ch := Children(e, true);
      assert ch[0] == e.arg1 && ch[1] == e.arg2 && ch[2] == e.arg3;
    } else if e.MissingBool? {
      assert Children(e, true)[0] == e.arg;
    }
  }

  /**
   * `dsqlAggregateFinder`: a sub-query predicate answers false without visiting
   * anything when the visitor ignores sub-selects; otherwise, and for every other
   * boolean node, all DSQL children are visited and their answers or-ed.
   */
  method DsqlAggregateFinder(e: Expr, ignoreSubSelects: bool, visit: Expr -> bool)
    returns (ret: bool, visited: seq<Expr>)
    ensures e.RseBool? && ignoreSubSelects ==> !ret && visited == []
    ensures !(e.RseBool? && ignoreSubSelects) ==>
      visited == Children(e, true) && (ret <==> exists i :: 0 <= i < |visited| && visit(visited[i]))
  {
    if e.RseBool? && ignoreSubSelects {
      return false, [];
    }
    ret, visited := VisitChildren(e, visit);
  }

  /**
   * `dsqlSubSelectFinder`: a sub-query predicate is a sub-select and answers true
   * without visiting anything; the other boolean nodes visit their DSQL children.
   */
  method DsqlSubSelectFinder(e: Expr, visit: Expr -> bool) returns (ret: bool, visited: seq<Expr>)
    ensures e.RseBool? ==> ret && visited == []
    ensures !e.RseBool? ==>
      visited == Children(e, true) && (ret <==> exists i :: 0 <= i < |visited| && visit(visited[i]))
  {
    if e.RseBool? {
      return true, [];
    }
    ret, visited := VisitChildren(e, visit);
  }
}
