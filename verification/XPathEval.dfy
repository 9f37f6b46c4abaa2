/** XPath evaluation as the engine does it: node arrays with order tags, three evaluation modes,
    searches that stop early, and shortcuts for constant predicates. */
module XPathEval {
  import opened Sequences
  import opened SortSpec
  import opened Documents
  import opened Axes
  import opened XPathSyntax
  import opened XPathMeaning
  import Translation

  /** How much of a node set the caller needs. */
  datatype Mode = All | Any | First

  /** May a search in a set with this tag stop at its first hit? */
  predicate EvalOnce(tag: Tag, mode: Mode) {
    if tag == Sorted then mode != All else mode == Any
  }

  // ----- node set operations

  /** Position of the least node, as min_element scans for it. */
  function MinNode(s: seq<XNode>): XNode
    requires s != []
  {
    if |s| == 1 then s[0]
    else
      var m := MinNode(s[..|s| - 1]);
      if Compares(s[|s| - 1], m) then s[|s| - 1] else m
  }

  function FirstNode(ns: NodeSet): XNode {
    if ns.nodes == [] then Null
    else match ns.tag
         case Sorted => ns.nodes[0]
         case SortedReverse => ns.nodes[|ns.nodes| - 1]
         case Unsorted => MinNode(ns.nodes)
  }

  /** The order of an untagged array, if all neighbours agree on one. */
  function GetOrder(s: seq<XNode>): Tag {
    if |s| < 2 then Sorted
    else if forall i :: 0 <= i < |s| - 1 ==> Compares(s[i], s[i + 1]) == Compares(s[0], s[1]) then
      (if Compares(s[0], s[1]) then Sorted else SortedReverse)
    else Unsorted
  }

  function SortDo(ns: NodeSet): NodeSet {
    var order := if ns.tag == Unsorted then GetOrder(ns.nodes) else ns.tag;
    match order
    case Sorted => NodeSet(Sorted, ns.nodes)
    case SortedReverse => NodeSet(Sorted, Reverse(ns.nodes))
    case Unsorted => NodeSet(Sorted, SortBy(ns.nodes, Before))
  }

  function Deduplicate(env: Env, s: seq<XNode>): seq<XNode> {
    Unique(SortBy(s, (a, b) => env.addr(a) < env.addr(b)))
  }

  function AsNodeSet(v: Value): NodeSet {
    if v.Nodes? then v.ns else NodeSet(Unsorted, [])
  }

  /** The scalar view of an evaluated result. */
  function Look(v: Value): Atom {
    match v
    case Scalar(a) => a
    case Nodes(ns) => Node(FirstNode(ns))
  }

  function EvalRoot(x: XNode): NodeSet {
    NodeSet(Sorted, if x == Null then [] else [N(0)])
  }

  /** How the operand of a comparison is needed, given the other operand's type. */
  function OperandMode(other: Type): Mode {
    if other == TBoolean then Any else All
  }

  function AxisTag(axis: Axis): Tag {
    if IsReverse(axis) then SortedReverse else Sorted
  }

  /** May filling stop at the first node? */
  predicate FillOnce(e: Expr, mode: Mode)
    requires e.Step?
  {
    || (e.axis == Attribute && e.nodes.Name?)
    || (e.preds.NoPreds? && EvalOnce(AxisTag(e.axis), mode))
    || (e.preds.Pred? && e.preds.next.NoPreds? && e.preds.test == ConstantOne)
  }

  // ----- evaluation

  function Eval(env: Env, e: Expr, c: Ctx, mode: Mode): Value
    decreases e, 9, 0
  {
    match e
    case Or(l, r) => Scalar(Bool(ToBool(Look(Eval(env, l, c, Any))) || ToBool(Look(Eval(env, r, c, Any)))))
    case And(l, r) => Scalar(Bool(ToBool(Look(Eval(env, l, c, Any))) && ToBool(Look(Eval(env, r, c, Any)))))
    case Equal(l, r) =>
      Scalar(Bool(CompareEq(env, false, Abstract(Eval(env, l, c, OperandMode(TypeOf(r)))),
                                        Abstract(Eval(env, r, c, OperandMode(TypeOf(l)))))))
    case NotEqual(l, r) =>
      Scalar(Bool(CompareEq(env, true, Abstract(Eval(env, l, c, OperandMode(TypeOf(r)))),
                                       Abstract(Eval(env, r, c, OperandMode(TypeOf(l)))))))
    case Relation(rel, l, r) =>
      Scalar(Bool(CompareRelation(env, rel, Abstract(Eval(env, l, c, All)), Abstract(Eval(env, r, c, All)))))
    case Arith(op, l, r) =>
      Scalar(Num(Calculate(env, op, ToNum(env, Look(Eval(env, l, c, First))), ToNum(env, Look(Eval(env, r, c, First))))))
    case Negate(l) =>
      var n := ToNum(env, Look(Eval(env, l, c, First)));
      Scalar(Num(Calculate(env, Negative, n, n)))
    case Union(l, r) =>
      var ls, rs := AsNodeSet(Eval(env, l, c, mode)), AsNodeSet(Eval(env, r, c, mode));
      Nodes(NodeSet(Unsorted, Deduplicate(env, rs.nodes + ls.nodes)))
    case Filter(l, r, test) =>
      var found := AsNodeSet(Eval(env, l, c, if test == ConstantOne then First else All));
      var ns := if test != PosInv then SortDo(found) else found;
      Nodes(NodeSet(ns.tag, ApplyPredicate(env, r, test, ns.nodes, EvalOnce(ns.tag, mode))))
    case StringConst(s) => Scalar(Str(s))
    case NumberConst(n) => Scalar(Num(n))
    case Variable(ty, name) => env.vars(ty, name)
    case Last => Scalar(Num(Fin(c.size as real)))
    case Position => Scalar(Num(Fin(c.pos as real)))
    case Count(l) => Scalar(Num(Fin(|AsNodeSet(Eval(env, l, c, All)).nodes| as real)))
    case Sum(l) => Scalar(Num(SumOf(env, AsNodeSet(Eval(env, l, c, All)).nodes)))
    case Id(_) => Nodes(NodeSet(Unsorted, []))
    case Boolean(l) => Scalar(Bool(ToBool(Look(Eval(env, l, c, Any)))))
    case Not(l) => Scalar(Bool(!ToBool(Look(Eval(env, l, c, Any)))))
    case TrueFn => Scalar(Bool(true))
    case FalseFn => Scalar(Bool(false))
    case ToNumber(l) => Scalar(Num(ToNum(env, Look(Eval(env, l, c, First)))))
    case ToString(l) => Scalar(Str(ToStr(env, Look(Eval(env, l, c, First)))))
    case Translate(l, from, to) =>
      Scalar(Str(Translation.Translate(ToStr(env, Look(Eval(env, l, c, First))),
                                       ToStr(env, Look(Eval(env, from, c, First))),
                                       ToStr(env, Look(Eval(env, to, c, First))))))
    case Library(fn, args) => Scalar(env.lib(fn, c.n, EvalArgs(env, fn, 0, args, c)))
    case Step(left, axis, _, _) =>
      var s := match left case Context => NodeSet(AxisTag(axis), [c.n]) case From(e') => AsNodeSet(Eval(env, e', c, All));
      Nodes(StepDo(env, e, s, mode))
    case Root => Nodes(EvalRoot(c.n))
    case TranslateTable(l, table) =>
      Scalar(Str(Translation.TranslateByTable(ToStr(env, Look(Eval(env, l, c, First))), table)))
    case CompareAttribute(attr, r) =>
      Scalar(Bool(AttributeIs(env.d, c.n, attr, ToStr(env, Look(Eval(env, r, c, First))))))
  }

  function EvalArgs(env: Env, fn: LibFn, i: nat, args: Exprs, c: Ctx): seq<Atom>
    decreases args, 0, 0
  {
    match args
    case NoArgs => []
    case Arg(head, tail) =>
      [Coerce(env, fn, i, Look(Eval(env, head, c, First)))] + EvalArgs(env, fn, i + 1, tail, c)
  }

  function EvalTruths(env: Env, e: Expr, s: seq<XNode>): (keep: seq<bool>)
    ensures |keep| == |s|
    decreases e, 10, 0
  {
    seq(|s|, i requires 0 <= i < |s| =>
      Passes(env, e, Look(Eval(env, e, Ctx(s[i], i + 1, |s|), if TypeOf(e) == TNumber then First else Any)), i + 1))
  }

  /** One node picked by a constant position, if the position is a whole number in range. */
  function PickConstant(s: seq<XNode>, n: Number): seq<XNode> {
    if n.Fin? && 1.0 <= n.r <= |s| as real && n.r == n.r.Floor as real then [s[n.r.Floor - 1]] else []
  }

  function ApplyPredicate(env: Env, e: Expr, test: Test, s: seq<XNode>, once: bool): seq<XNode>
    decreases e, 11, 0
  {
    if s == [] then []
    else if test == Constant || test == ConstantOne then
      PickConstant(s, ToNum(env, Look(Eval(env, e, Ctx(Null, 1, |s|), First))))
    else Stop(Pick(s, EvalTruths(env, e, s)), once)
  }

  function ApplyPredicates(env: Env, ps: Preds, s: seq<XNode>, lastOnce: bool): seq<XNode>
    decreases ps, 0, 0
  {
    match ps
    case NoPreds => s
    case Pred(e, test, next) =>
      ApplyPredicates(env, next, ApplyPredicate(env, e, test, s, next.NoPreds? && lastOnce), lastOnce)
  }

  /** The tag in force while the next input node is processed. */
  function NextTag(axis: Axis, acc: NodeSet): Tag {
    if axis != Self && acc.nodes != [] then Unsorted else acc.tag
  }

  /** The contribution of one input node. */
  function Segment(env: Env, e: Expr, x: XNode, tag: Tag, mode: Mode): seq<XNode>
    requires e.Step?
    decreases e, 4, 0
  {
    ApplyPredicates(env, e.preds, Stop(StepNodes(env.d, e.axis, e.nodes, x), FillOnce(e, mode)), EvalOnce(tag, mode))
  }

  function StepLoop(env: Env, e: Expr, s: seq<XNode>, tag: Tag, mode: Mode): NodeSet
    requires e.Step?
    decreases e, 5, |s|
  {
    if s == [] then NodeSet(tag, [])
    else
      var acc := StepLoop(env, e, s[..|s| - 1], tag, mode);
      var next := NextTag(e.axis, acc);
      NodeSet(next, acc.nodes + Segment(env, e, s[|s| - 1], next, mode))
  }

  function StepDo(env: Env, e: Expr, s: NodeSet, mode: Mode): NodeSet
    requires e.Step?
    decreases e, 6, 0
  {
    if e.axis == Namespace then NodeSet(Unsorted, [])
    else
      var ns := StepLoop(env, e, s.nodes, if e.axis == Self then s.tag else AxisTag(e.axis), mode);
      if e.axis != Child && e.axis != Attribute && e.axis != Self && ns.tag == Unsorted
      then NodeSet(Unsorted, Deduplicate(env, ns.nodes))
      else ns
  }
}
