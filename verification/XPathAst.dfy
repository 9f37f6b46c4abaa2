/** The linked syntax tree the query parser builds, and its rewriting in place. */
module XPathAst {
  import opened Axes
  import opened XPathSyntax
  import Translation

  datatype Kind =
    | KOr | KAnd | KEqual | KNotEqual | KRelation(rel: RelOp) | KArith(op: ArithOp) | KNegate | KUnion
    | KPredicate | KFilter | KString | KNumber | KVariable | KLast | KPosition | KCount | KSum | KId
    | KBoolean | KNot | KTrue | KFalse | KToNumber | KToString | KTranslate | KLibrary(fn: LibFn)
    | KStep | KRoot | KTable | KCompareAttribute

  datatype Data = NoData | Str(s: Translation.Text) | Num(n: Number) | Var(name: string) | Table(table: seq<nat>)

  /** The shape of the linked tree; id names the object at each place. */
  datatype Ast<I> =
    | Nil
    | Node(id: I, kind: Kind, ty: Type, axis: Axis, nodes: NodeTest, test: Test, data: Data,
           left: Ast<I>, right: Ast<I>, next: Ast<I>)

  predicate Leaf<I>(a: Ast<I>) {
    a.Node? && a.left.Nil? && a.right.Nil?
  }

  predicate Sole<I>(a: Ast<I>) {
    a.Node? && a.next.Nil?
  }

  /** The left operand heads no list. */
  predicate SoleLeft<I>(a: Ast<I>)
    requires a.Node?
  {
    a.left.Nil? || a.left.next.Nil?
  }

  // ----- what a linked tree stands for

  /** The linked tree a stands for e: operands left and right, further arguments and predicates along next. */
  predicate Encodes<I>(a: Ast<I>, e: Expr)
    decreases e, 1
  {
    a.Node? && a.kind == KindOf(e) && a.ty == TypeOf(e) && SoleLeft(a) && Fits(a, e)
  }

  function KindOf(e: Expr): Kind {
    match e
    case Or(_, _) => KOr
    case And(_, _) => KAnd
    case Equal(_, _) => KEqual
    case NotEqual(_, _) => KNotEqual
    case Relation(rel, _, _) => KRelation(rel)
    case Arith(op, _, _) => KArith(op)
    case Union(_, _) => KUnion
    case Filter(_, _, _) => KFilter
    case Negate(_) => KNegate
    case Count(_) => KCount
    case Sum(_) => KSum
    case Id(_) => KId
    case Boolean(_) => KBoolean
    case Not(_) => KNot
    case ToNumber(_) => KToNumber
    case ToString(_) => KToString
    case StringConst(_) => KString
    case NumberConst(_) => KNumber
    case Variable(_, _) => KVariable
    case Last => KLast
    case Position => KPosition
    case TrueFn => KTrue
    case FalseFn => KFalse
    case Root => KRoot
    case Translate(_, _, _) => KTranslate
    case Library(fn, _) => KLibrary(fn)
    case Step(_, _, _, _) => KStep
    case TranslateTable(_, _) => KTable
    case CompareAttribute(_, _) => KCompareAttribute
  }

  predicate Fits<I>(a: Ast<I>, e: Expr)
    requires a.Node?
    decreases e, 0
  {
    match e
    case Or(l, r) => Encodes(a.left, l) && Encodes(a.right, r) && Sole(a.right)
    case And(l, r) => Encodes(a.left, l) && Encodes(a.right, r) && Sole(a.right)
    case Equal(l, r) => Encodes(a.left, l) && Encodes(a.right, r) && Sole(a.right)
    case NotEqual(l, r) => Encodes(a.left, l) && Encodes(a.right, r) && Sole(a.right)
    case Relation(_, l, r) => Encodes(a.left, l) && Encodes(a.right, r) && Sole(a.right)
    case Arith(_, l, r) => Encodes(a.left, l) && Encodes(a.right, r) && Sole(a.right)
    case Union(l, r) => Encodes(a.left, l) && Encodes(a.right, r) && Sole(a.right)
    case Filter(l, r, test) =>
      a.test == test && Encodes(a.left, l) && Encodes(a.right, r) && Sole(a.right)
    case Negate(l) => Encodes(a.left, l) && a.right.Nil?
    case Count(l) => Encodes(a.left, l) && a.right.Nil?
    case Sum(l) => Encodes(a.left, l) && a.right.Nil?
    case Id(l) => Encodes(a.left, l) && a.right.Nil?
    case Boolean(l) => Encodes(a.left, l) && a.right.Nil?
    case Not(l) => Encodes(a.left, l) && a.right.Nil?
    case ToNumber(l) => Encodes(a.left, l) && a.right.Nil?
    case ToString(l) => Encodes(a.left, l) && a.right.Nil?
    case StringConst(s) => a.data == Str(s) && Leaf(a)
    case NumberConst(n) => a.data == Num(n) && Leaf(a)
    case Variable(_, name) => a.data == Var(name) && Leaf(a)
    case Last => Leaf(a)
    case Position => Leaf(a)
    case TrueFn => Leaf(a)
    case FalseFn => Leaf(a)
    case Root => Leaf(a)
    case Translate(l, from, to) =>
      Encodes(a.left, l) && Encodes(a.right, from) && Encodes(a.right.next, to) && Sole(a.right.next)
    case Library(_, args) =>
      match args {
           case NoArgs => Leaf(a)
           case Arg(head, tail) => Encodes(a.left, head) && EncodesArgs(a.right, tail)
         }
    case Step(left, axis, nodes, preds) =>
      && a.axis == axis && a.nodes == nodes && EncodesPreds(a.right, preds)
      && match left {
           case Context => a.left.Nil?
           case From(l) => Encodes(a.left, l)
         }
    case TranslateTable(l, table) =>
      && a.data == Table(table) && Encodes(a.left, l)
      // the two literals stay behind, unused
      && Leaf(a.right) && a.right.kind == KString && Leaf(a.right.next) && a.right.next.kind == KString && Sole(a.right.next)
    case CompareAttribute(attr, r) =>
      && Encodes(a.right, r) && Sole(a.right)
      && Leaf(a.left) && a.left.kind == KStep && a.left.axis == Attribute && a.left.nodes == Name(attr)
  }

  predicate EncodesArgs<I>(a: Ast<I>, args: Exprs)
    decreases args, 1
  {
    match args
    case NoArgs => a.Nil?
    case Arg(head, tail) => Encodes(a, head) && EncodesArgs(a.next, tail)
  }

  predicate EncodesPreds<I>(a: Ast<I>, ps: Preds)
    decreases ps, 1
  {
    match ps
    case NoPreds => a.Nil?
    case Pred(e, test, next) =>
      a.Node? && a.kind == KPredicate && a.test == test && a.left.Nil? && Encodes(a.right, e) && Sole(a.right)
      && EncodesPreds(a.next, next)
  }

  // ----- position independence, as computed on the linked tree

  predicate Counts(kind: Kind) {
    kind == KPosition || kind == KLast
  }

  predicate Independent(kind: Kind) {
    || kind == KString || kind == KNumber || kind == KVariable
    || kind == KStep || kind == KRoot || kind == KPredicate || kind == KFilter
  }

  predicate IsPosInvExpr<I>(a: Ast<I>)
    requires a.Node?
    decreases a, 0
  {
    if Counts(a.kind) then false
    else if Independent(a.kind) then true
    else (a.left.Node? ==> IsPosInvExpr(a.left)) && ChainPosInv(a.right)
  }

  predicate ChainPosInv<I>(a: Ast<I>)
    decreases a, 1
  {
    a.Node? ==> IsPosInvExpr(a) && ChainPosInv(a.next)
  }

  predicate IsPosInvStep<I>(a: Ast<I>) {
    a.Node? ==> a.test == PosInv && IsPosInvStep(a.next)
  }

  // ----- the rewriting, one guarded change at a time

  predicate TestsPosition<I>(a: Ast<I>)
    requires a.Node?
  {
    && (a.kind == KFilter || a.kind == KPredicate) && a.right.Node? && a.right.kind == KEqual
    && a.right.left.Node? && a.right.left.kind == KPosition && a.right.right.Node? && a.right.right.ty == TNumber
  }

  function RewritePosition<I>(a: Ast<I>): Ast<I>
    requires a.Node?
  {
    if TestsPosition(a) then a.(right := a.right.right) else a
  }

  function ClassifyTest<I>(a: Ast<I>): Ast<I>
    requires a.Node?
  {
    if (a.kind == KFilter || a.kind == KPredicate) && a.right.Node? then
      if a.right.kind == KNumber && a.right.data == Num(Fin(1.0)) then a.(test := ConstantOne)
      else if a.right.ty == TNumber && (a.right.kind == KNumber || a.right.kind == KVariable || a.right.kind == KLast)
      then a.(test := Constant)
      else if a.right.ty != TNumber && IsPosInvExpr(a.right) then a.(test := PosInv)
      else a
    else a
  }

  predicate Fusible(axis: Axis) {
    axis == Child || axis == Self || axis == Descendant || axis == DescendantOrSelf
  }

  predicate Fuses<I>(a: Ast<I>)
    requires a.Node?
  {
    && a.kind == KStep && Fusible(a.axis) && a.left.Node? && a.left.kind == KStep && a.left.axis == DescendantOrSelf
    && a.left.nodes == TypeNode && a.left.right.Nil? && IsPosInvStep(a.right)
  }

  function FuseSteps<I>(a: Ast<I>): Ast<I>
    requires a.Node?
  {
    if Fuses(a) then a.(axis := FusedAxis(a.axis), left := a.left.left) else a
  }

  function TableOf(from: Data, to: Data): Translation.Table {
    if from.Str? && to.Str? then Translation.Generate(from.s, to.s) else Translation.None
  }

  predicate TranslatesLiterals<I>(a: Ast<I>)
    requires a.Node?
  {
    a.kind == KTranslate && a.right.Node? && a.right.kind == KString && a.right.next.Node? && a.right.next.kind == KString
  }

  function UseTableNode<I>(a: Ast<I>): Ast<I>
    requires a.Node?
  {
    if TranslatesLiterals(a) && TableOf(a.right.data, a.right.next.data).Some?
    then a.(kind := KTable, data := Table(TableOf(a.right.data, a.right.next.data).table)) else a
  }

  predicate ComparesAttribute<I>(a: Ast<I>)
    requires a.Node?
  {
    && a.kind == KEqual && a.left.Node? && a.left.kind == KStep && a.left.axis == Attribute && a.left.nodes.Name?
    && a.left.left.Nil? && a.left.right.Nil? && a.right.Node?
    && (a.right.kind == KString || (a.right.kind == KVariable && a.right.ty == TString))
  }

  function CompareAttributeNode<I>(a: Ast<I>): Ast<I>
    requires a.Node?
  {
    if ComparesAttribute(a) then a.(kind := KCompareAttribute) else a
  }

  function Rewrite<I>(a: Ast<I>): (r: Ast<I>)
    requires a.Node?
    ensures r.Node? && r.id == a.id && r.next == a.next && r.ty == a.ty
  {
    CompareAttributeNode(UseTableNode(FuseSteps(ClassifyTest(RewritePosition(a)))))
  }

  /** Children first, then the node itself. */
  function OptimizeAst<I>(a: Ast<I>): (r: Ast<I>)
    ensures r.Node? <==> a.Node?
    ensures r.Node? ==> r.id == a.id && r.next == OptimizeAst(a.next) && r.ty == a.ty
  {
    if a.Nil? then Nil
    else Rewrite(a.(left := OptimizeAst(a.left), right := OptimizeAst(a.right), next := OptimizeAst(a.next)))
  }

  // ----- the linked computations agree with those on expressions

  /** The kind tells which expression a node stands for. */
  lemma KindsApart(e: Expr)
    ensures KindOf(e) == KEqual <==> e.Equal?
    ensures KindOf(e) == KPosition <==> e.Position?
    ensures KindOf(e) == KStep <==> e.Step?
    ensures KindOf(e) == KString <==> e.StringConst?
    ensures KindOf(e) == KNumber <==> e.NumberConst?
    ensures KindOf(e) == KVariable <==> e.Variable?
    ensures KindOf(e) == KLast <==> e.Last?
  {
  }

  lemma SoleChain<I>(a: Ast<I>)
    ensures Sole(a) ==> (ChainPosInv(a) <==> IsPosInvExpr(a))
    ensures a.Nil? ==> ChainPosInv(a)
  {
  }

  lemma BinaryPosInv<I>(a: Ast<I>, e: Expr)
    requires Encodes(a, e) && (Binary(e) || e.Equal?)
    requires a.left.Node? && a.right.Node?
    requires IsPosInvExpr(a.left) == IsPosInv(e.l) && IsPosInvExpr(a.right) == IsPosInv(e.r)
    ensures IsPosInvExpr(a) <==> IsPosInv(e)
  {
    hide ChainPosInv;
    SoleChain(a.right);
  }

  lemma UnaryPosInv<I>(a: Ast<I>, e: Expr)
    requires Encodes(a, e) && Unary(e) && a.left.Node? && IsPosInvExpr(a.left) == IsPosInv(e.l)
    ensures IsPosInvExpr(a) <==> IsPosInv(e)
  {
    hide ChainPosInv;
    SoleChain(a.right);
  }

  lemma {:induction false} PosInvAgrees<I>(a: Ast<I>, e: Expr)
    requires Encodes(a, e)
    ensures a.Node? && (IsPosInvExpr(a) <==> IsPosInv(e))
    decreases e, 1
  {
    if Binary(e) || e.Equal? {
      PosInvAgrees(a.left, e.l);
      PosInvAgrees(a.right, e.r);
      hide IsPosInv, IsPosInvExpr;
      BinaryPosInv(a, e);
    } else if Unary(e) {
      PosInvAgrees(a.left, e.l);
      hide IsPosInv, IsPosInvExpr;
      UnaryPosInv(a, e);
    } else {
      OthersPosInv(a, e);
    }
  }

  lemma AtomPosInv<I>(a: Ast<I>, e: Expr)
    requires Encodes(a, e) && (Atomic(e) || e.Step? || e.Filter?)
    ensures IsPosInvExpr(a) <==> IsPosInv(e)
  {
    SoleChain(a.right);
    hide ChainPosInv;
  }

  lemma TablePosInv<I>(a: Ast<I>, e: Expr)
    requires Encodes(a, e) && e.TranslateTable? && a.left.Node? && IsPosInvExpr(a.left) == IsPosInv(e.l)
    ensures IsPosInvExpr(a) <==> IsPosInv(e)
  {
    TableEncoded(a, e);
    SoleChain(a.right.next);
    assert IsPosInvExpr(a.right) && IsPosInvExpr(a.right.next);
    assert ChainPosInv(a.right);
  }

  lemma {:induction false} OthersPosInv<I>(a: Ast<I>, e: Expr)
    requires Encodes(a, e) && !Binary(e) && !e.Equal? && !Unary(e)
    ensures IsPosInvExpr(a) <==> IsPosInv(e)
    decreases e, 0
  {
    hide TypeOf, KindOf, Encodes, IsPosInv, IsPosInvExpr, ChainPosInv;
    if Atomic(e) || e.Step? || e.Filter? {
      AtomPosInv(a, e);
    } else if e.Translate? {
      TranslateEncoded(a, e);
      PosInvAgrees(a.left, e.l);
      PosInvAgrees(a.right, e.from);
      PosInvAgrees(a.right.next, e.to);
      TranslatePosInv(a, e);
    } else if e.Library? {
      LibraryEncoded(a, e);
      if e.args.Arg? {
        PosInvAgrees(a.left, e.args.head);
        ArgsPosInvAgree(a.right, e.args.tail);
      }
      LibraryPosInv(a, e);
    } else if e.TranslateTable? {
      TableEncoded(a, e);
      PosInvAgrees(a.left, e.l);
      TablePosInv(a, e);
    } else {
      CompareEncoded(a, e);
      PosInvAgrees(a.right, e.r);
      ComparePosInv(a, e);
    }
  }

  lemma TranslatePosInv<I>(a: Ast<I>, e: Expr)
    requires e.Translate? && a.Node? && a.kind == KTranslate && a.left.Node? && a.right.Node? && Sole(a.right.next)
    requires IsPosInvExpr(a.left) == IsPosInv(e.l)
    requires IsPosInvExpr(a.right) == IsPosInv(e.from) && IsPosInvExpr(a.right.next) == IsPosInv(e.to)
    ensures IsPosInvExpr(a) <==> IsPosInv(e)
  {
    SoleChain(a.right.next);
    assert ChainPosInv(a.right) <==> IsPosInvExpr(a.right) && ChainPosInv(a.right.next);
  }

  lemma LibraryEncoded<I>(a: Ast<I>, e: Expr)
    requires Encodes(a, e) && e.Library?
    ensures a.Node? && a.kind == KLibrary(e.fn)
    ensures if e.args.NoArgs? then Leaf(a) else Encodes(a.left, e.args.head) && EncodesArgs(a.right, e.args.tail)
  {
  }

  lemma LibraryPosInv<I>(a: Ast<I>, e: Expr)
    requires e.Library? && a.Node? && a.kind == KLibrary(e.fn)
    requires e.args.NoArgs? ==> Leaf(a)
    requires e.args.Arg? ==> a.left.Node? && IsPosInvExpr(a.left) == IsPosInv(e.args.head)
    requires e.args.Arg? ==> ChainPosInv(a.right) == ArgsPosInv(e.args.tail)
    ensures IsPosInvExpr(a) <==> IsPosInv(e)
  {
    SoleChain(a.right);
  }

  lemma ComparePosInv<I>(a: Ast<I>, e: Expr)
    requires e.CompareAttribute? && a.Node? && a.kind == KCompareAttribute && Leaf(a.left) && a.left.kind == KStep
    requires Sole(a.right) && IsPosInvExpr(a.right) == IsPosInv(e.r)
    ensures IsPosInvExpr(a) <==> IsPosInv(e)
  {
    SoleChain(a.right);
    assert IsPosInvExpr(a.left);
  }

  lemma {:induction false} ArgsPosInvAgree<I>(a: Ast<I>, args: Exprs)
    requires EncodesArgs(a, args)
    ensures ChainPosInv(a) <==> ArgsPosInv(args)
    decreases args, 1
  {
    if args.Arg? {
      PosInvAgrees(a, args.head);
      ArgsPosInvAgree(a.next, args.tail);
    }
  }

  lemma {:induction false} StepPosInvAgrees<I>(a: Ast<I>, ps: Preds)
    requires EncodesPreds(a, ps)
    ensures IsPosInvStep(a) <==> StepPosInv(ps)
    decreases ps
  {
    if ps.Pred? {
      StepPosInvAgrees(a.next, ps.next);
    }
  }

  /** Nodes of other kinds are left as they are. */
  predicate Rewritten(kind: Kind) {
    kind == KFilter || kind == KPredicate || kind == KStep || kind == KTranslate || kind == KEqual
  }

  lemma RewriteOther<I>(a: Ast<I>)
    requires a.Node? && !Rewritten(a.kind)
    ensures Rewrite(a) == a
  {
  }

  lemma RewriteTested<I>(a: Ast<I>)
    requires a.Node? && (a.kind == KFilter || a.kind == KPredicate)
    ensures Rewrite(a) == ClassifyTest(RewritePosition(a))
  {
  }

  // one constructor at a time

  lemma EncodedKind<I>(a: Ast<I>, e: Expr)
    requires Encodes(a, e)
    ensures a.Node? && a.ty == TypeOf(e) && SoleLeft(a)
    ensures a.kind == KEqual <==> e.Equal?
    ensures a.kind == KPosition <==> e.Position?
    ensures a.kind == KStep <==> e.Step?
    ensures a.kind == KString <==> e.StringConst?
    ensures a.kind == KNumber <==> e.NumberConst?
    ensures a.kind == KVariable <==> e.Variable?
    ensures a.kind == KLast <==> e.Last?
    ensures e.StringConst? ==> a.data == Str(e.s) && Leaf(a)
    ensures e.NumberConst? ==> a.data == Num(e.n)
    ensures e.Variable? ==> a.ty == e.ty
  {
    KindsApart(e);
    hide KindOf;
  }

  lemma EqualEncoded<I>(a: Ast<I>, e: Expr)
    requires e.Equal?
    ensures Encodes(a, e) <==>
            && a.Node? && SoleLeft(a) && a.kind == KEqual && a.ty == TBoolean
            && Encodes(a.left, e.l) && Encodes(a.right, e.r) && Sole(a.right)
  {
  }

  lemma CompareEncoded<I>(a: Ast<I>, e: Expr)
    requires e.CompareAttribute?
    ensures Encodes(a, e) <==>
            && a.Node? && SoleLeft(a) && a.kind == KCompareAttribute && a.ty == TBoolean && Encodes(a.right, e.r) && Sole(a.right)
            && Leaf(a.left) && a.left.kind == KStep && a.left.axis == Attribute && a.left.nodes == Name(e.attr)
  {
  }

  lemma StepEncoded<I>(a: Ast<I>, e: Expr)
    requires e.Step?
    ensures Encodes(a, e) <==>
            && a.Node? && SoleLeft(a) && a.kind == KStep && a.ty == TNodeSet && a.axis == e.axis && a.nodes == e.nodes
            && EncodesPreds(a.right, e.preds)
            && (if e.left.Context? then a.left.Nil? else Encodes(a.left, e.left.e))
  {
  }

  lemma PredsEncoded<I>(a: Ast<I>, ps: Preds)
    requires EncodesPreds(a, ps)
    ensures a.Nil? <==> ps.NoPreds?
  {
  }

  lemma TranslateEncoded<I>(a: Ast<I>, e: Expr)
    requires e.Translate?
    ensures Encodes(a, e) <==>
            && a.Node? && SoleLeft(a) && a.kind == KTranslate && a.ty == TString && Encodes(a.left, e.l)
            && Encodes(a.right, e.from) && Encodes(a.right.next, e.to) && Sole(a.right.next)
  {
  }

  lemma TableEncoded<I>(a: Ast<I>, e: Expr)
    requires e.TranslateTable?
    ensures Encodes(a, e) <==>
            && a.Node? && SoleLeft(a) && a.kind == KTable && a.ty == TString && a.data == Table(e.table) && Encodes(a.left, e.l)
            && Leaf(a.right) && a.right.kind == KString && Leaf(a.right.next) && a.right.next.kind == KString
            && Sole(a.right.next)
  {
  }

  // ----- each rewriting agrees

  lemma PositionAgrees<I>(a: Ast<I>, p: Expr)
    requires a.Node? && (a.kind == KFilter || a.kind == KPredicate) && Encodes(a.right, p) && Sole(a.right)
    ensures var r := RewritePosition(a);
            r == a.(right := r.right) && Encodes(r.right, DropPosition(p)) && Sole(r.right)
  {
    hide Encodes, KindOf;
    EncodedKind(a.right, p);
    if p.Equal? {
      EqualEncoded(a.right, p);
      EncodedKind(a.right.left, p.l);
      EncodedKind(a.right.right, p.r);
    }
  }

  lemma ClassAgrees<I>(a: Ast<I>, p: Expr)
    requires a.Node? && (a.kind == KFilter || a.kind == KPredicate) && Encodes(a.right, p)
    ensures ClassifyTest(a) == a.(test := Classify(p, a.test))
  {
    hide Encodes, IsPosInv, IsPosInvExpr, TypeOf, KindOf;
    EncodedKind(a.right, p);
    PosInvAgrees(a.right, p);
  }

  /** A filter or predicate node whose operand stands for p. */
  lemma TestedAgrees<I>(a: Ast<I>, p: Expr)
    requires a.Node? && (a.kind == KFilter || a.kind == KPredicate) && Encodes(a.right, p) && Sole(a.right)
    ensures var r := Rewrite(a);
            && r == a.(right := r.right, test := Classify(DropPosition(p), a.test))
            && Encodes(r.right, DropPosition(p)) && Sole(r.right)
  {
    hide Encodes, Rewrite, RewritePosition, ClassifyTest, DropPosition, Classify;
    RewriteTested(a);
    PositionAgrees(a, p);
    ClassAgrees(RewritePosition(a), DropPosition(p));
  }

  lemma FusesAgree<I>(a: Ast<I>, e: Expr)
    requires Encodes(a, e) && e.Step?
    ensures a.Node?
    ensures Fuses(a) ==> e.left.From? && e.left.e.Step? && Fusible(e.axis) && FuseStep(e) == Step(e.left.e.left, FusedAxis(e.axis), e.nodes, e.preds)
    ensures !Fuses(a) ==> FuseStep(e) == e
  {
    hide Encodes, EncodesPreds, StepPosInv, IsPosInvStep, TypeOf, KindOf;
    StepEncoded(a, e);
    StepPosInvAgrees(a.right, e.preds);
    if e.left.From? {
      EncodedKind(a.left, e.left.e);
      if e.left.e.Step? {
        StepEncoded(a.left, e.left.e);
        PredsEncoded(a.left.right, e.left.e.preds);
      }
    }
  }

  lemma StepAgrees<I>(a: Ast<I>, e: Expr)
    requires Encodes(a, e) && e.Step?
    ensures Encodes(Rewrite(a), FuseStep(e))
  {
    hide Encodes, EncodesPreds, FuseStep, Fuses, TypeOf, KindOf, IsPosInvStep;
    FusesAgree(a, e);
    StepEncoded(a, e);
    assert Rewrite(a) == FuseSteps(a);
    if Fuses(a) {
      StepEncoded(a.left, e.left.e);
      StepEncoded(FuseSteps(a), FuseStep(e));
    }
  }

  lemma TranslateAgrees<I>(a: Ast<I>, e: Expr)
    requires Encodes(a, e) && e.Translate?
    ensures Encodes(Rewrite(a), UseTable(e))
  {
    hide Encodes, TypeOf, KindOf, Translation.Generate;
    TranslateEncoded(a, e);
    EncodedKind(a.right, e.from);
    EncodedKind(a.right.next, e.to);
    if UseTable(e).TranslateTable? {
      TableEncoded(UseTableNode(a), UseTable(e));
    }
    assert Rewrite(a) == UseTableNode(a);
  }

  lemma ComparesAgree<I>(a: Ast<I>, e: Expr)
    requires Encodes(a, e) && e.Equal?
    ensures a.Node?
    ensures ComparesAttribute(a) ==> Leaf(a.left) && UseAttribute(e) == CompareAttribute(a.left.nodes.s, e.r)
    ensures !ComparesAttribute(a) ==> UseAttribute(e) == e
  {
    hide Encodes, EncodesPreds, KindOf, TypeOf;
    EqualEncoded(a, e);
    EncodedKind(a.left, e.l);
    EncodedKind(a.right, e.r);
    if e.l.Step? {
      StepEncoded(a.left, e.l);
      PredsEncoded(a.left.right, e.l.preds);
      if e.l.left.From? {
        EncodedKind(a.left.left, e.l.left.e);
      }
    }
  }

  lemma RewriteEqual<I>(a: Ast<I>)
    requires a.Node? && a.kind == KEqual
    ensures Rewrite(a) == CompareAttributeNode(a)
  {
  }

  lemma EqualAgrees<I>(a: Ast<I>, e: Expr)
    requires Encodes(a, e) && e.Equal?
    ensures Encodes(Rewrite(a), UseAttribute(e))
  {
    hide Encodes, EncodesPreds, Rewrite, UseAttribute, KindOf, TypeOf;
    ComparesAgree(a, e);
    EqualEncoded(a, e);
    RewriteEqual(a);
    if ComparesAttribute(a) {
      CompareEncoded(CompareAttributeNode(a), UseAttribute(e));
    }
  }

  // ----- the whole rewriting agrees

  /** The node with its children rewritten, before its own turn. */
  function Inner<I>(a: Ast<I>): (r: Ast<I>)
    requires a.Node?
  {
    a.(left := OptimizeAst(a.left), right := OptimizeAst(a.right), next := OptimizeAst(a.next))
  }

  lemma LeafStays<I>(a: Ast<I>)
    requires Leaf(a) && a.kind != KFilter && a.kind != KPredicate
    ensures OptimizeAst(a) == a.(next := OptimizeAst(a.next))
  {
  }

  lemma BinaryEncoded<I>(a: Ast<I>, e: Expr)
    requires Binary(e)
    ensures Encodes(a, e) <==>
            && a.Node? && SoleLeft(a) && a.kind == KindOf(e) && a.ty == TypeOf(e)
            && Encodes(a.left, e.l) && Encodes(a.right, e.r) && Sole(a.right)
  {
    hide KindOf, TypeOf;
  }

  lemma UnaryEncoded<I>(a: Ast<I>, e: Expr)
    requires Unary(e)
    ensures Encodes(a, e) <==>
            && a.Node? && SoleLeft(a) && a.kind == KindOf(e) && a.ty == TypeOf(e)
            && Encodes(a.left, e.l) && a.right.Nil?
  {
    hide KindOf, TypeOf;
  }

  /** Operators keep their kind; their operands are rewritten. */
  lemma OptimizeBinary(e: Expr)
    requires Binary(e)
    ensures var o := Optimize(e);
            && Binary(o) && o.l == Optimize(e.l) && o.r == Optimize(e.r)
            && KindOf(o) == KindOf(e) && TypeOf(o) == TypeOf(e) && !Rewritten(KindOf(e))
  {
    hide UseAttribute, UseTable, FuseStep, DropPosition, Classify;
  }

  lemma OptimizeUnary(e: Expr)
    requires Unary(e)
    ensures var o := Optimize(e);
            Unary(o) && o.l == Optimize(e.l) && KindOf(o) == KindOf(e) && TypeOf(o) == TypeOf(e) && !Rewritten(KindOf(e))
  {
    hide UseAttribute, UseTable, FuseStep, DropPosition, Classify;
  }

  lemma OptimizeInner<I>(a: Ast<I>)
    requires a.Node? && !Rewritten(a.kind)
    ensures OptimizeAst(a) == Inner(a)
    ensures Sole(a.right) ==> Sole(Inner(a).right)
    ensures SoleLeft(a) ==> SoleLeft(Inner(a))
  {
    RewriteOther(Inner(a));
    hide Rewrite;
  }

  lemma BinaryAgrees<I>(a: Ast<I>, e: Expr)
    requires Encodes(a, e) && Binary(e)
    requires Encodes(OptimizeAst(a.left), Optimize(e.l)) && Encodes(OptimizeAst(a.right), Optimize(e.r))
    ensures Encodes(OptimizeAst(a), Optimize(e))
  {
    hide Encodes, Optimize, OptimizeAst, KindOf, TypeOf, Rewritten;
    BinaryEncoded(a, e);
    OptimizeBinary(e);
    OptimizeInner(a);
    BinaryEncoded(Inner(a), Optimize(e));
  }

  lemma UnaryAgrees<I>(a: Ast<I>, e: Expr)
    requires Encodes(a, e) && Unary(e) && Encodes(OptimizeAst(a.left), Optimize(e.l))
    ensures Encodes(OptimizeAst(a), Optimize(e))
  {
    hide Encodes, Optimize, OptimizeAst, KindOf, TypeOf, Rewritten;
    UnaryEncoded(a, e);
    OptimizeUnary(e);
    OptimizeInner(a);
    NilStays<I>();
    UnaryEncoded(Inner(a), Optimize(e));
  }

  lemma NilStays<I>()
    ensures OptimizeAst<I>(Nil) == Nil
  {
  }

  lemma AtomicAgrees<I>(a: Ast<I>, e: Expr)
    requires Encodes(a, e) && Atomic(e)
    ensures Encodes(OptimizeAst(a), Optimize(e))
  {
    hide OptimizeAst;
    LeafStays(a);
  }

  lemma FilterAgrees<I>(a: Ast<I>, e: Expr)
    requires Encodes(a, e) && e.Filter?
    requires Encodes(OptimizeAst(a.left), Optimize(e.l)) && Encodes(OptimizeAst(a.right), Optimize(e.r))
    ensures Encodes(OptimizeAst(a), Optimize(e))
  {
    hide Rewrite, DropPosition, Classify;
    TestedAgrees(Inner(a), Optimize(e.r));
  }

  lemma TableStays<I>(a: Ast<I>, e: Expr)
    requires Encodes(a, e) && e.TranslateTable? && Encodes(OptimizeAst(a.left), Optimize(e.l))
    ensures Encodes(OptimizeAst(a), Optimize(e))
  {
    hide Rewrite, Encodes, TypeOf, KindOf;
    TableEncoded(a, e);
    LeafStays(a.right);
    LeafStays(a.right.next);
    RewriteOther(Inner(a));
    TableEncoded(Inner(a), Optimize(e));
  }

  lemma OptimizeCompare(attr: string, r: Expr)
    ensures Optimize(CompareAttribute(attr, r)) == CompareAttribute(attr, Optimize(r))
  {
    hide UseAttribute, UseTable, FuseStep, DropPosition, Classify;
  }

  lemma CompareStays<I>(a: Ast<I>, e: Expr)
    requires Encodes(a, e) && e.CompareAttribute? && Encodes(OptimizeAst(a.right), Optimize(e.r))
    ensures Encodes(OptimizeAst(a), Optimize(e))
  {
    hide Rewrite, Encodes, TypeOf, KindOf, Optimize;
    CompareEncoded(a, e);
    LeafStays(a.left);
    RewriteOther(Inner(a));
    OptimizeCompare(e.attr, e.r);
    CompareEncoded(Inner(a), Optimize(e));
  }

  lemma LibraryAgrees<I>(a: Ast<I>, e: Expr)
    requires Encodes(a, e) && e.Library?
    requires e.args.Arg? ==> Encodes(OptimizeAst(a.left), Optimize(e.args.head))
    requires e.args.Arg? ==> EncodesArgs(OptimizeAst(a.right), OptimizeArgs(e.args.tail))
    ensures Encodes(OptimizeAst(a), Optimize(e))
  {
    hide Encodes, OptimizeAst, KindOf, TypeOf, EncodesArgs, Rewrite;
    LibraryEncoded(a, e);
    OptimizeInner(a);
    NilStays<I>();
    OptimizeLibrary(e);
    EncodedParts(a, e);
    LibraryStands(Inner(a), Optimize(e));
  }

  lemma OptimizeLibrary(e: Expr)
    requires e.Library?
    ensures Optimize(e) == Library(e.fn, OptimizeArgs(e.args)) && TypeOf(Optimize(e)) == TypeOf(e)
    ensures e.args.NoArgs? ==> OptimizeArgs(e.args) == NoArgs
    ensures e.args.Arg? ==> OptimizeArgs(e.args) == Arg(Optimize(e.args.head), OptimizeArgs(e.args.tail))
  {
    hide UseAttribute, UseTable, FuseStep, DropPosition, Classify;
  }

  lemma EncodedParts<I>(a: Ast<I>, e: Expr)
    requires Encodes(a, e)
    ensures a.Node? && SoleLeft(a) && a.ty == TypeOf(e)
  {
    hide TypeOf, KindOf;
  }

  lemma LibraryStands<I>(a: Ast<I>, e: Expr)
    requires e.Library? && a.Node? && SoleLeft(a) && a.kind == KLibrary(e.fn) && a.ty == TypeOf(e)
    requires if e.args.NoArgs? then Leaf(a) else Encodes(a.left, e.args.head) && EncodesArgs(a.right, e.args.tail)
    ensures Encodes(a, e)
  {
    hide TypeOf;
  }

  /** Rewriting the linked tree in the source's order is rewriting the expression it stands for. */
  lemma {:induction false} OptimizeAgrees<I>(a: Ast<I>, e: Expr)
    requires Encodes(a, e)
    ensures Encodes(OptimizeAst(a), Optimize(e))
    decreases e, 2
  {
    hide Rewrite, FuseStep, UseTable, UseAttribute, DropPosition, Classify, TypeOf, KindOf, IsPosInv;
    if Binary(e) {
      OptimizeAgrees(a.left, e.l);
      OptimizeAgrees(a.right, e.r);
      BinaryAgrees(a, e);
    } else if Unary(e) {
      OptimizeAgrees(a.left, e.l);
      UnaryAgrees(a, e);
    } else if Atomic(e) {
      AtomicAgrees(a, e);
    } else {
      OptimizeOthersAgree(a, e);
    }
  }

  lemma {:induction false} OptimizeOthersAgree<I>(a: Ast<I>, e: Expr)
    requires Encodes(a, e) && !Binary(e) && !Unary(e) && !Atomic(e)
    ensures Encodes(OptimizeAst(a), Optimize(e))
    decreases e, 1
  {
    if e.Equal? || e.Filter? || e.Translate? {
      OptimizeRewrittenAgree(a, e);
    } else {
      OptimizeListsAgree(a, e);
    }
  }

  lemma {:induction false} OptimizeRewrittenAgree<I>(a: Ast<I>, e: Expr)
    requires Encodes(a, e) && (e.Equal? || e.Filter? || e.Translate?)
    ensures Encodes(OptimizeAst(a), Optimize(e))
    decreases e, 0
  {
    hide Rewrite, FuseStep, UseTable, UseAttribute, DropPosition, Classify;
    var b := Inner(a);
    match e
    case Equal(l, r) =>
      OptimizeAgrees(a.left, l);
      OptimizeAgrees(a.right, r);
      EqualAgrees(b, Equal(Optimize(l), Optimize(r)));
    case Filter(l, r, _) =>
      OptimizeAgrees(a.left, l);
      OptimizeAgrees(a.right, r);
      FilterAgrees(a, e);
    case Translate(l, from, to) =>
      OptimizeAgrees(a.left, l);
      OptimizeAgrees(a.right, from);
      OptimizeAgrees(a.right.next, to);
      TranslateAgrees(b, Translate(Optimize(l), Optimize(from), Optimize(to)));
  }

  lemma {:induction false} OptimizeListsAgree<I>(a: Ast<I>, e: Expr)
    requires Encodes(a, e) && (e.Library? || e.Step? || e.TranslateTable? || e.CompareAttribute?)
    ensures Encodes(OptimizeAst(a), Optimize(e))
    decreases e, 0
  {
    hide Rewrite, FuseStep, UseTable, UseAttribute, DropPosition, Classify;
    var b := Inner(a);
    match e
    case Library(_, args) =>
      if args.Arg? {
        OptimizeAgrees(a.left, args.head);
        OptimizeArgsAgree(a.right, args.tail);
      }
      LibraryAgrees(a, e);
    case Step(left, axis, nodes, preds) =>
      OptimizePredsAgree(a.right, preds);
      if left.From? {
        OptimizeAgrees(a.left, left.e);
      }
      StepAgrees(b, Step(if left.Context? then Context else From(Optimize(left.e)), axis, nodes, OptimizePreds(preds)));
    case TranslateTable(l, _) =>
      OptimizeAgrees(a.left, l);
      TableStays(a, e);
    case CompareAttribute(_, r) =>
      OptimizeAgrees(a.right, r);
      CompareStays(a, e);
  }

  lemma {:induction false} OptimizeArgsAgree<I>(a: Ast<I>, args: Exprs)
    requires EncodesArgs(a, args)
    ensures EncodesArgs(OptimizeAst(a), OptimizeArgs(args))
    decreases args, 1
  {
    if args.Arg? {
      OptimizeAgrees(a, args.head);
      OptimizeArgsAgree(a.next, args.tail);
    }
  }

  lemma {:induction false} OptimizePredsAgree<I>(a: Ast<I>, ps: Preds)
    requires EncodesPreds(a, ps)
    ensures EncodesPreds(OptimizeAst(a), OptimizePreds(ps))
    decreases ps, 1
  {
    if ps.Pred? {
      hide Rewrite, DropPosition, Classify;
      OptimizeAgrees(a.right, ps.e);
      OptimizePredsAgree(a.next, ps.next);
      TestedAgrees(Inner(a), Optimize(ps.e));
    }
  }
}
