/** Syntax tree nodes as objects, rewritten in place. */
module XPathAstNodes {
  import opened Axes
  import opened XPathSyntax
  import opened XPathAst

  class AstNode {
    var kind: Kind
    var ty: Type
    var axis: Axis
    var nodes: NodeTest
    var test: Test
    var data: Data
    var left: AstNode?
    var right: AstNode?
    var next: AstNode?

    constructor (kind: Kind, ty: Type, axis: Axis, nodes: NodeTest, test: Test, data: Data, left: AstNode?, right: AstNode?)
      ensures Matches(this, Node(this, kind, ty, axis, nodes, test, data, Nil, Nil, Nil))
      ensures this.left == left && this.right == right && next == null
    {
      this.kind, this.ty, this.axis, this.nodes, this.test, this.data := kind, ty, axis, nodes, test, data;
      this.left, this.right, next := left, right, null;
    }
  }

  type Tree = Ast<AstNode>

  function Ref(a: Tree): AstNode? {
    if a.Nil? then null else a.id
  }

  ghost function Ids(a: Tree): set<AstNode> {
    if a.Nil? then {} else {a.id} + Ids(a.left) + Ids(a.right) + Ids(a.next)
  }

  ghost predicate IdsHold(a: Tree)
  {
    a.Node? ==> a.id in Ids(a)
  }

  lemma IdsParts(a: Tree)
    ensures a.Node? ==>
              && a.id in Ids(a) && Ids(a.left) <= Ids(a) && Ids(a.right) <= Ids(a) && Ids(a.next) <= Ids(a)
  {
  }

  /** No object at two places. */
  ghost predicate Distinct(a: Tree) {
    a.Node? ==>
      && a.id !in Ids(a.left) + Ids(a.right) + Ids(a.next)
      && Ids(a.left) !! Ids(a.right) && Ids(a.left) !! Ids(a.next) && Ids(a.right) !! Ids(a.next)
      && Distinct(a.left) && Distinct(a.right) && Distinct(a.next)
  }

  ghost predicate Matches(n: AstNode, a: Tree)
    requires a.Node?
    reads n
  {
    n.kind == a.kind && n.ty == a.ty && n.axis == a.axis && n.nodes == a.nodes && n.test == a.test && n.data == a.data
  }

  /** The object at the top of a has a's fields and links to a's parts. */
  ghost predicate Linked(a: Tree)
    reads if a.Node? then {a.id} else {}
  {
    a.Node? ==> Matches(a.id, a) && a.id.left == Ref(a.left) && a.id.right == Ref(a.right) && a.id.next == Ref(a.next)
  }

  /** The objects in memory are laid out as a says. */
  ghost predicate InMemory(a: Tree)
    reads Ids(a)
  {
    a.Node? ==> Linked(a) && InMemory(a.left) && InMemory(a.right) && InMemory(a.next)
  }

  /** Operands the rewriting looks at without asking are there. */
  predicate Shaped(a: Tree) {
    a.Node? ==>
      && Shaped(a.left) && Shaped(a.right) && Shaped(a.next)
      && (a.kind == KFilter || a.kind == KPredicate ==> a.right.Node?)
      && (a.kind == KEqual ==> a.left.Node? && a.right.Node?)
      && (a.kind == KTranslate ==> a.right.Node? && a.right.next.Node?)
  }

  // ----- the rewriting keeps the layout sane

  ghost predicate Sane(a: Tree) {
    Shaped(a) && Distinct(a)
  }

  lemma SaneParts(a: Tree)
    requires a.Node? && Sane(a)
    ensures Sane(a.left) && Sane(a.right) && Sane(a.next)
    ensures Ids(a.left) <= Ids(a) && Ids(a.right) <= Ids(a) && Ids(a.next) <= Ids(a)
    ensures a.id !in Ids(a.left) && a.id !in Ids(a.right) && a.id !in Ids(a.next)
    ensures Ids(a.left) !! Ids(a.right) && Ids(a.left) !! Ids(a.next) && Ids(a.right) !! Ids(a.next)
  {
  }

  /** Replacing the operands by smaller ones. */
  lemma SmallerParts(a: Tree, axis: Axis, left: Tree, right: Tree)
    requires a.Node? && Sane(a) && Sane(left) && Sane(right)
    requires Ids(left) <= Ids(a.left) && Ids(right) <= Ids(a.right)
    requires ((a.kind == KFilter || a.kind == KPredicate) && right.Node?) || a.kind == KStep
    ensures var b := a.(axis := axis, left := left, right := right); Sane(b) && Ids(b) <= Ids(a)
  {
  }

  lemma PositionParts(a: Tree)
    requires a.Node? && Sane(a)
    ensures RewritePosition(a).Node? && RewritePosition(a).id == a.id && Sane(RewritePosition(a)) && Ids(RewritePosition(a)) <= Ids(a)
  {
    hide Sane, Ids;
    SaneParts(a);
    if RewritePosition(a) != a {
      SaneParts(a.right);
      SmallerParts(a, a.axis, a.left, a.right.right);
    }
  }

  lemma FuseParts(a: Tree)
    requires a.Node? && Sane(a)
    ensures FuseSteps(a).Node? && FuseSteps(a).id == a.id && Sane(FuseSteps(a)) && Ids(FuseSteps(a)) <= Ids(a)
  {
    hide Sane, Ids, IsPosInvStep;
    SaneParts(a);
    if FuseSteps(a) != a {
      SaneParts(a.left);
      SmallerParts(a, FusedAxis(a.axis), a.left.left, a.right);
    }
  }

  /** Changes to the node's own fields alone. */
  lemma FieldParts(a: Tree, b: Tree)
    requires a.Node? && Sane(a) && b.Node? && b.id == a.id && b.left == a.left && b.right == a.right && b.next == a.next
    requires b.kind == a.kind || b.kind == KTable || b.kind == KCompareAttribute
    ensures b.Node? && Sane(b) && Ids(b) == Ids(a)
  {
  }

  lemma RewriteParts(a: Tree)
    requires a.Node? && Sane(a)
    ensures Sane(Rewrite(a)) && Ids(Rewrite(a)) <= Ids(a)
  {
    hide Sane, Ids, FuseSteps, RewritePosition, IsPosInvExpr, TableOf;
    var b := RewritePosition(a);
    PositionParts(a);
    var c := ClassifyTest(b);
    FieldParts(b, c);
    assert c.Node?;
    hide ClassifyTest;
    var d := FuseSteps(c);
    FuseParts(c);
    var e := UseTableNode(d);
    FieldParts(d, e);
    assert e.Node?;
    hide UseTableNode;
    FieldParts(e, CompareAttributeNode(e));
  }

  lemma InnerParts(a: Tree)
    requires a.Node? && Sane(a)
    requires Sane(OptimizeAst(a.left)) && Ids(OptimizeAst(a.left)) <= Ids(a.left)
    requires Sane(OptimizeAst(a.right)) && Ids(OptimizeAst(a.right)) <= Ids(a.right)
    requires Sane(OptimizeAst(a.next)) && Ids(OptimizeAst(a.next)) <= Ids(a.next)
    ensures Sane(Inner(a)) && Ids(Inner(a)) <= Ids(a)
  {
    hide OptimizeAst, Shaped, Distinct, Ids;
    InnerNodes(a);
    ShapedInner(a, OptimizeAst(a.left), OptimizeAst(a.right), OptimizeAst(a.next));
    DistinctInner(a, OptimizeAst(a.left), OptimizeAst(a.right), OptimizeAst(a.next));
  }

  lemma InnerNodes(a: Tree)
    requires a.Node?
    ensures OptimizeAst(a.left).Node? == a.left.Node? && OptimizeAst(a.right).Node? == a.right.Node?
    ensures a.right.Node? ==> OptimizeAst(a.right).next.Node? == a.right.next.Node?
  {
    hide Rewrite;
  }

  lemma ShapedInner(a: Tree, left: Tree, right: Tree, next: Tree)
    requires a.Node? && Shaped(a) && Shaped(left) && Shaped(right) && Shaped(next)
    requires left.Node? == a.left.Node? && right.Node? == a.right.Node?
    requires a.right.Node? ==> right.next.Node? == a.right.next.Node?
    ensures Shaped(a.(left := left, right := right, next := next))
  {
  }

  lemma DistinctInner(a: Tree, left: Tree, right: Tree, next: Tree)
    requires a.Node? && Distinct(a) && Distinct(left) && Distinct(right) && Distinct(next)
    requires Ids(left) <= Ids(a.left) && Ids(right) <= Ids(a.right) && Ids(next) <= Ids(a.next)
    ensures var b := a.(left := left, right := right, next := next); Distinct(b) && Ids(b) <= Ids(a)
  {
  }

  // ----- the same on the objects

  lemma MemoryParts(a: Tree)
    requires a.Node? && InMemory(a)
    ensures Linked(a) && InMemory(a.left) && InMemory(a.right) && InMemory(a.next)
  {
  }

  lemma LinkedParts(a: Tree)
    requires a.Node? && Linked(a) && InMemory(a.left) && InMemory(a.right) && InMemory(a.next)
    ensures InMemory(a)
  {
  }

  predicate CanDropPosition(n: AstNode, ghost a: Tree)
    requires a.Node? && n == a.id && Sane(a) && InMemory(a)
    reads Ids(a)
    ensures CanDropPosition(n, a) == TestsPosition(a)
  {
    MemoryParts(a);
    IdsParts(a);
    IdsParts(a.right);
    assert a.right.Node? ==> IdsHold(a.right.left) && IdsHold(a.right.right);
    assert Shaped(a.right);
    assert a.right.Node? ==> Linked(a.right) && Linked(a.right.left) && Linked(a.right.right);
    && (n.kind == KFilter || n.kind == KPredicate) && n.right.kind == KEqual && n.right.left.kind == KPosition
    && n.right.right.ty == TNumber
  }

  method RewritePositionInPlace(n: AstNode, ghost a: Tree)
    requires a.Node? && n == a.id && Sane(a) && InMemory(a)
    modifies n`right
    ensures InMemory(RewritePosition(a))
  {
    hide InMemory, Sane, Ids, CanDropPosition;
    SaneParts(a);
    MemoryParts(a);
    if CanDropPosition(n, a) {
      SaneParts(a.right);
      MemoryParts(a.right);
      n.right := n.right.right;
      LinkedParts(RewritePosition(a));
    }
  }

  /** Which test the node should carry. */
  function Classified(n: AstNode, ghost a: Tree): (test: Test)
    requires a.Node? && n == a.id && Sane(a) && InMemory(a) && (n.kind == KFilter || n.kind == KPredicate)
    reads Ids(a)
    ensures a.(test := test) == ClassifyTest(a)
  {
    MemoryParts(a);
    assert Linked(a.right);
    if n.right.kind == KNumber && n.right.data == Num(Fin(1.0)) then ConstantOne
    else if n.right.ty == TNumber && (n.right.kind == KNumber || n.right.kind == KVariable || n.right.kind == KLast)
    then Constant
    else if n.right.ty != TNumber && PosInvExpr(n.right, a.right) then PosInv
    else n.test
  }

  method ClassifyInPlace(n: AstNode, ghost a: Tree)
    requires a.Node? && n == a.id && Sane(a) && InMemory(a)
    modifies n`test
    ensures InMemory(ClassifyTest(a))
  {
    hide InMemory, Sane, Ids, ClassifyTest;
    SaneParts(a);
    MemoryParts(a);
    if n.kind == KFilter || n.kind == KPredicate {
      var test := Classified(n, a);
      n.test := test;
      LinkedParts(a.(test := test));
    } else {
      OnlyTested(a);
    }
  }

  lemma OnlyTested(a: Tree)
    requires a.Node? && a.kind != KFilter && a.kind != KPredicate
    ensures ClassifyTest(a) == a
  {
  }

  predicate PosInvExpr(n: AstNode, ghost a: Tree)
    requires a.Node? && n == a.id && InMemory(a)
    reads Ids(a)
    ensures PosInvExpr(n, a) == IsPosInvExpr(a)
    decreases a, 0
  {
    MemoryParts(a);
    if Counts(n.kind) then false
    else if Independent(n.kind) then true
    else (n.left == null || PosInvExpr(n.left, a.left)) && PosInvChain(n.right, a.right)
  }

  predicate PosInvChain(n: AstNode?, ghost a: Tree)
    requires n == Ref(a) && InMemory(a)
    reads Ids(a)
    ensures PosInvChain(n, a) == ChainPosInv(a)
    decreases a, 1
  {
    if n == null then true
    else
      MemoryParts(a);
      PosInvExpr(n, a) && PosInvChain(n.next, a.next)
  }

  predicate PosInvStep(n: AstNode?, ghost a: Tree)
    requires n == Ref(a) && InMemory(a)
    reads Ids(a)
    ensures PosInvStep(n, a) == IsPosInvStep(a)
    decreases a
  {
    if n == null then true
    else
      MemoryParts(a);
      n.test == PosInv && PosInvStep(n.next, a.next)
  }

  predicate CanFuse(n: AstNode, ghost a: Tree)
    requires a.Node? && n == a.id && InMemory(a)
    reads Ids(a)
    ensures CanFuse(n, a) == Fuses(a)
  {
    MemoryParts(a);
    IdsParts(a);
    IdsParts(a.left);
    assert Linked(a.left);
    && n.kind == KStep && Fusible(n.axis) && n.left != null && n.left.kind == KStep && n.left.axis == DescendantOrSelf
    && n.left.nodes == TypeNode && n.left.right == null && PosInvStep(n.right, a.right)
  }

  method FuseInPlace(n: AstNode, ghost a: Tree)
    requires a.Node? && n == a.id && Sane(a) && InMemory(a)
    modifies n`axis, n`left
    ensures InMemory(FuseSteps(a))
  {
    hide InMemory, Sane, Ids, IsPosInvStep, CanFuse;
    SaneParts(a);
    MemoryParts(a);
    if CanFuse(n, a) {
      MemoryParts(a.left);
      SaneParts(a.left);
      n.axis := if n.axis == Child || n.axis == Descendant then Descendant else DescendantOrSelf;
      n.left := n.left.left;
      LinkedParts(FuseSteps(a));
    }
  }

  predicate CanUseTable(n: AstNode, ghost a: Tree)
    requires a.Node? && n == a.id && Sane(a) && InMemory(a)
    reads Ids(a)
    ensures CanUseTable(n, a) == TranslatesLiterals(a)
  {
    MemoryParts(a);
    IdsParts(a);
    IdsParts(a.right);
    assert a.right.Node? ==> IdsHold(a.right.next);
    assert a.right.Node? ==> Linked(a.right) && Linked(a.right.next);
    n.kind == KTranslate && n.right.kind == KString && n.right.next.kind == KString
  }

  method UseTableInPlace(n: AstNode, ghost a: Tree)
    requires a.Node? && n == a.id && Sane(a) && InMemory(a)
    modifies n`kind, n`data
    ensures InMemory(UseTableNode(a))
  {
    hide InMemory, Sane, Ids, TableOf, CanUseTable;
    SaneParts(a);
    MemoryParts(a);
    if CanUseTable(n, a) {
      MemoryParts(a.right);
      MemoryParts(a.right.next);
      var table := TableOf(n.right.data, n.right.next.data);
      if table.Some? {
        n.kind := KTable;
        n.data := Table(table.table);
        LinkedParts(UseTableNode(a));
      }
    }
  }

  predicate CanCompareAttribute(n: AstNode, ghost a: Tree)
    requires a.Node? && n == a.id && Sane(a) && InMemory(a)
    reads Ids(a)
    ensures CanCompareAttribute(n, a) == ComparesAttribute(a)
  {
    MemoryParts(a);
    assert Linked(a.left) && Linked(a.right);
    && n.kind == KEqual && n.left.kind == KStep && n.left.axis == Attribute && n.left.nodes.Name?
    && n.left.left == null && n.left.right == null
    && (n.right.kind == KString || (n.right.kind == KVariable && n.right.ty == TString))
  }

  method CompareAttributeInPlace(n: AstNode, ghost a: Tree)
    requires a.Node? && n == a.id && Sane(a) && InMemory(a)
    modifies n`kind
    ensures InMemory(CompareAttributeNode(a))
  {
    hide InMemory, Sane, Ids, CanCompareAttribute, ComparesAttribute;
    SaneParts(a);
    MemoryParts(a);
    if CanCompareAttribute(n, a) {
      n.kind := KCompareAttribute;
      LinkedParts(CompareAttributeNode(a));
    }
  }

  method RewriteInPlace(n: AstNode, ghost a: Tree)
    requires a.Node? && n == a.id && Sane(a) && InMemory(a)
    modifies n
    ensures InMemory(Rewrite(a))
  {
    hide InMemory, Sane, Ids, RewritePosition, ClassifyTest, FuseSteps, UseTableNode, CompareAttributeNode;
    PositionParts(a);
    RewritePositionInPlace(n, a);
    ghost var b := RewritePosition(a);
    ClassifyParts(b);
    ClassifyInPlace(n, b);
    ghost var c := ClassifyTest(b);
    FuseParts(c);
    FuseInPlace(n, c);
    ghost var d := FuseSteps(c);
    TableParts(d);
    UseTableInPlace(n, d);
    CompareAttributeInPlace(n, UseTableNode(d));
  }

  lemma ClassifyParts(a: Tree)
    requires a.Node? && Sane(a)
    ensures var r := ClassifyTest(a); r.Node? && r.id == a.id && Sane(r) && Ids(r) == Ids(a)
  {
    hide Sane, Ids, IsPosInvExpr;
    FieldParts(a, ClassifyTest(a));
  }

  lemma TableParts(a: Tree)
    requires a.Node? && Sane(a)
    ensures var r := UseTableNode(a); r.Node? && r.id == a.id && Sane(r) && Ids(r) == Ids(a)
  {
    hide Sane, Ids, TableOf;
    FieldParts(a, UseTableNode(a));
  }

  /** Rewriting in place: the objects, all of them among `all`, end up laid out as the rewritten tree. */
  method Optimize(n: AstNode, ghost a: Tree, ghost all: set<AstNode>)
    requires a.Node? && n == a.id && Sane(a) && InMemory(a) && Ids(a) <= all
    modifies Ids(a)
    ensures InMemory(OptimizeAst(a)) && Sane(OptimizeAst(a)) && Ids(OptimizeAst(a)) <= Ids(a)
    decreases a, 0
  {
    hide InMemory, Sane, Ids, Rewrite;
    SaneParts(a);
    IdsParts(a);
    MemoryParts(a);
    OptimizePart(n.left, a.left, all);
    OptimizePart(n.right, a.right, all);
    OptimizePart(n.next, a.next, all);
    InnerParts(a);
    LinkedParts(Inner(a));
    RewriteInPlace(n, Inner(a));
    RewriteParts(Inner(a));
  }

  method OptimizePart(n: AstNode?, ghost a: Tree, ghost all: set<AstNode>)
    requires n == Ref(a) && Sane(a) && InMemory(a) && Ids(a) <= all
    modifies Ids(a)
    ensures InMemory(OptimizeAst(a)) && Sane(OptimizeAst(a)) && Ids(OptimizeAst(a)) <= Ids(a)
    decreases a, 1
  {
    if n != null {
      Optimize(n, a, all);
    }
  }

  // ----- queries

  lemma ShapedJoin(a: Tree)
    requires a.Node? && Shaped(a.left) && Shaped(a.right) && Shaped(a.next)
    requires a.kind == KFilter || a.kind == KPredicate ==> a.right.Node?
    requires a.kind == KEqual ==> a.left.Node? && a.right.Node?
    requires a.kind == KTranslate ==> a.right.Node? && a.right.next.Node?
    ensures Shaped(a)
  {
  }

  /** What stands for an expression has every operand the rewriting looks at. */
  lemma {:induction false} EncodesShaped(a: Tree, e: Expr)
    requires Encodes(a, e) && (a.Node? ==> Shaped(a.next))
    ensures Shaped(a)
    decreases e, 1
  {
    hide Shaped, KindOf, TypeOf;
    ShapedNil();
    if Binary(e) || e.Equal? || e.Filter? {
      EncodedKind(a.left, e.l);
      EncodedKind(a.right, e.r);
      EncodesShaped(a.left, e.l);
      EncodesShaped(a.right, e.r);
      KindsTested(e);
      ShapedJoin(a);
    } else if Unary(e) {
      EncodesShaped(a.left, e.l);
      KindsTested(e);
      ShapedJoin(a);
    } else {
      OthersShaped(a, e);
    }
  }

  lemma ShapedNil()
    ensures Shaped(Nil)
  {
  }

  lemma KindsTested(e: Expr)
    ensures KindOf(e) == KFilter <==> e.Filter?
    ensures KindOf(e) == KEqual <==> e.Equal?
    ensures KindOf(e) == KTranslate <==> e.Translate?
    ensures KindOf(e) != KPredicate
  {
  }

  lemma {:induction false} OthersShaped(a: Tree, e: Expr)
    requires Encodes(a, e) && (a.Node? ==> Shaped(a.next)) && !Binary(e) && !e.Equal? && !e.Filter? && !Unary(e)
    ensures Shaped(a)
    decreases e, 0
  {
    hide KindOf, TypeOf, Shaped;
    KindsTested(e);
    ShapedNil();
    match e {
      case Translate(l, from, to) =>
        TranslateEncoded(a, e);
        EncodedKind(a.right, from);
        EncodesShaped(a.left, l);
        EncodesShaped(a.right.next, to);
        EncodesShaped(a.right, from);
      case Library(_, args) =>
        if args.Arg? {
          EncodedKind(a.left, args.head);
          EncodesShaped(a.left, args.head);
          ArgsShaped(a.right, args.tail);
        }
      case Step(left, _, _, preds) =>
        PredsShaped(a.right, preds);
        if left.From? {
          EncodedKind(a.left, left.e);
          EncodesShaped(a.left, left.e);
        }
      case TranslateTable(l, _) =>
        TableEncoded(a, e);
        EncodesShaped(a.left, l);
        ShapedJoin(a.right.next);
        ShapedJoin(a.right);
      case CompareAttribute(_, r) =>
        CompareEncoded(a, e);
        EncodedKind(a.right, r);
        EncodesShaped(a.right, r);
        ShapedJoin(a.left);
      case _ =>
    }
    ShapedJoin(a);
  }

  lemma {:induction false} ArgsShaped(a: Tree, args: Exprs)
    requires EncodesArgs(a, args)
    ensures Shaped(a)
    decreases args, 1
  {
    if args.Arg? {
      ArgsShaped(a.next, args.tail);
      EncodesShaped(a, args.head);
    }
  }

  lemma {:induction false} PredsShaped(a: Tree, ps: Preds)
    requires EncodesPreds(a, ps)
    ensures Shaped(a)
    decreases ps, 1
  {
    if ps.Pred? {
      PredsShaped(a.next, ps.next);
      EncodesShaped(a.right, ps.e);
    }
  }

  /** Optimizing the objects of a parsed query leaves in memory a tree that stands for the optimized expression. */
  method OptimizeQuery(n: AstNode, ghost a: Tree, ghost e: Expr, ghost all: set<AstNode>)
    requires a.Node? && Encodes(a, e) && a.next.Nil? && n == a.id && Distinct(a) && InMemory(a) && Ids(a) <= all
    modifies Ids(a)
    ensures InMemory(OptimizeAst(a)) && Encodes(OptimizeAst(a), XPathSyntax.Optimize(e))
  {
    EncodesShaped(a, e);
    OptimizeAgrees(a, e);
    hide Encodes, InMemory, OptimizeAst, XPathSyntax.Optimize;
    Optimize(n, a, all);
  }
}
