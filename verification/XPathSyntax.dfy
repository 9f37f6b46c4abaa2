/** XPath expression trees, their static types, and the tree rewriting done before evaluation. */
module XPathSyntax {
  import opened Axes
  import Translation

  datatype Type = TNodeSet | TNumber | TString | TBoolean

  /** An XPath number without rounding. */
  datatype Number = NaN | Inf(positive: bool) | Fin(r: real)

  datatype RelOp = Less | Greater | LessOrEqual | GreaterOrEqual

  datatype ArithOp = Add | Subtract | Multiply | Divide | Mod | Negative

  /** Library functions that only see their context node and converted arguments. */
  datatype LibFn =
    | LocalName | QualifiedName | NamespaceUri | StringOfNode | NumberOfNode | Concat | StartsWith | Contains
    | SubstringBefore | SubstringAfter | Substring | StringLength | NormalizeSpace | Lang | Floor | Ceiling | Round

  /** How a predicate was classified by the optimizer. */
  datatype Test = Default | PosInv | Constant | ConstantOne

  datatype Expr =
    | Or(l: Expr, r: Expr)
    | And(l: Expr, r: Expr)
    | Equal(l: Expr, r: Expr)
    | NotEqual(l: Expr, r: Expr)
    | Relation(rel: RelOp, l: Expr, r: Expr)
    | Arith(op: ArithOp, l: Expr, r: Expr)
    | Negate(l: Expr)
    | Union(l: Expr, r: Expr)
    | Filter(l: Expr, r: Expr, test: Test)
    | StringConst(s: Translation.Text)
    | NumberConst(n: Number)
    | Variable(ty: Type, name: string)
    | Last
    | Position
    | Count(l: Expr)
    | Sum(l: Expr)
    | Id(l: Expr)
    | Boolean(l: Expr)
    | Not(l: Expr)
    | TrueFn
    | FalseFn
    | ToNumber(l: Expr)
    | ToString(l: Expr)
    | Translate(l: Expr, from: Expr, to: Expr)
    | Library(fn: LibFn, args: Exprs)
    | Step(left: Left, axis: Axis, nodes: NodeTest, preds: Preds)
    | Root
    | TranslateTable(l: Expr, table: seq<nat>)
    | CompareAttribute(attr: string, r: Expr)

  /** A step starts from the context node or from another node set. */
  datatype Left = Context | From(e: Expr)

  datatype Exprs = NoArgs | Arg(head: Expr, tail: Exprs)

  datatype Preds = NoPreds | Pred(e: Expr, test: Test, next: Preds)

  function LibType(fn: LibFn): Type {
    match fn
    case NumberOfNode => TNumber
    case StringLength => TNumber
    case Floor => TNumber
    case Ceiling => TNumber
    case Round => TNumber
    case StartsWith => TBoolean
    case Contains => TBoolean
    case Lang => TBoolean
    case _ => TString
  }

  function TypeOf(e: Expr): Type {
    match e
    case Or(_, _) => TBoolean
    case And(_, _) => TBoolean
    case Equal(_, _) => TBoolean
    case NotEqual(_, _) => TBoolean
    case Relation(_, _, _) => TBoolean
    case Arith(_, _, _) => TNumber
    case Negate(_) => TNumber
    case Union(_, _) => TNodeSet
    case Filter(_, _, _) => TNodeSet
    case StringConst(_) => TString
    case NumberConst(_) => TNumber
    case Variable(ty, _) => ty
    case Last => TNumber
    case Position => TNumber
    case Count(_) => TNumber
    case Sum(_) => TNumber
    case Id(_) => TNodeSet
    case Boolean(_) => TBoolean
    case Not(_) => TBoolean
    case TrueFn => TBoolean
    case FalseFn => TBoolean
    case ToNumber(_) => TNumber
    case ToString(_) => TString
    case Translate(_, _, _) => TString
    case Library(fn, _) => LibType(fn)
    case Step(_, _, _, _) => TNodeSet
    case Root => TNodeSet
    case TranslateTable(_, _) => TString
    case CompareAttribute(_, _) => TBoolean
  }

  // ----- families of expressions

  predicate Binary(e: Expr) {
    e.Or? || e.And? || e.NotEqual? || e.Relation? || e.Arith? || e.Union?
  }

  predicate Unary(e: Expr) {
    e.Negate? || e.Count? || e.Sum? || e.Id? || e.Boolean? || e.Not? || e.ToNumber? || e.ToString?
  }

  predicate Atomic(e: Expr) {
    || e.StringConst? || e.NumberConst? || e.Variable? || e.Last? || e.Position? || e.TrueFn? || e.FalseFn? || e.Root?
  }

  // ----- position independence

  /** The value of e never looks at the context position or size. */
  predicate IsPosInv(e: Expr) {
    match e
    case Position => false
    case Last => false
    case StringConst(_) => true
    case NumberConst(_) => true
    case Variable(_, _) => true
    case Step(_, _, _, _) => true
    case Root => true
    case Filter(_, _, _) => true
    case TrueFn => true
    case FalseFn => true
    case Or(l, r) => IsPosInv(l) && IsPosInv(r)
    case And(l, r) => IsPosInv(l) && IsPosInv(r)
    case Equal(l, r) => IsPosInv(l) && IsPosInv(r)
    case NotEqual(l, r) => IsPosInv(l) && IsPosInv(r)
    case Relation(_, l, r) => IsPosInv(l) && IsPosInv(r)
    case Arith(_, l, r) => IsPosInv(l) && IsPosInv(r)
    case Union(l, r) => IsPosInv(l) && IsPosInv(r)
    case Negate(l) => IsPosInv(l)
    case Count(l) => IsPosInv(l)
    case Sum(l) => IsPosInv(l)
    case Id(l) => IsPosInv(l)
    case Boolean(l) => IsPosInv(l)
    case Not(l) => IsPosInv(l)
    case ToNumber(l) => IsPosInv(l)
    case ToString(l) => IsPosInv(l)
    case Translate(l, from, to) => IsPosInv(l) && IsPosInv(from) && IsPosInv(to)
    case Library(_, args) => ArgsPosInv(args)
    case TranslateTable(l, _) => IsPosInv(l)
    case CompareAttribute(_, r) => IsPosInv(r)
  }

  predicate ArgsPosInv(args: Exprs) {
    match args
    case NoArgs => true
    case Arg(head, tail) => IsPosInv(head) && ArgsPosInv(tail)
  }

  predicate StepPosInv(ps: Preds) {
    match ps
    case NoPreds => true
    case Pred(_, test, next) => test == PosInv && StepPosInv(next)
  }

  // ----- predicate classification

  /** A predicate whose number is the same for every node it is tried on. */
  predicate IsConstantNumber(e: Expr) {
    TypeOf(e) == TNumber && (e.NumberConst? || e.Variable? || e.Last?)
  }

  function Classify(e: Expr, current: Test): Test {
    if e.NumberConst? && e.n == Fin(1.0) then ConstantOne
    else if IsConstantNumber(e) then Constant
    else if TypeOf(e) != TNumber && IsPosInv(e) then PosInv
    else current
  }

  /** A classification that evaluation may rely on. */
  predicate TestOk(e: Expr, test: Test) {
    match test
    case Default => true
    case PosInv => TypeOf(e) != TNumber && IsPosInv(e)
    case Constant => IsConstantNumber(e)
    case ConstantOne => e == NumberConst(Fin(1.0))
  }

  /** Every predicate test inside e satisfies ok. */
  predicate TestsOk(e: Expr, ok: (Expr, Test) -> bool)
    decreases e
  {
    match e
    case Filter(l, r, test) => ok(r, test) && TestsOk(l, ok) && TestsOk(r, ok)
    case Step(left, _, _, ps) => (left.Context? || TestsOk(left.e, ok)) && PredTestsOk(ps, ok)
    case Library(_, args) => ArgTestsOk(args, ok)
    case Translate(l, from, to) => TestsOk(l, ok) && TestsOk(from, ok) && TestsOk(to, ok)
    case Or(l, r) => TestsOk(l, ok) && TestsOk(r, ok)
    case And(l, r) => TestsOk(l, ok) && TestsOk(r, ok)
    case Equal(l, r) => TestsOk(l, ok) && TestsOk(r, ok)
    case NotEqual(l, r) => TestsOk(l, ok) && TestsOk(r, ok)
    case Relation(_, l, r) => TestsOk(l, ok) && TestsOk(r, ok)
    case Arith(_, l, r) => TestsOk(l, ok) && TestsOk(r, ok)
    case Union(l, r) => TestsOk(l, ok) && TestsOk(r, ok)
    case Negate(l) => TestsOk(l, ok)
    case Count(l) => TestsOk(l, ok)
    case Sum(l) => TestsOk(l, ok)
    case Id(l) => TestsOk(l, ok)
    case Boolean(l) => TestsOk(l, ok)
    case Not(l) => TestsOk(l, ok)
    case ToNumber(l) => TestsOk(l, ok)
    case ToString(l) => TestsOk(l, ok)
    case TranslateTable(l, _) => TestsOk(l, ok)
    case CompareAttribute(_, r) => TestsOk(r, ok)
    case _ => true
  }

  predicate ArgTestsOk(args: Exprs, ok: (Expr, Test) -> bool)
    decreases args
  {
    match args
    case NoArgs => true
    case Arg(head, tail) => TestsOk(head, ok) && ArgTestsOk(tail, ok)
  }

  predicate PredTestsOk(ps: Preds, ok: (Expr, Test) -> bool)
    decreases ps
  {
    match ps
    case NoPreds => true
    case Pred(e, test, next) => ok(e, test) && TestsOk(e, ok) && PredTestsOk(next, ok)
  }

  /** As the query parser builds it: nothing classified yet. */
  predicate Fresh(e: Expr) {
    TestsOk(e, Untested)
  }

  predicate Untested(e: Expr, test: Test) {
    test == Default
  }

  predicate Classified(e: Expr) {
    TestsOk(e, TestOk)
  }

  // ----- the optimizer

  /** [position() = e] becomes [e] when e is a number. */
  function DropPosition(e: Expr): Expr {
    if e.Equal? && e.l.Position? && TypeOf(e.r) == TNumber then e.r else e
  }

  /** descendant-or-self::node()/axis::t becomes one step when no predicate counts positions. */
  function FuseStep(e: Expr): Expr
    requires e.Step?
  {
    if (e.axis == Child || e.axis == Self || e.axis == Descendant || e.axis == DescendantOrSelf)
       && e.left.From? && e.left.e.Step? && e.left.e.axis == DescendantOrSelf
       && e.left.e.nodes == TypeNode && e.left.e.preds.NoPreds? && StepPosInv(e.preds)
    then Step(e.left.e.left, FusedAxis(e.axis), e.nodes, e.preds)
    else e
  }

  /** translate() with literal maps becomes a table lookup when a table can be built. */
  function UseTable(e: Expr): Expr
    requires e.Translate?
  {
    if e.from.StringConst? && e.to.StringConst? && Translation.Generate(e.from.s, e.to.s).Some?
    then TranslateTable(e.l, Translation.Generate(e.from.s, e.to.s).table)
    else e
  }

  /** @name = 'v' and @name = $v become a direct attribute lookup. */
  function UseAttribute(e: Expr): Expr
    requires e.Equal?
  {
    if e.l.Step? && e.l.axis == Attribute && e.l.nodes.Name? && e.l.left.Context? && e.l.preds.NoPreds?
       && (e.r.StringConst? || (e.r.Variable? && e.r.ty == TString))
    then CompareAttribute(e.l.nodes.s, e.r)
    else e
  }

  function Optimize(e: Expr): Expr {
    match e
    case Or(l, r) => Or(Optimize(l), Optimize(r))
    case And(l, r) => And(Optimize(l), Optimize(r))
    case Equal(l, r) => UseAttribute(Equal(Optimize(l), Optimize(r)))
    case NotEqual(l, r) => NotEqual(Optimize(l), Optimize(r))
    case Relation(rel, l, r) => Relation(rel, Optimize(l), Optimize(r))
    case Arith(op, l, r) => Arith(op, Optimize(l), Optimize(r))
    case Negate(l) => Negate(Optimize(l))
    case Union(l, r) => Union(Optimize(l), Optimize(r))
    case Filter(l, r, test) =>
      var p := DropPosition(Optimize(r));
      Filter(Optimize(l), p, Classify(p, test))
    case Count(l) => Count(Optimize(l))
    case Sum(l) => Sum(Optimize(l))
    case Id(l) => Id(Optimize(l))
    case Boolean(l) => Boolean(Optimize(l))
    case Not(l) => Not(Optimize(l))
    case ToNumber(l) => ToNumber(Optimize(l))
    case ToString(l) => ToString(Optimize(l))
    case Translate(l, from, to) => UseTable(Translate(Optimize(l), Optimize(from), Optimize(to)))
    case Library(fn, args) => Library(fn, OptimizeArgs(args))
    case Step(left, axis, nodes, ps) =>
      FuseStep(Step(if left.Context? then Context else From(Optimize(left.e)), axis, nodes, OptimizePreds(ps)))
    case TranslateTable(l, table) => TranslateTable(Optimize(l), table)
    case CompareAttribute(attr, r) => CompareAttribute(attr, Optimize(r))
    case _ => e
  }

  function OptimizeArgs(args: Exprs): Exprs {
    match args
    case NoArgs => NoArgs
    case Arg(head, tail) => Arg(Optimize(head), OptimizeArgs(tail))
  }

  function OptimizePreds(ps: Preds): Preds {
    match ps
    case NoPreds => NoPreds
    case Pred(e, test, next) =>
      var p := DropPosition(Optimize(e));
      Pred(p, Classify(p, test), OptimizePreds(next))
  }
}
