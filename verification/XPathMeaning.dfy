/** The reference meaning of an XPath expression: node sets are plain sets, predicates are tried
    at every position, and nothing stops early, except that an attribute name may be taken to select
    only its first carrier. Predicate classifications are ignored. */
module XPathMeaning {
  import opened Sequences
  import opened Documents
  import opened Axes
  import opened XPathSyntax
  import Translation

  /** A scalar; a node stands for the node set whose first node it is, Null for the empty set. */
  datatype Atom = Node(x: XNode) | Num(n: Number) | Str(s: string) | Bool(b: bool)

  datatype Val<T> = Nodes(ns: T) | Scalar(a: Atom)

  datatype Tag = Unsorted | Sorted | SortedReverse

  /** A node set as evaluation builds it: a node array and what is known about its order. */
  datatype NodeSet = NodeSet(tag: Tag, nodes: seq<XNode>)

  type Value = Val<NodeSet>
  type Meaning = Val<set<XNode>>

  datatype Ctx = Ctx(n: XNode, pos: nat, size: nat)

  /** What evaluation depends on besides the query: the document, the variables, number
      conversion and arithmetic, the string library, and where nodes live in memory; and whether an
      attribute name selects its first carrier only, as in the engine, or all of them. */
  datatype Env = Env(
    d: Doc,
    toNumber: string -> Number,
    toText: Number -> string,
    arith: (ArithOp, Number, Number) -> Number,
    lib: (LibFn, XNode, seq<Atom>) -> Atom,
    vars: (Type, string) -> Value,
    addr: XNode -> int,
    firstOnly: bool)

  predicate HasType(v: Value, ty: Type) {
    match ty
    case TNodeSet => v.Nodes?
    case TNumber => v.Scalar? && v.a.Num?
    case TString => v.Scalar? && v.a.Str?
    case TBoolean => v.Scalar? && v.a.Bool?
  }

  /** No duplicates, and the order tag tells the truth. */
  ghost predicate Honest(d: Doc, ns: NodeSet) {
    && NoDup(ns.nodes)
    && (forall x :: x in ns.nodes ==> InDoc(d, x))
    && (ns.tag == Sorted ==> Ascending(ns.nodes))
    && (ns.tag == SortedReverse ==> Descending(ns.nodes))
  }

  /** What the engine runs in. */
  ghost predicate ValidEnv(env: Env) {
    && env.d.Valid() && env.firstOnly
    && (forall ty, name :: HasType(env.vars(ty, name), ty))
    && (forall name :: Honest(env.d, env.vars(TNodeSet, name).ns))
    && (forall fn, x, args :: HasType(Scalar(env.lib(fn, x, args)), LibType(fn)))
    && (forall x, y :: x != y ==> env.addr(x) != env.addr(y))
  }

  // ----- scalars

  function Plus(a: Number, b: Number): Number {
    match (a, b)
    case (NaN, _) => NaN
    case (_, NaN) => NaN
    case (Fin(x), Fin(y)) => Fin(x + y)
    case (Inf(p), Inf(q)) => if p == q then a else NaN
    case (Inf(_), Fin(_)) => a
    case (Fin(_), Inf(_)) => b
  }

  predicate NumEq(a: Number, b: Number) {
    a != NaN && a == b
  }

  predicate NumLess(a: Number, b: Number) {
    match (a, b)
    case (Fin(x), Fin(y)) => x < y
    case (Inf(p), Fin(_)) => !p
    case (Fin(_), Inf(q)) => q
    case (Inf(p), Inf(q)) => !p && q
    case _ => false
  }

  function Calculate(env: Env, op: ArithOp, a: Number, b: Number): Number {
    if op == Add then Plus(a, b) else env.arith(op, a, b)
  }

  /** Concatenated text of the nodes in [i, j). */
  function TextBetween(d: Doc, i: nat, j: nat): string
    requires |d.kind| == |d.value| && j <= |d.kind|
    decreases j - i
  {
    if i >= j then ""
    else (if d.kind[i] == PcData || d.kind[i] == CData then d.value[i] else "") + TextBetween(d, i + 1, j)
  }

  function StringValue(d: Doc, x: XNode): string {
    match x
    case A(i, k) => if i < |d.attrs| && k < |d.attrs[i]| then d.attrs[i][k].value else ""
    case N(i) =>
      if i < |d.kind| && |d.kind| == |d.value| == |d.end| && d.end[i] <= |d.kind| then
        match d.kind[i]
        case PcData => d.value[i]
        case CData => d.value[i]
        case Comment => d.value[i]
        case Instruction => d.value[i]
        case Document => TextBetween(d, i + 1, if d.end[i] < 0 then 0 else d.end[i])
        case Element => TextBetween(d, i + 1, if d.end[i] < 0 then 0 else d.end[i])
        case _ => ""
      else ""
    case Null => ""
  }

  function ToBool(a: Atom): bool {
    match a
    case Node(x) => x != Null
    case Num(n) => n != NaN && n != Fin(0.0)
    case Str(s) => s != ""
    case Bool(b) => b
  }

  function ToStr(env: Env, a: Atom): string {
    match a
    case Node(x) => StringValue(env.d, x)
    case Num(n) => env.toText(n)
    case Str(s) => s
    case Bool(b) => if b then "true" else "false"
  }

  function ToNum(env: Env, a: Atom): Number {
    match a
    case Node(x) => env.toNumber(StringValue(env.d, x))
    case Num(n) => n
    case Str(s) => env.toNumber(s)
    case Bool(b) => Fin(if b then 1.0 else 0.0)
  }

  function NodeNumber(env: Env, x: XNode): Number {
    env.toNumber(StringValue(env.d, x))
  }

  // ----- comparisons

  function Compare(env: Env, negated: bool, a: Atom, b: Atom): bool {
    if a.Bool? || b.Bool? then (ToBool(a) == ToBool(b)) != negated
    else if a.Num? || b.Num? then NumEq(ToNum(env, a), ToNum(env, b)) != negated
    else (ToStr(env, a) == ToStr(env, b)) != negated
  }

  /** = and !=: true when some choice of nodes makes it true. */
  predicate CompareEq(env: Env, negated: bool, l: Meaning, r: Meaning) {
    match (l, r)
    case (Scalar(a), Scalar(b)) => Compare(env, negated, a, b)
    case (Nodes(S), Nodes(T)) =>
      exists x, y :: x in S && y in T && (StringValue(env.d, x) == StringValue(env.d, y)) != negated
    case (Scalar(a), Nodes(T)) => CompareAtomSet(env, negated, a, T)
    case (Nodes(S), Scalar(b)) => CompareAtomSet(env, negated, b, S)
  }

  predicate CompareAtomSet(env: Env, negated: bool, a: Atom, T: set<XNode>) {
    match a
    case Bool(b) => (b == (T != {})) != negated
    case Num(n) => exists y :: y in T && NumEq(n, NodeNumber(env, y)) != negated
    case _ => exists y :: y in T && (ToStr(env, a) == StringValue(env.d, y)) != negated
  }

  predicate Related(strict: bool, a: Number, b: Number) {
    NumLess(a, b) || (!strict && NumEq(a, b))
  }

  /** < and <=, on numbers; node sets again by some choice of nodes. */
  predicate CompareRel(env: Env, strict: bool, l: Meaning, r: Meaning) {
    match (l, r)
    case (Scalar(a), Scalar(b)) => Related(strict, ToNum(env, a), ToNum(env, b))
    case (Nodes(S), Nodes(T)) =>
      exists x, y :: x in S && y in T && Related(strict, NodeNumber(env, x), NodeNumber(env, y))
    case (Scalar(a), Nodes(T)) => exists y :: y in T && Related(strict, ToNum(env, a), NodeNumber(env, y))
    case (Nodes(S), Scalar(b)) => exists x :: x in S && Related(strict, NodeNumber(env, x), ToNum(env, b))
  }

  /** > and >= are < and <= with the operands exchanged. */
  predicate CompareRelation(env: Env, rel: RelOp, l: Meaning, r: Meaning) {
    match rel
    case Less => CompareRel(env, true, l, r)
    case LessOrEqual => CompareRel(env, false, l, r)
    case Greater => CompareRel(env, true, r, l)
    case GreaterOrEqual => CompareRel(env, false, r, l)
  }

  // ----- node sets

  function SumOf(env: Env, s: seq<XNode>): Number {
    if s == [] then Fin(0.0) else Plus(SumOf(env, s[..|s| - 1]), NodeNumber(env, s[|s| - 1]))
  }

  function AsSet(m: Meaning): set<XNode> {
    if m.Nodes? then m.ns else {}
  }

  /** The scalar view of a result: a node set is seen through its first node. */
  function View(d: Doc, m: Meaning): Atom {
    match m
    case Scalar(a) => a
    case Nodes(S) => var s := Listing(d, S); Node(if s == [] then Null else s[0])
  }

  /** What a step selects from one node. */
  function Selected(env: Env, axis: Axis, test: NodeTest, x: XNode): seq<XNode> {
    Stop(StepNodes(env.d, axis, test, x), env.firstOnly && axis == Attribute && test.Name?)
  }

  /** How a library function takes its i-th argument. */
  function Coerce(env: Env, fn: LibFn, i: nat, a: Atom): Atom {
    match fn
    case LocalName => a
    case QualifiedName => a
    case NamespaceUri => a
    case Floor => Num(ToNum(env, a))
    case Ceiling => Num(ToNum(env, a))
    case Round => Num(ToNum(env, a))
    case Substring => if i == 0 then Str(ToStr(env, a)) else Num(ToNum(env, a))
    case _ => Str(ToStr(env, a))
  }

  /** A predicate value at a position: a number selects that position. */
  predicate Passes(env: Env, e: Expr, a: Atom, pos: nat) {
    if TypeOf(e) == TNumber then NumEq(ToNum(env, a), Fin(pos as real)) else ToBool(a)
  }

  function FirstAttribute(attrs: seq<Attr>, name: string): (k: nat)
    ensures k <= |attrs|
    ensures k < |attrs| ==> attrs[k].name == name
    ensures forall i :: 0 <= i < k ==> attrs[i].name != name
  {
    if attrs == [] then 0 else if attrs[0].name == name then 0 else 1 + FirstAttribute(attrs[1..], name)
  }

  /** Direct attribute lookup on the context element. */
  predicate AttributeIs(d: Doc, x: XNode, name: string, value: string) {
    && x.N? && x.i < |d.attrs|
    && var k := FirstAttribute(d.attrs[x.i], name);
    && k < |d.attrs[x.i]| && d.attrs[x.i][k].value == value && IsXPathAttribute(name)
  }

  function RootOf(d: Doc, x: XNode): set<XNode> {
    if x == Null then {} else {N(0)}
  }

  // ----- the meaning

  function Denote(env: Env, e: Expr, c: Ctx): Meaning
    decreases e, 0
  {
    match e
    case Or(l, r) =>
      Scalar(Bool(ToBool(View(env.d, Denote(env, l, c))) || ToBool(View(env.d, Denote(env, r, c)))))
    case And(l, r) =>
      Scalar(Bool(ToBool(View(env.d, Denote(env, l, c))) && ToBool(View(env.d, Denote(env, r, c)))))
    case Equal(l, r) => Scalar(Bool(CompareEq(env, false, Denote(env, l, c), Denote(env, r, c))))
    case NotEqual(l, r) => Scalar(Bool(CompareEq(env, true, Denote(env, l, c), Denote(env, r, c))))
    case Relation(rel, l, r) => Scalar(Bool(CompareRelation(env, rel, Denote(env, l, c), Denote(env, r, c))))
    case Arith(op, l, r) =>
      Scalar(Num(Calculate(env, op, ToNum(env, View(env.d, Denote(env, l, c))), ToNum(env, View(env.d, Denote(env, r, c))))))
    case Negate(l) =>
      var n := ToNum(env, View(env.d, Denote(env, l, c)));
      Scalar(Num(Calculate(env, Negative, n, n)))
    case Union(l, r) => Nodes(AsSet(Denote(env, l, c)) + AsSet(Denote(env, r, c)))
    case Filter(l, r, _) =>
      var s := Listing(env.d, AsSet(Denote(env, l, c)));
      Nodes(Elems(Pick(s, Truths(env, r, s))))
    case StringConst(s) => Scalar(Str(s))
    case NumberConst(n) => Scalar(Num(n))
    case Variable(ty, name) => Abstract(env.vars(ty, name))
    case Last => Scalar(Num(Fin(c.size as real)))
    case Position => Scalar(Num(Fin(c.pos as real)))
    case Count(l) => Scalar(Num(Fin(|AsSet(Denote(env, l, c))| as real)))
    case Sum(l) => Scalar(Num(SumOf(env, Listing(env.d, AsSet(Denote(env, l, c))))))
    case Id(_) => Nodes({})
    case Boolean(l) => Scalar(Bool(ToBool(View(env.d, Denote(env, l, c)))))
    case Not(l) => Scalar(Bool(!ToBool(View(env.d, Denote(env, l, c)))))
    case TrueFn => Scalar(Bool(true))
    case FalseFn => Scalar(Bool(false))
    case ToNumber(l) => Scalar(Num(ToNum(env, View(env.d, Denote(env, l, c)))))
    case ToString(l) => Scalar(Str(ToStr(env, View(env.d, Denote(env, l, c)))))
    case Translate(l, from, to) =>
      Scalar(Str(Translation.Translate(ToStr(env, View(env.d, Denote(env, l, c))),
                                       ToStr(env, View(env.d, Denote(env, from, c))),
                                       ToStr(env, View(env.d, Denote(env, to, c))))))
    case Library(fn, args) => Scalar(env.lib(fn, c.n, DenoteArgs(env, fn, 0, args, c)))
    case Step(left, axis, nodes, ps) =>
      var from := match left case Context => {c.n} case From(e') => AsSet(Denote(env, e', c));
      Nodes(set x, y | x in from && y in Surviving(env, ps, Selected(env, axis, nodes, x)) :: y)
    case Root => Nodes(RootOf(env.d, c.n))
    case TranslateTable(l, table) =>
      Scalar(Str(Translation.TranslateByTable(ToStr(env, View(env.d, Denote(env, l, c))), table)))
    case CompareAttribute(attr, r) =>
      Scalar(Bool(AttributeIs(env.d, c.n, attr, ToStr(env, View(env.d, Denote(env, r, c))))))
  }

  function Abstract(v: Value): Meaning {
    match v
    case Nodes(ns) => Nodes(Elems(ns.nodes))
    case Scalar(a) => Scalar(a)
  }

  function DenoteArgs(env: Env, fn: LibFn, i: nat, args: Exprs, c: Ctx): seq<Atom>
    decreases args, 0
  {
    match args
    case NoArgs => []
    case Arg(head, tail) =>
      [Coerce(env, fn, i, View(env.d, Denote(env, head, c)))] + DenoteArgs(env, fn, i + 1, tail, c)
  }

  /** Which members of s pass predicate e, each tried at its own position. */
  function Truths(env: Env, e: Expr, s: seq<XNode>): (keep: seq<bool>)
    ensures |keep| == |s|
    decreases e, 1
  {
    seq(|s|, i requires 0 <= i < |s| =>
      Passes(env, e, View(env.d, Denote(env, e, Ctx(s[i], i + 1, |s|))), i + 1))
  }

  function Surviving(env: Env, ps: Preds, s: seq<XNode>): seq<XNode>
    decreases ps, 0
  {
    match ps
    case NoPreds => s
    case Pred(e, _, next) => Surviving(env, next, Pick(s, Truths(env, e, s)))
  }
}
