/** What evaluation computes, in the terms of section 3 and 4 of XPath 1.0: conversions, comparisons, arithmetic,
    predicates and string-values, stated of the results a caller sees. */
module XPathLaws {
  import opened Sequences
  import opened Documents
  import opened Axes
  import opened XPathSyntax
  import opened XPathMeaning
  import opened XPathEval
  import opened NodeSetFacts
  import opened XPathRefinement
  import opened XPathResults
  import XPathOptimizer
  import Translation

  ghost predicate Ready(env: Env, e: Expr, c: Ctx) {
    ValidEnv(env) && Classified(e) && ValidCtx(env.d, c)
  }

  /** The value of a query, all of it. */
  function Value(env: Env, e: Expr, c: Ctx): Value {
    Eval(env, e, c, All)
  }

  /** Static types are right in every mode, and scalars do not depend on the mode. */
  lemma Typed(env: Env, e: Expr, c: Ctx, mode: Mode)
    requires Ready(env, e, c)
    ensures HasType(Eval(env, e, c, mode), TypeOf(e))
    ensures TypeOf(e) != TNodeSet ==> Eval(env, e, c, mode) == Value(env, e, c)
  {
    hide Eval, Denote, Classified, ValidEnv, Covers;
    EvalRefines(env, e, c, mode);
    EvalRefines(env, e, c, All);
    XPathOptimizer.DenoteTyped(env, e, c);
  }

  // ----- conversions

  /** boolean(): numbers other than zero and NaN, nonempty strings and node sets are true. */
  lemma BooleanLaw(env: Env, e: Expr, c: Ctx)
    requires Ready(env, e, c)
    ensures HasType(Value(env, e, c), TypeOf(e))
    ensures TypeOf(e) == TBoolean ==> BooleanResult(env, e, c) == Value(env, e, c).a.b
    ensures TypeOf(e) == TNumber ==>
              (BooleanResult(env, e, c) <==> Value(env, e, c).a.n != NaN && Value(env, e, c).a.n != Fin(0.0))
    ensures TypeOf(e) == TString ==> (BooleanResult(env, e, c) <==> |Value(env, e, c).a.s| > 0)
    ensures TypeOf(e) == TNodeSet ==> (BooleanResult(env, e, c) <==> |Value(env, e, c).ns.nodes| > 0)
  {
    hide Eval, Classified, ValidEnv;
    Typed(env, e, c, Any);
    Typed(env, e, c, All);
    if TypeOf(e) == TNodeSet {
      EarlyStoppingAgrees(env, e, c);
      FirstThere(env, e, c);
    }
  }

  /** A nonempty array has a first node. */
  lemma FirstThere(env: Env, e: Expr, c: Ctx)
    requires Ready(env, e, c) && TypeOf(e) == TNodeSet
    ensures var ns := AsNodeSet(Eval(env, e, c, Any)); FirstNode(ns) != Null <==> ns.nodes != []
  {
    hide Eval, Classified, ValidEnv;
    ResultsHonest(env, e, c, Any);
    var ns := AsNodeSet(Eval(env, e, c, Any));
    if ns.nodes != [] {
      FirstNodeLeast(env.d, ns);
    }
  }

  /** The first node of a node set in document order. */
  lemma FirstLaw(env: Env, e: Expr, c: Ctx)
    requires Ready(env, e, c) && TypeOf(e) == TNodeSet
    ensures HasType(Value(env, e, c), TNodeSet)
    ensures Value(env, e, c).ns.nodes == [] ==> SingleNodeResult(env, e, c) == Null
    ensures Value(env, e, c).ns.nodes != [] ==> IsLeast(SingleNodeResult(env, e, c), Elems(Value(env, e, c).ns.nodes))
    ensures Look(Eval(env, e, c, First)) == Node(SingleNodeResult(env, e, c))
  {
    hide Eval, Classified, ValidEnv, IsLeast;
    Typed(env, e, c, All);
    Typed(env, e, c, First);
    EarlyStoppingAgrees(env, e, c);
    ResultsHonest(env, e, c, All);
    var ns := AsNodeSet(Eval(env, e, c, All));
    if ns.nodes != [] {
      FirstNodeLeast(env.d, ns);
    }
  }

  /** number(): booleans are one and zero, a node set is its first node's string-value. */
  lemma NumberLaw(env: Env, e: Expr, c: Ctx)
    requires Ready(env, e, c)
    ensures HasType(Value(env, e, c), TypeOf(e))
    ensures TypeOf(e) == TBoolean ==> NumberResult(env, e, c) == if Value(env, e, c).a.b then Fin(1.0) else Fin(0.0)
    ensures TypeOf(e) == TNumber ==> NumberResult(env, e, c) == Value(env, e, c).a.n
    ensures TypeOf(e) == TString ==> NumberResult(env, e, c) == env.toNumber(Value(env, e, c).a.s)
    ensures TypeOf(e) == TNodeSet ==> NumberResult(env, e, c) == env.toNumber(StringResult(env, e, c))
  {
    hide Eval, Classified, ValidEnv, IsLeast;
    Typed(env, e, c, First);
    Typed(env, e, c, All);
  }

  /** string(): booleans are spelt out, a node set is its first node's string-value, or nothing. */
  lemma StringLaw(env: Env, e: Expr, c: Ctx)
    requires Ready(env, e, c)
    ensures HasType(Value(env, e, c), TypeOf(e))
    ensures TypeOf(e) == TBoolean ==> StringResult(env, e, c) == if Value(env, e, c).a.b then "true" else "false"
    ensures TypeOf(e) == TNumber ==> StringResult(env, e, c) == env.toText(Value(env, e, c).a.n)
    ensures TypeOf(e) == TString ==> StringResult(env, e, c) == Value(env, e, c).a.s
    ensures TypeOf(e) == TNodeSet ==>
              StringResult(env, e, c) ==
              if Value(env, e, c).ns.nodes == [] then "" else StringValue(env.d, SingleNodeResult(env, e, c))
  {
    hide Eval, Classified, ValidEnv, IsLeast;
    Typed(env, e, c, First);
    Typed(env, e, c, All);
    if TypeOf(e) == TNodeSet {
      FirstLaw(env, e, c);
    }
  }

  // ----- logic

  lemma LogicLaws(env: Env, l: Expr, r: Expr, c: Ctx)
    ensures BooleanResult(env, Or(l, r), c) <==> BooleanResult(env, l, c) || BooleanResult(env, r, c)
    ensures BooleanResult(env, And(l, r), c) <==> BooleanResult(env, l, c) && BooleanResult(env, r, c)
    ensures BooleanResult(env, Not(l), c) <==> !BooleanResult(env, l, c)
    ensures BooleanResult(env, Boolean(l), c) <==> BooleanResult(env, l, c)
    ensures BooleanResult(env, TrueFn, c) && !BooleanResult(env, FalseFn, c)
    ensures NumberResult(env, ToNumber(l), c) == NumberResult(env, l, c)
    ensures StringResult(env, ToString(l), c) == StringResult(env, l, c)
  {
    hide BooleanResult, NumberResult, StringResult;
    OrAnd(env, l, r, c);
    Unaries(env, l, c);
  }

  lemma OrAnd(env: Env, l: Expr, r: Expr, c: Ctx)
    ensures BooleanResult(env, Or(l, r), c) <==> BooleanResult(env, l, c) || BooleanResult(env, r, c)
    ensures BooleanResult(env, And(l, r), c) <==> BooleanResult(env, l, c) && BooleanResult(env, r, c)
  {
    var bl, br := BooleanResult(env, l, c), BooleanResult(env, r, c);
    assert Eval(env, Or(l, r), c, Any) == Scalar(Bool(bl || br));
    assert Eval(env, And(l, r), c, Any) == Scalar(Bool(bl && br));
  }

  lemma Unaries(env: Env, l: Expr, c: Ctx)
    ensures BooleanResult(env, Not(l), c) <==> !BooleanResult(env, l, c)
    ensures BooleanResult(env, Boolean(l), c) <==> BooleanResult(env, l, c)
    ensures BooleanResult(env, TrueFn, c) && !BooleanResult(env, FalseFn, c)
    ensures NumberResult(env, ToNumber(l), c) == NumberResult(env, l, c)
    ensures StringResult(env, ToString(l), c) == StringResult(env, l, c)
  {
    hide ToBool, ToNum, ToStr, Look;
    NotIs(env, l, c);
    BooleanIs(env, l, c);
    ConstantsAre(env, c);
    NumberIs(env, l, c);
    StringIs(env, l, c);
  }

  lemma NotIs(env: Env, l: Expr, c: Ctx)
    ensures BooleanResult(env, Not(l), c) <==> !BooleanResult(env, l, c)
  {
    assert Eval(env, Not(l), c, Any) == Scalar(Bool(!BooleanResult(env, l, c)));
  }

  lemma BooleanIs(env: Env, l: Expr, c: Ctx)
    ensures BooleanResult(env, Boolean(l), c) <==> BooleanResult(env, l, c)
  {
    assert Eval(env, Boolean(l), c, Any) == Scalar(Bool(BooleanResult(env, l, c)));
  }

  lemma ConstantsAre(env: Env, c: Ctx)
    ensures BooleanResult(env, TrueFn, c) && !BooleanResult(env, FalseFn, c)
  {
    assert Eval(env, TrueFn, c, Any) == Scalar(Bool(true)) && Eval(env, FalseFn, c, Any) == Scalar(Bool(false));
  }

  lemma NumberIs(env: Env, l: Expr, c: Ctx)
    ensures NumberResult(env, ToNumber(l), c) == NumberResult(env, l, c)
  {
    assert Eval(env, ToNumber(l), c, First) == Scalar(Num(NumberResult(env, l, c)));
  }

  lemma StringIs(env: Env, l: Expr, c: Ctx)
    ensures StringResult(env, ToString(l), c) == StringResult(env, l, c)
  {
    assert Eval(env, ToString(l), c, First) == Scalar(Str(StringResult(env, l, c)));
  }

  // ----- comparisons

  /** The order of numbers: minus infinity, the reals, infinity; NaN stands in no order. */
  predicate Lower(a: Number, b: Number) {
    && a != NaN && b != NaN && a != b
    && (a == Inf(false) || b == Inf(true) || (a.Fin? && b.Fin? && a.r < b.r))
  }

  predicate Same(a: Number, b: Number) {
    a == b && a != NaN
  }

  predicate Ordered(rel: RelOp, a: Number, b: Number) {
    match rel
    case Less => Lower(a, b)
    case Greater => Lower(b, a)
    case LessOrEqual => Lower(a, b) || Same(a, b)
    case GreaterOrEqual => Lower(b, a) || Same(a, b)
  }

  /** The numbers an operand offers: those of its nodes' string-values, or its own. */
  ghost function NumbersOf(env: Env, e: Expr, c: Ctx): set<Number> {
    if TypeOf(e) == TNodeSet then set x | x in AsNodeSet(Value(env, e, c)).nodes :: env.toNumber(StringValue(env.d, x))
    else {NumberResult(env, e, c)}
  }

  ghost function StringsOf(env: Env, e: Expr, c: Ctx): set<string> {
    if TypeOf(e) == TNodeSet then set x | x in AsNodeSet(Value(env, e, c)).nodes :: StringValue(env.d, x)
    else {StringResult(env, e, c)}
  }

  lemma RelatedIs(a: Number, b: Number)
    ensures NumLess(a, b) <==> Lower(a, b)
    ensures NumEq(a, b) <==> Same(a, b)
  {
  }

  ghost function NumbersIn(env: Env, m: Meaning): set<Number> {
    if m.Nodes? then set x | x in m.ns :: NodeNumber(env, x) else {ToNum(env, m.a)}
  }

  ghost function StringsIn(env: Env, m: Meaning): set<string> {
    if m.Nodes? then set x | x in m.ns :: StringValue(env.d, x) else {ToStr(env, m.a)}
  }

  /** What an operand offers, as comparisons find it. */
  lemma Offers(env: Env, e: Expr, c: Ctx)
    requires Ready(env, e, c)
    ensures NumbersOf(env, e, c) == NumbersIn(env, Abstract(Value(env, e, c)))
    ensures StringsOf(env, e, c) == StringsIn(env, Abstract(Value(env, e, c)))
    ensures HasType(Value(env, e, c), TypeOf(e))
  {
    hide Eval, Classified, ValidEnv, StringValue;
    Typed(env, e, c, All);
    Typed(env, e, c, First);
    if TypeOf(e) == TNodeSet {
      var ns, S := AsNodeSet(Value(env, e, c)).nodes, Abstract(Value(env, e, c)).ns;
      assert forall x :: x in ns <==> x in S;
    }
  }

  lemma RelMeans(env: Env, strict: bool, m: Meaning, n: Meaning)
    ensures CompareRel(env, strict, m, n) <==>
            exists a, b :: a in NumbersIn(env, m) && b in NumbersIn(env, n) && (Lower(a, b) || (!strict && Same(a, b)))
  {
    hide StringValue, NumLess, NumEq, ToNum, NodeNumber, Lower, Same;
    forall a, b ensures Related(strict, a, b) == (Lower(a, b) || (!strict && Same(a, b))) {
      RelatedIs(a, b);
    }
    if m.Scalar? && n.Scalar? {
      assert ToNum(env, m.a) in NumbersIn(env, m) && ToNum(env, n.a) in NumbersIn(env, n);
    } else if m.Scalar? {
      if y :| y in n.ns && Related(strict, ToNum(env, m.a), NodeNumber(env, y)) {
        assert ToNum(env, m.a) in NumbersIn(env, m) && NodeNumber(env, y) in NumbersIn(env, n);
      }
    } else if n.Scalar? {
      if x :| x in m.ns && Related(strict, NodeNumber(env, x), ToNum(env, n.a)) {
        assert NodeNumber(env, x) in NumbersIn(env, m) && ToNum(env, n.a) in NumbersIn(env, n);
      }
    } else {
      if x, y :| x in m.ns && y in n.ns && Related(strict, NodeNumber(env, x), NodeNumber(env, y)) {
        assert NodeNumber(env, x) in NumbersIn(env, m) && NodeNumber(env, y) in NumbersIn(env, n);
      }
    }
  }

  /** Relational operators: true exactly if numbers the operands offer stand in the order. */
  lemma RelationLaw(env: Env, rel: RelOp, l: Expr, r: Expr, c: Ctx)
    requires Ready(env, l, c) && Ready(env, r, c)
    ensures BooleanResult(env, Relation(rel, l, r), c) <==> SomeOrdered(rel, NumbersOf(env, l, c), NumbersOf(env, r, c))
  {
    hide *;
    RelationEval(env, rel, l, r, c);
    Offers(env, l, c);
    Offers(env, r, c);
    RelationMeans(env, rel, Abstract(Value(env, l, c)), Abstract(Value(env, r, c)));
  }

  ghost predicate SomeOrdered(rel: RelOp, A: set<Number>, B: set<Number>) {
    exists a, b :: a in A && b in B && Ordered(rel, a, b)
  }

  lemma RelationMeans(env: Env, rel: RelOp, m: Meaning, n: Meaning)
    ensures CompareRelation(env, rel, m, n) <==> SomeOrdered(rel, NumbersIn(env, m), NumbersIn(env, n))
  {
    hide NumbersIn, CompareRel, Lower;
    RelMeans(env, rel == Less || rel == Greater, m, n);
    RelMeans(env, rel == Less || rel == Greater, n, m);
  }

  lemma RelationEval(env: Env, rel: RelOp, l: Expr, r: Expr, c: Ctx)
    ensures BooleanResult(env, Relation(rel, l, r), c) ==
            CompareRelation(env, rel, Abstract(Value(env, l, c)), Abstract(Value(env, r, c)))
  {
    hide CompareRelation;
    assert Eval(env, Relation(rel, l, r), c, Any) ==
           Scalar(Bool(CompareRelation(env, rel, Abstract(Value(env, l, c)), Abstract(Value(env, r, c)))));
  }

  /** Between constants, without further ado. */
  lemma NumbersCompare(env: Env, rel: RelOp, a: Number, b: Number, c: Ctx, mode: Mode)
    ensures Eval(env, Relation(rel, NumberConst(a), NumberConst(b)), c, mode) == Scalar(Bool(Ordered(rel, a, b)))
    ensures a == NaN || b == NaN ==> !Ordered(rel, a, b)
    ensures a.Fin? && b.Fin? ==>
              (Ordered(rel, a, b) <==>
               match rel
               case Less => a.r < b.r
               case Greater => a.r > b.r
               case LessOrEqual => a.r <= b.r
               case GreaterOrEqual => a.r >= b.r)
  {
    RelatedIs(a, b);
    RelatedIs(b, a);
    SameBack(a, b);
    hide NumLess, NumEq;
    assert Eval(env, NumberConst(a), c, All) == Scalar(Num(a)) && Eval(env, NumberConst(b), c, All) == Scalar(Num(b));
  }

  // ----- equality

  /** = and !=: booleans compare as booleans; else, if one operand is a number, numbers the operands offer; else strings.
      != asks for a choice that differs. */
  ghost predicate Equals(env: Env, differ: bool, l: Expr, r: Expr, c: Ctx) {
    if TypeOf(l) == TBoolean || TypeOf(r) == TBoolean then (BooleanResult(env, l, c) == BooleanResult(env, r, c)) != differ
    else if TypeOf(l) == TNumber || TypeOf(r) == TNumber then SomeSame(NumbersOf(env, l, c), NumbersOf(env, r, c), differ)
    else SomeEqual(StringsOf(env, l, c), StringsOf(env, r, c), differ)
  }

  ghost predicate SomeSame(A: set<Number>, B: set<Number>, differ: bool) {
    exists a, b :: a in A && b in B && Same(a, b) != differ
  }

  ghost predicate SomeEqual(S: set<string>, T: set<string>, differ: bool) {
    exists s, t :: s in S && t in T && (s == t) != differ
  }

  lemma EqualLaw(env: Env, l: Expr, r: Expr, c: Ctx)
    requires Ready(env, l, c) && Ready(env, r, c)
    ensures BooleanResult(env, Equal(l, r), c) <==> Equals(env, false, l, r, c)
    ensures BooleanResult(env, NotEqual(l, r), c) <==> Equals(env, true, l, r, c)
  {
    hide Equals, CompareEq, ValidEnv, Classified, Eval, BooleanResult;
    EqualEval(env, l, r, c);
    EqMeans(env, false, l, r, c);
    EqMeans(env, true, l, r, c);
  }

  /** The operands as = evaluates them. */
  function Operand(env: Env, e: Expr, other: Expr, c: Ctx): Meaning {
    Abstract(Eval(env, e, c, OperandMode(TypeOf(other))))
  }

  lemma EqualEval(env: Env, l: Expr, r: Expr, c: Ctx)
    ensures BooleanResult(env, Equal(l, r), c) == CompareEq(env, false, Operand(env, l, r, c), Operand(env, r, l, c))
    ensures BooleanResult(env, NotEqual(l, r), c) == CompareEq(env, true, Operand(env, l, r, c), Operand(env, r, l, c))
  {
    hide CompareEq;
    assert Eval(env, Equal(l, r), c, Any) ==
           Scalar(Bool(CompareEq(env, false, Operand(env, l, r, c), Operand(env, r, l, c))));
    assert Eval(env, NotEqual(l, r), c, Any) ==
           Scalar(Bool(CompareEq(env, true, Operand(env, l, r, c), Operand(env, r, l, c))));
  }

  /** An operand against a boolean shows its truth; against anything else, its whole value. */
  lemma OperandIs(env: Env, e: Expr, other: Expr, c: Ctx)
    requires Ready(env, e, c)
    ensures TypeOf(other) != TBoolean ==> Operand(env, e, other, c) == Abstract(Value(env, e, c))
    ensures XPathOptimizer.MeaningHasType(Operand(env, e, other, c), TypeOf(e))
    ensures TypeOf(e) == TNodeSet ==> (Operand(env, e, other, c).ns != {} <==> BooleanResult(env, e, c))
    ensures TypeOf(e) != TNodeSet ==> Operand(env, e, other, c) == Abstract(Value(env, e, c))
    ensures TypeOf(e) != TNodeSet ==> ToBool(Operand(env, e, other, c).a) == BooleanResult(env, e, c)
  {
    hide Eval, Classified, ValidEnv;
    Typed(env, e, c, Any);
    Typed(env, e, c, All);
    if TypeOf(e) == TNodeSet {
      EarlyStoppingAgrees(env, e, c);
      FirstThere(env, e, c);
      ElemsEmpty(AsNodeSet(Eval(env, e, c, Any)).nodes);
      ElemsEmpty(AsNodeSet(Eval(env, e, c, All)).nodes);
    }
  }

  lemma EqMeans(env: Env, differ: bool, l: Expr, r: Expr, c: Ctx)
    requires Ready(env, l, c) && Ready(env, r, c)
    ensures CompareEq(env, differ, Operand(env, l, r, c), Operand(env, r, l, c)) <==> Equals(env, differ, l, r, c)
  {
    hide *;
    OperandIs(env, l, r, c);
    OperandIs(env, r, l, c);
    Offers(env, l, c);
    Offers(env, r, c);
    var m, n, lt, rt := Operand(env, l, r, c), Operand(env, r, l, c), TypeOf(l), TypeOf(r);
    EqBooleans(env, differ, m, n, lt, rt);
    EqNumbers(env, differ, m, n, lt, rt);
    EqStrings(env, differ, m, n, lt, rt);
    TruthIs(m, lt);
    TruthIs(n, rt);
    EqualsIs(env, differ, l, r, c);
  }

  lemma EqualsIs(env: Env, differ: bool, l: Expr, r: Expr, c: Ctx)
    ensures Equals(env, differ, l, r, c) <==>
            if TypeOf(l) == TBoolean || TypeOf(r) == TBoolean then (BooleanResult(env, l, c) == BooleanResult(env, r, c)) != differ
            else if TypeOf(l) == TNumber || TypeOf(r) == TNumber then SomeSame(NumbersOf(env, l, c), NumbersOf(env, r, c), differ)
            else SomeEqual(StringsOf(env, l, c), StringsOf(env, r, c), differ)
  {
    hide SomeSame, SomeEqual, NumbersOf, StringsOf, BooleanResult, TypeOf;
  }

  lemma TruthIs(m: Meaning, ty: Type)
    requires XPathOptimizer.MeaningHasType(m, ty)
    ensures if ty == TNodeSet then Truth(m) == (m.ns != {}) else Truth(m) == ToBool(m.a)
    ensures m.Nodes? <==> ty == TNodeSet
  {
  }

  function Truth(m: Meaning): bool {
    if m.Nodes? then m.ns != {} else ToBool(m.a)
  }

  lemma EqBooleans(env: Env, differ: bool, m: Meaning, n: Meaning, lt: Type, rt: Type)
    requires XPathOptimizer.MeaningHasType(m, lt) && XPathOptimizer.MeaningHasType(n, rt)
    ensures lt == TBoolean || rt == TBoolean ==> (CompareEq(env, differ, m, n) <==> (Truth(m) == Truth(n)) != differ)
  {
    hide ToNum, ToStr, StringValue;
  }

  lemma EqNumbers(env: Env, differ: bool, m: Meaning, n: Meaning, lt: Type, rt: Type)
    requires XPathOptimizer.MeaningHasType(m, lt) && XPathOptimizer.MeaningHasType(n, rt)
    ensures lt != TBoolean && rt != TBoolean && (lt == TNumber || rt == TNumber) ==>
              (CompareEq(env, differ, m, n) <==> SomeSame(NumbersIn(env, m), NumbersIn(env, n), differ))
  {
    hide StringValue, ToBool, ToStr, Same, NumEq;
    if lt != TBoolean && rt != TBoolean && (lt == TNumber || rt == TNumber) {
      forall a, b ensures NumEq(a, b) == Same(a, b) == Same(b, a) {
        RelatedIs(a, b);
        SameBack(a, b);
      }
      if m.Scalar? && n.Scalar? {
        assert ToNum(env, m.a) in NumbersIn(env, m) && ToNum(env, n.a) in NumbersIn(env, n);
      } else if m.Scalar? {
        if y :| y in n.ns && NumEq(m.a.n, NodeNumber(env, y)) != differ {
          assert m.a.n in NumbersIn(env, m) && NodeNumber(env, y) in NumbersIn(env, n);
        }
      } else {
        if x :| x in m.ns && NumEq(n.a.n, NodeNumber(env, x)) != differ {
          assert NodeNumber(env, x) in NumbersIn(env, m) && n.a.n in NumbersIn(env, n);
        }
      }
    }
  }

  lemma SameBack(a: Number, b: Number)
    ensures Same(a, b) == Same(b, a)
  {
  }

  lemma EqStrings(env: Env, differ: bool, m: Meaning, n: Meaning, lt: Type, rt: Type)
    requires XPathOptimizer.MeaningHasType(m, lt) && XPathOptimizer.MeaningHasType(n, rt)
    ensures lt != TBoolean && rt != TBoolean && lt != TNumber && rt != TNumber ==>
              (CompareEq(env, differ, m, n) <==> SomeEqual(StringsIn(env, m), StringsIn(env, n), differ))
  {
    hide StringValue, ToBool, ToNum;
    if lt != TBoolean && rt != TBoolean && lt != TNumber && rt != TNumber {
      if m.Scalar? && n.Scalar? {
        assert ToStr(env, m.a) in StringsIn(env, m) && ToStr(env, n.a) in StringsIn(env, n);
      } else if m.Scalar? {
        if y :| y in n.ns && (ToStr(env, m.a) == StringValue(env.d, y)) != differ {
          assert ToStr(env, m.a) in StringsIn(env, m) && StringValue(env.d, y) in StringsIn(env, n);
        }
      } else if n.Scalar? {
        if x :| x in m.ns && (ToStr(env, n.a) == StringValue(env.d, x)) != differ {
          assert StringValue(env.d, x) in StringsIn(env, m) && ToStr(env, n.a) in StringsIn(env, n);
        }
      } else {
        if x, y :| x in m.ns && y in n.ns && (StringValue(env.d, x) == StringValue(env.d, y)) != differ {
          assert StringValue(env.d, x) in StringsIn(env, m) && StringValue(env.d, y) in StringsIn(env, n);
        }
      }
    }
  }

  // ----- arithmetic

  /** Operands are numbers in the order written; addition of finite numbers is real, of opposite infinities NaN. */
  lemma ArithmeticLaws(env: Env, op: ArithOp, l: Expr, r: Expr, c: Ctx)
    ensures var a, b := NumberResult(env, l, c), NumberResult(env, r, c);
            var n := NumberResult(env, Arith(op, l, r), c);
            && (op != Add ==> n == env.arith(op, a, b))
            && (op == Add && a.Fin? && b.Fin? ==> n == Fin(a.r + b.r))
            && (op == Add && (a == NaN || b == NaN) ==> n == NaN)
            && (op == Add && a.Inf? && b != NaN ==> n == if b == Inf(!a.positive) then NaN else a)
            && (op == Add && b.Inf? && a != NaN ==> n == if a == Inf(!b.positive) then NaN else b)
    ensures NumberResult(env, Negate(l), c) == env.arith(Negative, NumberResult(env, l, c), NumberResult(env, l, c))
  {
    hide ToNum, Look;
    ArithEval(env, op, l, r, c);
    NegateEval(env, l, c);
  }

  lemma ArithEval(env: Env, op: ArithOp, l: Expr, r: Expr, c: Ctx)
    ensures NumberResult(env, Arith(op, l, r), c) == Calculate(env, op, NumberResult(env, l, c), NumberResult(env, r, c))
  {
    hide Calculate;
    assert Eval(env, Arith(op, l, r), c, First) ==
           Scalar(Num(Calculate(env, op, NumberResult(env, l, c), NumberResult(env, r, c))));
  }

  lemma NegateEval(env: Env, l: Expr, c: Ctx)
    ensures NumberResult(env, Negate(l), c) == Calculate(env, Negative, NumberResult(env, l, c), NumberResult(env, l, c))
  {
    hide Calculate;
    var n := NumberResult(env, l, c);
    assert Eval(env, Negate(l), c, First) == Scalar(Num(Calculate(env, Negative, n, n)));
  }

  // ----- node sets

  ghost function NodesOf(env: Env, e: Expr, c: Ctx): set<XNode> {
    Elems(NodeSetResult(env, e, c).nodes)
  }

  /** The whole set is the meaning's. */
  lemma NodesMean(env: Env, e: Expr, c: Ctx)
    requires Ready(env, e, c) && TypeOf(e) == TNodeSet
    ensures Denote(env, e, c) == Nodes(NodesOf(env, e, c))
  {
    hide Eval, Denote, Classified, ValidEnv;
    EvalRefines(env, e, c, All);
    XPathOptimizer.DenoteTyped(env, e, c);
  }

  /** Unions join, count() counts each node once, position() and last() are those of the context, and / is the root. */
  lemma SetLaws(env: Env, l: Expr, r: Expr, c: Ctx)
    requires Ready(env, l, c) && Ready(env, r, c) && TypeOf(l) == TNodeSet && TypeOf(r) == TNodeSet
    ensures NodesOf(env, Union(l, r), c) == NodesOf(env, l, c) + NodesOf(env, r, c)
    ensures NumberResult(env, Count(l), c) == Fin(|NodesOf(env, l, c)| as real)
    ensures NodesOf(env, Id(l), c) == {}
    ensures NodesOf(env, Root, c) == if c.n == Null then {} else {N(0)}
    ensures NumberResult(env, Position, c) == Fin(c.pos as real) && NumberResult(env, Last, c) == Fin(c.size as real)
  {
    hide NodesOf, NumberResult, Classified, ValidEnv;
    UnionIs(env, l, r, c);
    CountIs(env, l, c);
    PlainSets(env, l, c);
  }

  lemma UnionIs(env: Env, l: Expr, r: Expr, c: Ctx)
    requires Ready(env, l, c) && Ready(env, r, c) && TypeOf(l) == TNodeSet && TypeOf(r) == TNodeSet
    ensures NodesOf(env, Union(l, r), c) == NodesOf(env, l, c) + NodesOf(env, r, c)
  {
    hide NodesOf, ValidEnv, Eval;
    NodesMean(env, l, c);
    NodesMean(env, r, c);
    NodesMean(env, Union(l, r), c);
  }

  lemma CountIs(env: Env, l: Expr, c: Ctx)
    requires Ready(env, l, c) && TypeOf(l) == TNodeSet
    ensures NumberResult(env, Count(l), c) == Fin(|NodesOf(env, l, c)| as real)
  {
    hide Classified, ValidEnv, Denote;
    ResultsHonest(env, l, c, All);
    NoDupSize(NodeSetResult(env, l, c).nodes);
    assert Eval(env, Count(l), c, First) == Scalar(Num(Fin(|NodeSetResult(env, l, c).nodes| as real)));
  }

  lemma PlainSets(env: Env, l: Expr, c: Ctx)
    ensures NodesOf(env, Id(l), c) == {}
    ensures NodesOf(env, Root, c) == if c.n == Null then {} else {N(0)}
    ensures NumberResult(env, Position, c) == Fin(c.pos as real) && NumberResult(env, Last, c) == Fin(c.size as real)
  {
  }

  // ----- predicates

  /** A predicate that is a number admits the position it names; any other the positions where it is true. */
  ghost predicate Admits(env: Env, p: Expr, x: XNode, pos: nat, size: nat) {
    if TypeOf(p) == TNumber then NumberResult(env, p, Ctx(x, pos, size)) == Fin(pos as real)
    else BooleanResult(env, p, Ctx(x, pos, size))
  }

  /** The nodes of s from position i on that the predicate admits. */
  ghost function Admitted(env: Env, p: Expr, s: seq<XNode>, i: nat): seq<XNode>
    requires i <= |s|
    decreases |s| - i
  {
    if i == |s| then []
    else (if Admits(env, p, s[i], i + 1, |s|) then [s[i]] else []) + Admitted(env, p, s, i + 1)
  }

  /** Predicates one after the other, each numbering what the one before has left. */
  ghost function Filtered(env: Env, ps: Preds, s: seq<XNode>): seq<XNode>
    decreases ps
  {
    match ps
    case NoPreds => s
    case Pred(p, _, next) => Filtered(env, next, Admitted(env, p, s, 0))
  }

  lemma PassesIs(env: Env, p: Expr, x: XNode, pos: nat, size: nat)
    requires Ready(env, p, Ctx(x, pos, size))
    ensures Passes(env, p, View(env.d, Denote(env, p, Ctx(x, pos, size))), pos) <==> Admits(env, p, x, pos, size)
  {
    hide Eval, Denote, View, Look, Classified, TypeOf, ToNum, ToBool;
    var c := Ctx(x, pos, size);
    EvalRefines(env, p, c, First);
    EvalRefines(env, p, c, Any);
    LookAgrees(env.d, Eval(env, p, c, First), Denote(env, p, c), First);
    LookAgrees(env.d, Eval(env, p, c, Any), Denote(env, p, c), Any);
  }

  lemma {:induction false} PickIs(env: Env, p: Expr, s: seq<XNode>, i: nat)
    requires ValidEnv(env) && Classified(p) && (forall x :: x in s ==> InDoc(env.d, x)) && i <= |s|
    ensures Pick(s[i..], Truths(env, p, s)[i..]) == Admitted(env, p, s, i)
    decreases |s| - i
  {
    hide Classified, ValidEnv, Denote, Passes, Admits, View;
    var keep := Truths(env, p, s);
    if i < |s| {
      PickIs(env, p, s, i + 1);
      assert s[i] in s;
      PassesIs(env, p, s[i], i + 1, |s|);
      PickFront(s[i..], keep[i..]);
      assert s[i..][1..] == s[i + 1..] && keep[i..][1..] == keep[i + 1..];
    }
  }

  lemma {:induction false} PickFront<T>(s: seq<T>, keep: seq<bool>)
    requires |keep| == |s| && s != []
    ensures Pick(s, keep) == (if keep[0] then [s[0]] else []) + Pick(s[1..], keep[1..])
    decreases |s|
  {
    var n := |s| - 1;
    if n == 0 {
      assert s[..0] == [] && s[1..] == [];
    } else {
      PickFront(s[..n], keep[..n]);
      assert s[..n][1..] == s[1..][..n - 1] && keep[..n][1..] == keep[1..][..n - 1];
    }
  }

  lemma {:induction false} AdmittedPart(env: Env, p: Expr, s: seq<XNode>, i: nat, x: XNode)
    requires i <= |s| && x in Admitted(env, p, s, i)
    ensures x in s
    decreases |s| - i
  {
    hide Admits;
    if x != s[i] {
      AdmittedPart(env, p, s, i + 1, x);
    }
  }

  lemma {:induction false} SurvivingIs(env: Env, ps: Preds, s: seq<XNode>)
    requires ValidEnv(env) && PredTestsOk(ps, TestOk) && forall x :: x in s ==> InDoc(env.d, x)
    ensures Surviving(env, ps, s) == Filtered(env, ps, s)
    decreases ps
  {
    hide ValidEnv, Truths, Admitted;
    if ps.Pred? {
      PickIs(env, ps.e, s, 0);
      assert s[0..] == s && Truths(env, ps.e, s)[0..] == Truths(env, ps.e, s);
      forall x | x in Admitted(env, ps.e, s, 0) ensures InDoc(env.d, x) {
        AdmittedPart(env, ps.e, s, 0, x);
      }
      SurvivingIs(env, ps.next, Admitted(env, ps.e, s, 0));
    }
  }

  /** What the axis and node test reach from x; an attribute name reaches its first carrier. */
  function Reached(d: Doc, axis: Axis, test: NodeTest, x: XNode): seq<XNode> {
    var s := StepNodes(d, axis, test, x);
    if axis == Attribute && test.Name? && |s| > 1 then [s[0]] else s
  }

  /** A location step: from every node it starts at, what its predicates leave of what is reached. */
  lemma StepLaw(env: Env, left: Left, axis: Axis, test: NodeTest, ps: Preds, c: Ctx)
    requires Ready(env, Step(left, axis, test, ps), c)
    requires left.From? ==> Ready(env, left.e, c) && TypeOf(left.e) == TNodeSet
    ensures var from := if left.Context? then {c.n} else NodesOf(env, left.e, c);
            forall y :: y in NodesOf(env, Step(left, axis, test, ps), c) <==>
                        exists x :: x in from && y in Filtered(env, ps, Reached(env.d, axis, test, x))
  {
    hide Eval, Filtered, StepNodes, NodesOf, Surviving, Denote, Selected, Reached;
    var e := Step(left, axis, test, ps);
    NodesMean(env, e, c);
    if left.From? {
      NodesMean(env, left.e, c);
    }
    forall x ensures Surviving(env, ps, Selected(env, axis, test, x)) == Filtered(env, ps, Reached(env.d, axis, test, x)) {
      SelectedIs(env, axis, test, x);
      SurvivingIs(env, ps, Reached(env.d, axis, test, x));
    }
    var from := if left.Context? then {c.n} else NodesOf(env, left.e, c);
    forall y
      ensures y in NodesOf(env, e, c) <==> exists x :: x in from && y in Filtered(env, ps, Reached(env.d, axis, test, x))
    {
      StepDenote(env, left, axis, test, ps, c, from, y);
      if y in NodesOf(env, e, c) {
        var x :| x in from && y in Surviving(env, ps, Selected(env, axis, test, x));
        assert y in Filtered(env, ps, Reached(env.d, axis, test, x));
      }
      if x :| x in from && y in Filtered(env, ps, Reached(env.d, axis, test, x)) {
        assert y in Surviving(env, ps, Selected(env, axis, test, x));
      }
    }
  }

  lemma SelectedIs(env: Env, axis: Axis, test: NodeTest, x: XNode)
    requires ValidEnv(env)
    ensures Selected(env, axis, test, x) == Reached(env.d, axis, test, x)
    ensures forall y :: y in Reached(env.d, axis, test, x) ==> InDoc(env.d, y)
  {
    hide StepNodes;
    StepNodesOrdered(env.d, axis, test, x);
    forall y | y in Reached(env.d, axis, test, x) ensures InDoc(env.d, y) {
      assert y in StepNodes(env.d, axis, test, x);
    }
  }

  lemma StepDenote(env: Env, left: Left, axis: Axis, test: NodeTest, ps: Preds, c: Ctx, from: set<XNode>, y: XNode)
    requires from == if left.Context? then {c.n} else AsSet(Denote(env, left.e, c))
    ensures y in AsSet(Denote(env, Step(left, axis, test, ps), c)) <==>
            exists x :: x in from && y in Surviving(env, ps, Selected(env, axis, test, x))
  {
    hide Surviving, Selected;
  }

  /** A filter numbers the nodes in document order. */
  lemma FilterLaw(env: Env, l: Expr, p: Expr, test: Test, c: Ctx, s: seq<XNode>)
    requires Ready(env, Filter(l, p, test), c) && Ready(env, l, c) && TypeOf(l) == TNodeSet
    requires Ascending(s) && Elems(s) == NodesOf(env, l, c)
    ensures NodesOf(env, Filter(l, p, test), c) == Elems(Admitted(env, p, s, 0))
  {
    hide Eval, Ascending, Truths, Admitted;
    NodesMean(env, Filter(l, p, test), c);
    NodesMean(env, l, c);
    ResultsHonest(env, l, c, All);
    forall x | x in s ensures InDoc(env.d, x) {
      assert x in Elems(s);
    }
    ListingSorted(env.d, Elems(s));
    AscendingUnique(s, Listing(env.d, Elems(s)));
    PickIs(env, p, s, 0);
    assert s[0..] == s && Truths(env, p, s)[0..] == Truths(env, p, s);
  }

  /** [k] admits the k-th node alone, [last()] the last. */
  lemma PositionLaw(env: Env, s: seq<XNode>, k: nat)
    requires 1 <= k <= |s|
    ensures Admitted(env, NumberConst(Fin(k as real)), s, 0) == [s[k - 1]]
    ensures Admitted(env, Last, s, 0) == [s[|s| - 1]]
  {
    OneAdmitted(env, NumberConst(Fin(k as real)), s, k - 1, 0);
    OneAdmitted(env, Last, s, |s| - 1, 0);
  }

  lemma {:induction false} OneAdmitted(env: Env, p: Expr, s: seq<XNode>, at: nat, i: nat)
    requires at < |s| && i <= |s| && ((p.NumberConst? && p.n == Fin((at + 1) as real)) || (p.Last? && at == |s| - 1))
    ensures Admitted(env, p, s, i) == if i <= at then [s[at]] else []
    decreases |s| - i
  {
    hide Admits;
    if i < |s| {
      OneAdmitted(env, p, s, at, i + 1);
      AdmitsHere(env, p, s[i], i + 1, |s|);
      assert (i + 1) as real == (at + 1) as real <==> i == at;
    }
  }

  lemma AdmitsHere(env: Env, p: Expr, x: XNode, pos: nat, size: nat)
    ensures p.NumberConst? ==> (Admits(env, p, x, pos, size) <==> p.n == Fin(pos as real))
    ensures p.Last? ==> (Admits(env, p, x, pos, size) <==> size as real == pos as real)
  {
  }

  // ----- sums

  /** The real total of the nodes' numbers. */
  ghost function Total(env: Env, s: seq<XNode>): real
    requires forall x :: x in s ==> NodeValue(env, x).Fin?
  {
    if s == [] then 0.0 else NodeValue(env, s[0]).r + Total(env, s[1..])
  }

  function NodeValue(env: Env, x: XNode): Number {
    env.toNumber(StringValue(env.d, x))
  }

  /** sum() adds each node's number once; one that is no number makes it NaN. */
  lemma SumLaw(env: Env, l: Expr, c: Ctx, s: seq<XNode>)
    requires Ready(env, l, c) && TypeOf(l) == TNodeSet && NoDup(s) && Elems(s) == NodesOf(env, l, c)
    ensures (forall x :: x in s ==> NodeValue(env, x).Fin?) ==> NumberResult(env, Sum(l), c) == Fin(Total(env, s))
    ensures (exists x :: x in s && NodeValue(env, x) == NaN) ==> NumberResult(env, Sum(l), c) == NaN
  {
    hide Classified, ValidEnv, StringValue, Honest;
    var t := NodeSetResult(env, l, c).nodes;
    SumEval(env, l, c);
    hide Eval;
    ResultsHonest(env, l, c, All);
    HonestNoDup(env.d, NodeSetResult(env, l, c));
    SumSame(env, s, t);
    if forall x :: x in s ==> NodeValue(env, x).Fin? {
      SumTotal(env, s);
    }
    if x :| x in s && NodeValue(env, x) == NaN {
      SumNaN(env, s, x);
    }
  }

  lemma HonestNoDup(d: Doc, ns: NodeSet)
    requires Honest(d, ns)
    ensures NoDup(ns.nodes)
  {
  }

  lemma SumEval(env: Env, l: Expr, c: Ctx)
    ensures NumberResult(env, Sum(l), c) == SumOf(env, NodeSetResult(env, l, c).nodes)
  {
    hide SumOf;
    assert Eval(env, Sum(l), c, First) == Scalar(Num(SumOf(env, NodeSetResult(env, l, c).nodes)));
  }

  lemma {:induction false} SumTotal(env: Env, s: seq<XNode>)
    requires forall x :: x in s ==> NodeValue(env, x).Fin?
    ensures SumOf(env, s) == Fin(Total(env, s))
    decreases |s|
  {
    hide StringValue;
    if s != [] {
      var n := |s| - 1;
      SumTotal(env, s[..n]);
      TotalLast(env, s);
      assert s[n] in s;
    }
  }

  lemma {:induction false} TotalLast(env: Env, s: seq<XNode>)
    requires s != [] && forall x :: x in s ==> NodeValue(env, x).Fin?
    ensures Total(env, s) == Total(env, s[..|s| - 1]) + NodeValue(env, s[|s| - 1]).r
    decreases |s|
  {
    hide StringValue;
    var n := |s| - 1;
    if n > 0 {
      TotalLast(env, s[1..]);
      assert s[1..][..n - 1] == s[..n][1..] && s[1..][n - 1] == s[n];
    }
  }

  lemma {:induction false} SumNaN(env: Env, s: seq<XNode>, x: XNode)
    requires x in s && NodeValue(env, x) == NaN
    ensures SumOf(env, s) == NaN
    decreases |s|
  {
    hide StringValue;
    var n := |s| - 1;
    if s[n] != x {
      assert x in s[..n];
      SumNaN(env, s[..n], x);
    }
  }

  // ----- functions

  /** What the library functions return. */
  lemma LibraryTypes(fn: LibFn)
    ensures LibType(fn) == TNumber <==> fn in {NumberOfNode, StringLength, Floor, Ceiling, Round}
    ensures LibType(fn) == TBoolean <==> fn in {StartsWith, Contains, Lang}
    ensures LibType(fn) != TNodeSet
  {
  }

  /** An argument as its function takes it: names of a node take the node, rounding takes a number, substring a string and
      numbers, all others strings. */
  ghost function Argument(env: Env, fn: LibFn, i: nat, e: Expr, c: Ctx): Atom {
    if fn in {LocalName, QualifiedName, NamespaceUri} then Look(Eval(env, e, c, First))
    else if fn in {Floor, Ceiling, Round} || (fn == Substring && i > 0) then Num(NumberResult(env, e, c))
    else Str(StringResult(env, e, c))
  }

  ghost function Arguments(env: Env, fn: LibFn, i: nat, args: Exprs, c: Ctx): seq<Atom>
    decreases args
  {
    match args
    case NoArgs => []
    case Arg(head, tail) => [Argument(env, fn, i, head, c)] + Arguments(env, fn, i + 1, tail, c)
  }

  lemma LibraryLaw(env: Env, fn: LibFn, args: Exprs, c: Ctx, mode: Mode)
    ensures Eval(env, Library(fn, args), c, mode) == Scalar(env.lib(fn, c.n, Arguments(env, fn, 0, args, c)))
  {
    hide Arguments, EvalArgs;
    ArgumentsAre(env, fn, 0, args, c);
    LibraryEval(env, fn, args, c, mode);
  }

  lemma LibraryEval(env: Env, fn: LibFn, args: Exprs, c: Ctx, mode: Mode)
    ensures Eval(env, Library(fn, args), c, mode) == Scalar(env.lib(fn, c.n, EvalArgs(env, fn, 0, args, c)))
  {
    hide EvalArgs;
  }

  lemma {:induction false} ArgumentsAre(env: Env, fn: LibFn, i: nat, args: Exprs, c: Ctx)
    ensures EvalArgs(env, fn, i, args, c) == Arguments(env, fn, i, args, c)
    decreases args
  {
    hide Eval, ToNum, ToStr, Look;
    if args.Arg? {
      ArgumentsAre(env, fn, i + 1, args.tail, c);
    }
  }

  /** translate() maps each character by the first place it has in the second argument. */
  lemma TranslateLaw(env: Env, l: Expr, from: Expr, to: Expr, c: Ctx)
    ensures StringResult(env, XPathSyntax.Translate(l, from, to), c) ==
            Mapped(StringResult(env, l, c), StringResult(env, from, c), StringResult(env, to, c))
  {
    hide ToStr, Look, Mapped;
    TranslateEval(env, l, from, to, c);
    MappedIs(StringResult(env, l, c), StringResult(env, from, c), StringResult(env, to, c));
  }

  lemma TranslateEval(env: Env, l: Expr, from: Expr, to: Expr, c: Ctx)
    ensures StringResult(env, XPathSyntax.Translate(l, from, to), c) ==
            Translation.Translate(StringResult(env, l, c), StringResult(env, from, c), StringResult(env, to, c))
  {
    hide Translation.Translate;
    assert Eval(env, XPathSyntax.Translate(l, from, to), c, First) ==
           Scalar(Str(Translation.Translate(StringResult(env, l, c), StringResult(env, from, c), StringResult(env, to, c))));
  }

  /** Character by character from the front: kept if it is not listed, replaced by the character at its place, or dropped
      if there is none. */
  function Mapped(s: string, from: string, to: string): string {
    if s == "" then ""
    else (if s[0] !in from then [s[0]] else Replacement(s[0], from, to)) + Mapped(s[1..], from, to)
  }

  function Replacement(ch: char, from: string, to: string): string
    requires ch in from
  {
    if from[0] == ch then (if to == "" then "" else [to[0]])
    else Replacement(ch, from[1..], if to == "" then "" else to[1..])
  }

  lemma {:induction false} MappedIs(s: string, from: string, to: string)
    ensures Translation.Translate(s, from, to) == Mapped(s, from, to)
  {
    if s != "" {
      MappedIs(s[1..], from, to);
      TranslateFront(s, from, to);
      CharIs(s[0], from, to);
    }
  }

  lemma {:induction false} TranslateFront(s: string, from: string, to: string)
    requires s != ""
    ensures Translation.Translate(s, from, to) == Translation.MapChar(s[0], from, to) + Translation.Translate(s[1..], from, to)
    decreases |s|
  {
    hide Translation.MapChar;
    var n := |s| - 1;
    if n == 0 {
      assert s[..0] == "" && s[1..] == "" && Translation.Translate("", from, to) == "";
    } else {
      TranslateFront(s[..n], from, to);
      assert s[..n][1..] == s[1..][..n - 1];
    }
  }

  lemma {:induction false} CharIs(ch: char, from: string, to: string)
    ensures Translation.MapChar(ch, from, to) == if ch !in from then [ch] else Replacement(ch, from, to)
    decreases |from|
  {
    if from != "" && from[0] != ch {
      CharIs(ch, from[1..], if to == "" then "" else to[1..]);
      assert ch in from <==> ch in from[1..];
    }
  }
}
