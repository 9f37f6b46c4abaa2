/** The plain meaning, in which an attribute name selects every carrier, and when the engine's meaning is that. */
module XPathPlain {
  import opened Sequences
  import opened Documents
  import opened Axes
  import opened XPathSyntax
  import opened XPathMeaning
  import opened XPathEval
  import opened NodeSetFacts
  import opened XPathRefinement
  import opened XPathResults
  import XPathOptimizer
  import Translation

  /** The same surroundings with nothing stopping early. */
  function Plain(env: Env): Env {
    env.(firstOnly := false)
  }

  /** No element carries two attributes of one name that queries can see. */
  ghost predicate NamesUnique(d: Doc)
    requires d.Valid()
  {
    forall i, name :: 0 <= i < d.Size() && IsXPathAttribute(name) ==> AtMostOne(d.attrs[i], name)
  }

  // ----- scalars do not look at the difference

  lemma ScalarsSame(env: Env, a: Atom, b: Atom, negated: bool)
    ensures ToNum(Plain(env), a) == ToNum(env, a) && ToStr(Plain(env), a) == ToStr(env, a)
    ensures Compare(Plain(env), negated, a, b) == Compare(env, negated, a, b)
  {
  }

  lemma NodesSame(env: Env)
    ensures forall x :: NodeNumber(Plain(env), x) == NodeNumber(env, x)
  {
  }

  lemma CompareSame(env: Env, negated: bool, l: Meaning, r: Meaning)
    ensures CompareEq(Plain(env), negated, l, r) == CompareEq(env, negated, l, r)
  {
    hide ToNum, ToStr, NodeNumber, Compare, StringValue;
    NodesSame(env);
    var a := if l.Scalar? then l.a else Bool(true);
    var b := if r.Scalar? then r.a else Bool(true);
    ScalarsSame(env, a, b, negated);
    ScalarsSame(env, b, a, negated);
  }

  lemma RelSame(env: Env, strict: bool, l: Meaning, r: Meaning)
    ensures CompareRel(Plain(env), strict, l, r) == CompareRel(env, strict, l, r)
  {
    hide ToNum, ToStr, NodeNumber, Compare, StringValue, Related;
    NodesSame(env);
    var a := if l.Scalar? then l.a else Bool(true);
    var b := if r.Scalar? then r.a else Bool(true);
    ScalarsSame(env, a, b, strict);
    ScalarsSame(env, b, a, strict);
  }

  lemma {:induction false} SumsSame(env: Env, s: seq<XNode>)
    ensures SumOf(Plain(env), s) == SumOf(env, s)
  {
    if s != [] {
      SumsSame(env, s[..|s| - 1]);
    }
  }

  lemma CoerceSame(env: Env, fn: LibFn, i: nat, a: Atom)
    ensures Coerce(Plain(env), fn, i, a) == Coerce(env, fn, i, a)
  {
    ScalarsSame(env, a, a, true);
    hide ToNum, ToStr;
  }

  // ----- one step

  lemma SelectedSame(env: Env, axis: Axis, test: NodeTest, x: XNode)
    requires env.d.Valid() && NamesUnique(env.d)
    ensures Selected(Plain(env), axis, test, x) == Selected(env, axis, test, x)
  {
    hide StepNodes;
    if axis == Attribute && test.Name? {
      var d, s := env.d, StepNodes(env.d, axis, test, x);
      StepNodesOrdered(d, axis, test, x);
      if x.N? && x.i < d.Size() && IsXPathAttribute(test.s) {
        assert AtMostOne(d.attrs[x.i], test.s);
        AttributeShortcut(d, x.i, test.s);
      } else {
        assert forall y :: !Selects(d, axis, test, x, y);
        ElemsEmpty(s);
        assert Elems(s) == {};
      }
    }
  }

  // ----- whole queries

  lemma BinaryPlain(env: Env, e: Expr, c: Ctx)
    requires Binary(e) || e.Equal?
    requires Denote(Plain(env), e.l, c) == Denote(env, e.l, c) && Denote(Plain(env), e.r, c) == Denote(env, e.r, c)
    ensures Denote(Plain(env), e, c) == Denote(env, e, c)
  {
    hide View, ToBool, ToNum, ToStr, CompareEq, CompareRel, Selected, Surviving, Truths;
    var l, r := Denote(env, e.l, c), Denote(env, e.r, c);
    CompareSame(env, e.NotEqual?, l, r);
    RelSame(env, true, l, r);
    RelSame(env, false, l, r);
    RelSame(env, true, r, l);
    RelSame(env, false, r, l);
    ScalarsSame(env, View(env.d, l), View(env.d, r), true);
    ScalarsSame(env, View(env.d, r), View(env.d, l), true);
  }

  lemma UnaryPlain(env: Env, e: Expr, c: Ctx)
    requires Unary(e) && Denote(Plain(env), e.l, c) == Denote(env, e.l, c)
    ensures Denote(Plain(env), e, c) == Denote(env, e, c)
  {
    hide View, ToBool, ToNum, ToStr, Selected, Surviving, Truths, SumOf, Listing;
    var l := Denote(env, e.l, c);
    ScalarsSame(env, View(env.d, l), View(env.d, l), true);
    SumsSame(env, Listing(env.d, AsSet(l)));
  }

  lemma AtomPlain(env: Env, e: Expr, c: Ctx)
    requires Atomic(e)
    ensures Denote(Plain(env), e, c) == Denote(env, e, c)
  {
    hide View, ToBool, ToNum, ToStr, Selected, Surviving, Truths, CompareEq, CompareRelation, Calculate, SumOf, Listing, Pick,
      DenoteArgs, AttributeIs, Translation.Translate, Translation.TranslateByTable;
  }

  lemma {:induction false} TruthsPlain(env: Env, e: Expr, s: seq<XNode>)
    requires env.d.Valid() && NamesUnique(env.d)
    ensures Truths(Plain(env), e, s) == Truths(env, e, s)
    decreases e, 2
  {
    hide Denote, View, ToNum, NamesUnique, ToBool;
    forall i | 0 <= i < |s|
      ensures Truths(Plain(env), e, s)[i] == Truths(env, e, s)[i]
    {
      var c := Ctx(s[i], i + 1, |s|);
      PlainAgrees(env, e, c);
      var v := View(env.d, Denote(env, e, c));
      ScalarsSame(env, v, v, true);
    }
  }

  lemma {:induction false} SurvivingPlain(env: Env, ps: Preds, s: seq<XNode>)
    requires env.d.Valid() && NamesUnique(env.d)
    ensures Surviving(Plain(env), ps, s) == Surviving(env, ps, s)
    decreases ps, 1
  {
    hide Truths, NamesUnique, Pick;
    if ps.Pred? {
      TruthsPlain(env, ps.e, s);
      SurvivingPlain(env, ps.next, Pick(s, Truths(env, ps.e, s)));
    }
  }

  lemma {:induction false} ArgsPlain(env: Env, fn: LibFn, i: nat, args: Exprs, c: Ctx)
    requires env.d.Valid() && NamesUnique(env.d)
    ensures DenoteArgs(Plain(env), fn, i, args, c) == DenoteArgs(env, fn, i, args, c)
    decreases args, 1
  {
    hide Denote, View, Coerce, NamesUnique;
    if args.Arg? {
      PlainAgrees(env, args.head, c);
      CoerceSame(env, fn, i, View(env.d, Denote(env, args.head, c)));
      ArgsPlain(env, fn, i + 1, args.tail, c);
    }
  }

  lemma {:induction false} StepPlain(env: Env, e: Expr, c: Ctx)
    requires env.d.Valid() && NamesUnique(env.d) && e.Step?
    ensures Denote(Plain(env), e, c) == Denote(env, e, c)
    decreases e, 0
  {
    hide Selected, Surviving, NamesUnique, Denote;
    if e.left.From? {
      PlainAgrees(env, e.left.e, c);
    }
    var plain, engine := AsSet(Denote(Plain(env), e, c)), AsSet(Denote(env, e, c));
    forall z
      ensures z in plain <==> z in engine
    {
      XPathOptimizer.StepMember(Plain(env), e, c, z);
      XPathOptimizer.StepMember(env, e, c, z);
      forall x
        ensures Surviving(Plain(env), e.preds, Selected(Plain(env), e.axis, e.nodes, x)) ==
                Surviving(env, e.preds, Selected(env, e.axis, e.nodes, x))
      {
        SelectedSame(env, e.axis, e.nodes, x);
        SurvivingPlain(env, e.preds, Selected(env, e.axis, e.nodes, x));
      }
    }
    assert plain == engine;
    XPathOptimizer.SetMeaning(Plain(env), e, c);
    XPathOptimizer.SetMeaning(env, e, c);
  }

  /** With unique attribute names both meanings agree, on every query. */
  lemma {:induction false} PlainAgrees(env: Env, e: Expr, c: Ctx)
    requires env.d.Valid() && NamesUnique(env.d)
    ensures Denote(Plain(env), e, c) == Denote(env, e, c)
    decreases e, 1
  {
    hide NamesUnique, View, ToNum, ToStr, Truths, Pick, Listing, DenoteArgs;
    if Binary(e) || e.Equal? {
      PlainAgrees(env, e.l, c);
      PlainAgrees(env, e.r, c);
      BinaryPlain(env, e, c);
    } else if Unary(e) {
      PlainAgrees(env, e.l, c);
      UnaryPlain(env, e, c);
    } else if Atomic(e) {
      AtomPlain(env, e, c);
    } else if e.Step? {
      StepPlain(env, e, c);
    } else {
      OthersPlain(env, e, c);
    }
  }

  lemma {:induction false} OthersPlain(env: Env, e: Expr, c: Ctx)
    requires env.d.Valid() && NamesUnique(env.d)
    requires e.Filter? || e.Translate? || e.Library? || e.TranslateTable? || e.CompareAttribute?
    ensures Denote(Plain(env), e, c) == Denote(env, e, c)
    decreases e, 0
  {
    hide NamesUnique, View, ToNum, ToStr, Truths, Pick, Listing, DenoteArgs, Surviving, Selected;
    if e.Filter? {
      PlainAgrees(env, e.l, c);
      TruthsPlain(env, e.r, Listing(env.d, AsSet(Denote(env, e.l, c))));
    } else if e.Library? {
      ArgsPlain(env, e.fn, 0, e.args, c);
    } else if e.CompareAttribute? {
      PlainAgrees(env, e.r, c);
      TextPlain(env, e.r, c);
    } else {
      PlainAgrees(env, e.l, c);
      TextPlain(env, e.l, c);
      if e.Translate? {
        PlainAgrees(env, e.from, c);
        PlainAgrees(env, e.to, c);
        TextPlain(env, e.from, c);
        TextPlain(env, e.to, c);
      }
    }
  }

  lemma TextPlain(env: Env, e: Expr, c: Ctx)
    ensures ToStr(Plain(env), View(env.d, Denote(env, e, c))) == ToStr(env, View(env.d, Denote(env, e, c)))
  {
    hide Denote, View;
    var v := View(env.d, Denote(env, e, c));
    ScalarsSame(env, v, v, true);
  }

  // ----- exactly then

  ghost predicate AllAgree(env: Env) {
    forall e, c :: Denote(Plain(env), e, c) == Denote(env, e, c)
  }

  /** Two carriers of a name: the query for the name tells the meanings apart. */
  lemma RepeatTold(env: Env, i: nat, name: string, j: nat, k: nat)
    requires env.d.Valid() && env.firstOnly && i < env.d.Size() && IsXPathAttribute(name)
    requires j < k < |env.d.attrs[i]| && env.d.attrs[i][j].name == name == env.d.attrs[i][k].name
    ensures var e, c := Step(Context, Attribute, Name(name), NoPreds), Ctx(N(i), 1, 1);
            Denote(Plain(env), e, c) != Denote(env, e, c)
  {
    hide StepNodes, Denote;
    var e, c := Step(Context, Attribute, Name(name), NoPreds), Ctx(N(i), 1, 1);
    var s := StepNodes(env.d, Attribute, Name(name), N(i));
    StepNodesOrdered(env.d, Attribute, Name(name), N(i));
    assert Selects(env.d, Attribute, Name(name), N(i), A(i, j)) && Selects(env.d, Attribute, Name(name), N(i), A(i, k));
    assert A(i, j) in s && A(i, k) in s;
    forall z: XNode | z == A(i, j) || z == A(i, k)
      ensures z in AsSet(Denote(Plain(env), e, c)) && (z in AsSet(Denote(env, e, c)) <==> z == s[0])
    {
      XPathOptimizer.StepMember(Plain(env), e, c, z);
      XPathOptimizer.StepMember(env, e, c, z);
      assert N(i) in XPathOptimizer.Sources(Plain(env), e.left, c) && N(i) in XPathOptimizer.Sources(env, e.left, c);
      assert Surviving(Plain(env), NoPreds, Selected(Plain(env), Attribute, Name(name), N(i))) == s;
      assert Surviving(env, NoPreds, Selected(env, Attribute, Name(name), N(i))) == [s[0]];
    }
    var other := if s[0] == A(i, j) then A(i, k) else A(i, j);
    assert other in AsSet(Denote(Plain(env), e, c)) && other !in AsSet(Denote(env, e, c));
  }

  /** The engine's meaning is the plain one on every query exactly when no element repeats an attribute name. */
  lemma PlainIff(env: Env)
    requires env.d.Valid() && env.firstOnly
    ensures AllAgree(env) <==> NamesUnique(env.d)
  {
    hide Denote;
    if NamesUnique(env.d) {
      forall e, c
        ensures Denote(Plain(env), e, c) == Denote(env, e, c)
      {
        PlainAgrees(env, e, c);
      }
    } else {
      var i, name :| 0 <= i < env.d.Size() && IsXPathAttribute(name) && !AtMostOne(env.d.attrs[i], name);
      var j, k :| 0 <= j < k < |env.d.attrs[i]| && env.d.attrs[i][j].name == name == env.d.attrs[i][k].name;
      RepeatTold(env, i, name, j, k);
    }
  }

  // ----- what the engine computes, against the plain meaning

  lemma EvalRefinesPlain(env: Env, e: Expr, c: Ctx, mode: Mode)
    requires ValidEnv(env) && NamesUnique(env.d) && Classified(e) && ValidCtx(env.d, c)
    ensures Agrees(env.d, Eval(env, e, c, mode), Denote(Plain(env), e, c), mode)
  {
    hide Eval, Denote, NamesUnique, TestsOk;
    EvalRefines(env, e, c, mode);
    PlainAgrees(env, e, c);
  }

  /** Stopping early, attribute names included, against the set of all nodes the query selects. */
  lemma EarlyStoppingPlain(env: Env, e: Expr, c: Ctx)
    requires ValidEnv(env) && NamesUnique(env.d) && Classified(e) && ValidCtx(env.d, c) && TypeOf(e) == TNodeSet
    ensures var S := AsSet(Denote(Plain(env), e, c));
            && Elems(AsNodeSet(Eval(env, e, c, All)).nodes) == S
            && (AsNodeSet(Eval(env, e, c, Any)).nodes == [] <==> S == {})
            && (if S == {} then AsNodeSet(Eval(env, e, c, First)).nodes == []
                else IsLeast(FirstNode(AsNodeSet(Eval(env, e, c, First))), S))
  {
    hide Eval, Denote, NamesUnique, TestsOk, View, FirstNode;
    PlainAgrees(env, e, c);
    XPathOptimizer.DenoteTyped(env, e, c);
    EvalRefines(env, e, c, All);
    EarlyStoppingAgrees(env, e, c);
    EvalRefines(env, e, c, First);
    var all, first := AsNodeSet(Eval(env, e, c, All)), AsNodeSet(Eval(env, e, c, First));
    ElemsEmpty(all.nodes);
    ElemsEmpty(first.nodes);
    if all.nodes != [] {
      FirstNodeLeast(env.d, all);
    }
  }

  lemma OptimizeKeepsPlain(env: Env, e: Expr, c: Ctx)
    requires ValidEnv(env) && NamesUnique(env.d) && Fresh(e)
    ensures Denote(Plain(env), Optimize(e), c) == Denote(Plain(env), e, c)
  {
    hide Denote, NamesUnique, TestsOk, Optimize;
    PlainAgrees(env, e, c);
    PlainAgrees(env, Optimize(e), c);
    XPathOptimizer.OptimizeKeepsMeaning(env, e, c);
  }
}
