/** The optimizer keeps the meaning of every query, and its classifications are justified. */
module XPathOptimizer {
  import opened Sequences
  import opened Documents
  import opened Axes
  import opened XPathSyntax
  import opened XPathMeaning
  import Translation

  // ----- position independence

  lemma OtherSets(env: Env, e: Expr, c: Ctx, c': Ctx)
    requires c.n == c'.n && !e.Union? && !e.Filter? && !e.Step?
    ensures AsSet(Denote(env, e, c)) == AsSet(Denote(env, e, c'))
  {
    hide View, ToBool, ToNum, ToStr, CompareEq, CompareRelation, Calculate, SumOf, Truths, Pick, Surviving, Selected, Listing, Coerce,
      AttributeIs, RootOf, DenoteArgs;
  }

  /** Node sets never depend on the context position or size. */
  lemma {:induction false} SetPosFree(env: Env, e: Expr, c: Ctx, c': Ctx)
    requires c.n == c'.n
    ensures AsSet(Denote(env, e, c)) == AsSet(Denote(env, e, c'))
  {
    hide View, ToBool, ToNum, ToStr, CompareEq, CompareRelation, Calculate, SumOf, Truths, Pick, Surviving, Selected, Listing, Coerce,
      AttributeIs, RootOf, DenoteArgs;
    if e.Union? {
      SetPosFree(env, e.l, c, c');
      SetPosFree(env, e.r, c, c');
    } else if e.Filter? {
      SetPosFree(env, e.l, c, c');
    } else if e.Step? {
      if e.left.From? {
        SetPosFree(env, e.left.e, c, c');
      }
    } else {
      hide Denote;
      OtherSets(env, e, c, c');
    }
  }

  lemma BinaryPosFree(env: Env, e: Expr, c: Ctx, c': Ctx)
    requires Binary(e) || e.Equal?
    requires Denote(env, e.l, c) == Denote(env, e.l, c') && Denote(env, e.r, c) == Denote(env, e.r, c')
    ensures Denote(env, e, c) == Denote(env, e, c')
  {
  }

  lemma UnaryPosFree(env: Env, e: Expr, c: Ctx, c': Ctx)
    requires Unary(e) && Denote(env, e.l, c) == Denote(env, e.l, c')
    ensures Denote(env, e, c) == Denote(env, e, c')
  {
  }

  lemma AtomPosFree(env: Env, e: Expr, c: Ctx, c': Ctx)
    requires c.n == c'.n && Atomic(e) && IsPosInv(e)
    ensures Denote(env, e, c) == Denote(env, e, c')
  {
  }

  lemma SetMeaning(env: Env, e: Expr, c: Ctx)
    requires e.Filter? || e.Step?
    ensures Denote(env, e, c) == Nodes(AsSet(Denote(env, e, c)))
  {
    hide Truths, Pick, Surviving, Selected, Listing;
  }

  /** An expression classified as position-independent means the same at every position. */
  lemma {:induction false} PosInvSound(env: Env, e: Expr, c: Ctx, c': Ctx)
    requires c.n == c'.n && IsPosInv(e)
    ensures Denote(env, e, c) == Denote(env, e, c')
    decreases e, 1
  {
    if Binary(e) || e.Equal? {
      PosInvSound(env, e.l, c, c');
      PosInvSound(env, e.r, c, c');
      BinaryPosFree(env, e, c, c');
    } else if Unary(e) {
      PosInvSound(env, e.l, c, c');
      UnaryPosFree(env, e, c, c');
    } else if Atomic(e) {
      AtomPosFree(env, e, c, c');
    } else if e.Filter? || e.Step? {
      SetPosFree(env, e, c, c');
      SetMeaning(env, e, c);
      SetMeaning(env, e, c');
    } else {
      OthersPosFree(env, e, c, c');
    }
  }

  lemma {:induction false} OthersPosFree(env: Env, e: Expr, c: Ctx, c': Ctx)
    requires c.n == c'.n && IsPosInv(e) && (e.Translate? || e.Library? || e.TranslateTable? || e.CompareAttribute?)
    ensures Denote(env, e, c) == Denote(env, e, c')
    decreases e, 0
  {
    if e.Translate? {
      PosInvSound(env, e.l, c, c');
      PosInvSound(env, e.from, c, c');
      PosInvSound(env, e.to, c, c');
    } else if e.Library? {
      ArgsPosInvSound(env, e.fn, 0, e.args, c, c');
    } else if e.TranslateTable? {
      PosInvSound(env, e.l, c, c');
    } else {
      PosInvSound(env, e.r, c, c');
    }
  }

  lemma {:induction false} ArgsPosInvSound(env: Env, fn: LibFn, i: nat, args: Exprs, c: Ctx, c': Ctx)
    requires c.n == c'.n && ArgsPosInv(args)
    ensures DenoteArgs(env, fn, i, args, c) == DenoteArgs(env, fn, i, args, c')
    decreases args, 1
  {
    if args.Arg? {
      PosInvSound(env, args.head, c, c');
      ArgsPosInvSound(env, fn, i + 1, args.tail, c, c');
    }
  }

  /** A node passes every position-independent predicate of a step. */
  predicate AllPass(env: Env, ps: Preds, y: XNode) {
    match ps
    case NoPreds => true
    case Pred(e, _, next) => ToBool(View(env.d, Denote(env, e, Ctx(y, 1, 1)))) && AllPass(env, next, y)
  }

  /** Position-independent predicates act node by node. */
  lemma {:induction false} PosInvSurvivors(env: Env, ps: Preds, s: seq<XNode>, y: XNode)
    requires StepPosInv(ps) && PredTestsOk(ps, TestOk)
    ensures y in Surviving(env, ps, s) <==> y in s && AllPass(env, ps, y)
  {
    hide Denote;
    match ps
    case NoPreds =>
    case Pred(e, _, next) =>
      var keep := Truths(env, e, s);
      PosInvSurvivors(env, next, Pick(s, keep), y);
      PickMember(s, keep, y);
      forall i | 0 <= i < |s| && s[i] == y
        ensures keep[i] == ToBool(View(env.d, Denote(env, e, Ctx(y, 1, 1))))
      {
        PosInvSound(env, e, Ctx(s[i], i + 1, |s|), Ctx(y, 1, 1));
      }
  }

  // ----- the rewrites

  lemma PosInvSelected(env: Env, axis: Axis, nodes: NodeTest, ps: Preds, x: XNode, z: XNode)
    requires env.d.Valid() && axis != Attribute && StepPosInv(ps) && PredTestsOk(ps, TestOk)
    ensures z in Surviving(env, ps, Selected(env, axis, nodes, x)) <==>
            Selects(env.d, axis, nodes, x, z) && AllPass(env, ps, z)
  {
    StepNodesOrdered(env.d, axis, nodes, x);
    PosInvSurvivors(env, ps, Selected(env, axis, nodes, x), z);
  }

  /** The nodes a step starts from. */
  function Sources(env: Env, left: Left, c: Ctx): set<XNode> {
    match left case Context => {c.n} case From(e) => AsSet(Denote(env, e, c))
  }

  lemma StepMember(env: Env, e: Expr, c: Ctx, z: XNode)
    requires e.Step?
    ensures z in AsSet(Denote(env, e, c)) <==>
            exists x :: x in Sources(env, e.left, c) && z in Surviving(env, e.preds, Selected(env, e.axis, e.nodes, x))
  {
  }

  /** A node reached through the fused step is reached through the two. */
  lemma FusedSplits(env: Env, e: Expr, c: Ctx, x: XNode, z: XNode)
    requires env.d.Valid() && e.Step? && PredTestsOk(e.preds, TestOk) && FuseStep(e) != e
    requires x in Sources(env, e.left.e.left, c) && z in Surviving(env, e.preds, Selected(env, FusedAxis(e.axis), e.nodes, x))
    ensures z in AsSet(Denote(env, e, c))
  {
    hide Denote, Selects, StepNodes, Surviving, Selected, AllPass, TestsOk, Doc.Valid;
    PosInvSelected(env, FusedAxis(e.axis), e.nodes, e.preds, x, z);
    FuseWitness(env.d, e.axis, e.nodes, x, z);
    var y :| Selects(env.d, DescendantOrSelf, TypeNode, x, y) && Selects(env.d, e.axis, e.nodes, y, z);
    PosInvSelected(env, e.axis, e.nodes, e.preds, y, z);
    NoPredsOk();
    PosInvSelected(env, DescendantOrSelf, TypeNode, NoPreds, x, y);
    AllPassNone(env, y);
    StepMember(env, e.left.e, c, y);
    assert y in Sources(env, e.left, c);
    StepMember(env, e, c, z);
  }

  /** And the other way. */
  lemma SplitFuses(env: Env, e: Expr, c: Ctx, y: XNode, z: XNode)
    requires env.d.Valid() && e.Step? && PredTestsOk(e.preds, TestOk) && FuseStep(e) != e
    requires y in Sources(env, e.left, c) && z in Surviving(env, e.preds, Selected(env, e.axis, e.nodes, y))
    ensures z in AsSet(Denote(env, FuseStep(e), c))
  {
    hide Denote, Selects, StepNodes, Surviving, Selected, AllPass, TestsOk, Doc.Valid;
    var inner := e.left.e;
    PosInvSelected(env, e.axis, e.nodes, e.preds, y, z);
    StepMember(env, inner, c, y);
    var x :| x in Sources(env, inner.left, c) && y in Surviving(env, NoPreds, Selected(env, DescendantOrSelf, TypeNode, x));
    NoPredsOk();
    PosInvSelected(env, DescendantOrSelf, TypeNode, NoPreds, x, y);
    FuseSound(env.d, e.axis, e.nodes, x, y, z);
    PosInvSelected(env, FusedAxis(e.axis), e.nodes, e.preds, x, z);
    StepMember(env, FuseStep(e), c, z);
  }

  lemma NoPredsOk()
    ensures StepPosInv(NoPreds) && PredTestsOk(NoPreds, TestOk)
  {
  }

  lemma AllPassNone(env: Env, y: XNode)
    ensures AllPass(env, NoPreds, y)
  {
  }

  lemma FuseStepMember(env: Env, e: Expr, c: Ctx, z: XNode)
    requires env.d.Valid() && e.Step? && PredTestsOk(e.preds, TestOk) && FuseStep(e) != e
    ensures z in AsSet(Denote(env, FuseStep(e), c)) <==> z in AsSet(Denote(env, e, c))
  {
    hide Denote, Surviving, Selected, TestsOk, Doc.Valid;
    StepMember(env, FuseStep(e), c, z);
    StepMember(env, e, c, z);
    if x :| x in Sources(env, e.left.e.left, c) && z in Surviving(env, e.preds, Selected(env, FusedAxis(e.axis), e.nodes, x)) {
      FusedSplits(env, e, c, x, z);
    }
    if y :| y in Sources(env, e.left, c) && z in Surviving(env, e.preds, Selected(env, e.axis, e.nodes, y)) {
      SplitFuses(env, e, c, y, z);
    }
  }

  /** descendant-or-self::node()/child::x[p] means descendant::x[p] when p ignores positions. */
  lemma FuseStepSound(env: Env, e: Expr, c: Ctx)
    requires env.d.Valid() && e.Step? && PredTestsOk(e.preds, TestOk)
    ensures Denote(env, FuseStep(e), c) == Denote(env, e, c)
  {
    if FuseStep(e) != e {
      var fused, plain := AsSet(Denote(env, FuseStep(e), c)), AsSet(Denote(env, e, c));
      forall z ensures z in fused <==> z in plain {
        FuseStepMember(env, e, c, z);
      }
      assert fused == plain;
    }
  }

  /** [position() = e] means [e]. */
  lemma DropPositionSound(env: Env, e: Expr, s: seq<XNode>)
    requires ValidEnv(env)
    ensures Truths(env, DropPosition(e), s) == Truths(env, e, s)
  {
    hide Denote, View, Passes, TypeOf;
    if DropPosition(e) != e {
      forall i | 0 <= i < |s|
        ensures Truths(env, DropPosition(e), s)[i] == Truths(env, e, s)[i]
      {
        PositionTruth(env, e, Ctx(s[i], i + 1, |s|));
      }
    }
  }

  lemma PositionTruth(env: Env, e: Expr, c: Ctx)
    requires ValidEnv(env) && e.Equal? && e.l.Position? && TypeOf(e.r) == TNumber
    ensures Passes(env, e.r, View(env.d, Denote(env, e.r, c)), c.pos) == Passes(env, e, View(env.d, Denote(env, e, c)), c.pos)
  {
    DenoteTyped(env, e.r, c);
    NumberEquals(env, e.l, e.r, c);
    hide ValidEnv;
  }

  lemma NumberEquals(env: Env, l: Expr, r: Expr, c: Ctx)
    requires l.Position? && Denote(env, r, c).Scalar? && Denote(env, r, c).a.Num?
    ensures Denote(env, Equal(l, r), c) == Scalar(Bool(NumEq(Fin(c.pos as real), Denote(env, r, c).a.n)))
  {
    assert Denote(env, l, c) == Scalar(Num(Fin(c.pos as real)));
  }

  predicate MeaningHasType(m: Meaning, ty: Type) {
    match ty
    case TNodeSet => m.Nodes?
    case TNumber => m.Scalar? && m.a.Num?
    case TString => m.Scalar? && m.a.Str?
    case TBoolean => m.Scalar? && m.a.Bool?
  }

  /** Static types are right. */
  lemma DenoteTyped(env: Env, e: Expr, c: Ctx)
    requires ValidEnv(env)
    ensures MeaningHasType(Denote(env, e, c), TypeOf(e))
  {
    if e.Variable? {
      assert HasType(env.vars(e.ty, e.name), e.ty);
    } else if e.Library? {
      var a := env.lib(e.fn, c.n, DenoteArgs(env, e.fn, 0, e.args, c));
      assert HasType(Scalar(a), LibType(e.fn));
    } else if Binary(e) || e.Equal? || Unary(e) {
      OperatorTyped(env, e, c);
    }
  }

  lemma OperatorTyped(env: Env, e: Expr, c: Ctx)
    requires Binary(e) || e.Equal? || Unary(e)
    ensures MeaningHasType(Denote(env, e, c), TypeOf(e))
  {
    hide View, ToBool, ToNum, ToStr, CompareEq, CompareRelation, Calculate, SumOf, Listing;
  }

  lemma UseTableSound(env: Env, e: Expr, c: Ctx)
    requires e.Translate?
    ensures Denote(env, UseTable(e), c) == Denote(env, e, c)
  {
    if UseTable(e) != e {
      hide Translation.Generate, Translation.Translate, Translation.TranslateByTable;
      Translation.TableAgrees(ToStr(env, View(env.d, Denote(env, e.l, c))), e.from.s, e.to.s);
      assert Denote(env, e.from, c) == Scalar(Str(e.from.s)) && Denote(env, e.to, c) == Scalar(Str(e.to.s));
    }
  }

  lemma AscendingHead(s: seq<XNode>, x: XNode)
    requires Ascending(s) && x in s
    requires forall y :: y in s && y != x ==> Before(x, y)
    ensures s[0] == x
  {
    var j :| 0 <= j < |s| && s[j] == x;
    assert s[0] in s;
  }

  /** The nodes @name selects: the first attribute of that name, unless it declares a namespace. */
  lemma AttributeStep(env: Env, x: XNode, name: string)
    requires env.d.Valid() && env.firstOnly
    ensures var d := env.d;
            Selected(env, Attribute, Name(name), x) ==
            if x.N? && x.i < d.Size() && IsXPathAttribute(name) && FirstAttribute(d.attrs[x.i], name) < |d.attrs[x.i]|
            then [A(x.i, FirstAttribute(d.attrs[x.i], name))] else []
  {
    var d := env.d;
    var s := StepNodes(d, Attribute, Name(name), x);
    StepNodesOrdered(d, Attribute, Name(name), x);
    if x.N? && x.i < d.Size() && IsXPathAttribute(name) && FirstAttribute(d.attrs[x.i], name) < |d.attrs[x.i]| {
      var a := A(x.i, FirstAttribute(d.attrs[x.i], name));
      assert Selects(d, Attribute, Name(name), x, a);
      AscendingHead(s, a);
    } else {
      assert forall y :: !Selects(d, Attribute, Name(name), x, y);
      ElemsEmpty(s);
      assert Elems(s) == {};
    }
  }

  lemma AttributeEq(env: Env, x: XNode, name: string, v: string, S: set<XNode>)
    requires env.d.Valid() && env.firstOnly && S == Elems(Selected(env, Attribute, Name(name), x))
    ensures CompareEq(env, false, Nodes(S), Scalar(Str(v))) == AttributeIs(env.d, x, name, v)
  {
    hide Selected, StepNodes, FirstAttribute;
    AttributeStep(env, x, name);
    var found := Selected(env, Attribute, Name(name), x);
    if found != [] {
      assert S == {found[0]};
    } else {
      assert S == {};
    }
  }

  /** @name = v is the direct lookup. */
  lemma UseAttributeSound(env: Env, e: Expr, c: Ctx)
    requires ValidEnv(env) && e.Equal?
    ensures Denote(env, UseAttribute(e), c) == Denote(env, e, c)
  {
    hide StepNodes, FirstAttribute, View, CompareEq, AttributeIs, Doc.Valid, Selected, Sources;
    if UseAttribute(e) != e {
      var name := e.l.nodes.s;
      var S, found := AsSet(Denote(env, e.l, c)), Selected(env, Attribute, Name(name), c.n);
      DenoteTyped(env, e.r, c);
      forall y ensures y in S <==> y in found {
        StepMember(env, e.l, c, y);
        assert Surviving(env, NoPreds, found) == found;
      }
      ScalarView(env.d, Denote(env, e.r, c).a);
      AttributeEq(env, c.n, name, Denote(env, e.r, c).a.s, S);
    }
  }

  lemma ScalarView(d: Doc, a: Atom)
    ensures View(d, Scalar(a)) == a
  {
  }

  // ----- the whole optimizer

  lemma {:induction false} OptimizeKeepsType(e: Expr)
    ensures TypeOf(Optimize(e)) == TypeOf(e)
  {
  }

  lemma {:induction false} TruthsSame(env: Env, e: Expr, s: seq<XNode>)
    requires ValidEnv(env) && Fresh(e)
    ensures Truths(env, DropPosition(Optimize(e)), s) == Truths(env, e, s)
    decreases e, 2
  {
    hide Denote, Optimize, DropPosition, View, TypeOf, TestsOk;
    OptimizeKeepsType(e);
    DropPositionSound(env, Optimize(e), s);
    forall i | 0 <= i < |s|
      ensures Truths(env, Optimize(e), s)[i] == Truths(env, e, s)[i]
    {
      OptimizeKeepsMeaning(env, e, Ctx(s[i], i + 1, |s|));
    }
  }

  lemma {:induction false} SurvivingSame(env: Env, ps: Preds, s: seq<XNode>)
    requires ValidEnv(env) && PredTestsOk(ps, Untested)
    ensures Surviving(env, OptimizePreds(ps), s) == Surviving(env, ps, s)
    decreases ps, 1
  {
    if ps.Pred? {
      TruthsSame(env, ps.e, s);
      SurvivingSame(env, ps.next, Pick(s, Truths(env, ps.e, s)));
    }
  }

  lemma {:induction false} ArgsSame(env: Env, fn: LibFn, i: nat, args: Exprs, c: Ctx)
    requires ValidEnv(env) && ArgTestsOk(args, Untested)
    ensures DenoteArgs(env, fn, i, OptimizeArgs(args), c) == DenoteArgs(env, fn, i, args, c)
    decreases args, 1
  {
    if args.Arg? {
      OptimizeKeepsMeaning(env, args.head, c);
      ArgsSame(env, fn, i + 1, args.tail, c);
    }
  }

  lemma {:induction false} StepSame(env: Env, e: Expr, c: Ctx)
    requires ValidEnv(env) && Fresh(e) && e.Step?
    ensures Denote(env, Optimize(e), c) == Denote(env, e, c)
    decreases e, 0
  {
    if e.left.From? {
      OptimizeKeepsMeaning(env, e.left.e, c);
    }
    var step := Step(if e.left.Context? then Context else From(Optimize(e.left.e)), e.axis, e.nodes, OptimizePreds(e.preds));
    PredsClassified(e.preds);
    FuseStepSound(env, step, c);
    var S, T := AsSet(Denote(env, step, c)), AsSet(Denote(env, e, c));
    forall z ensures z in S <==> z in T {
      StepMember(env, step, c, z);
      StepMember(env, e, c, z);
      forall x
        ensures Surviving(env, step.preds, Selected(env, e.axis, e.nodes, x)) ==
                Surviving(env, e.preds, Selected(env, e.axis, e.nodes, x))
      {
        SurvivingSame(env, e.preds, Selected(env, e.axis, e.nodes, x));
      }
    }
    assert S == T;
  }

  lemma {:induction false} BinarySame(env: Env, e: Expr, c: Ctx)
    requires ValidEnv(env) && Fresh(e)
    requires e.Or? || e.And? || e.Equal? || e.NotEqual? || e.Relation? || e.Arith? || e.Union?
    ensures Denote(env, Optimize(e), c) == Denote(env, e, c)
    decreases e, 0
  {
    hide View, CompareEq, CompareRelation;
    OptimizeKeepsMeaning(env, e.l, c);
    OptimizeKeepsMeaning(env, e.r, c);
    if e.Equal? {
      UseAttributeSound(env, Equal(Optimize(e.l), Optimize(e.r)), c);
    }
  }

  lemma {:induction false} UnarySame(env: Env, e: Expr, c: Ctx)
    requires ValidEnv(env) && Fresh(e)
    requires e.Negate? || e.Count? || e.Sum? || e.Id? || e.Boolean? || e.Not? || e.ToNumber? || e.ToString? || e.TranslateTable?
    ensures Denote(env, Optimize(e), c) == Denote(env, e, c)
    decreases e, 0
  {
    hide View, ToBool, ToNum, ToStr, CompareEq, CompareRelation, Calculate, SumOf, Truths, Pick, Surviving, Selected, Listing, Coerce,
      AttributeIs, RootOf;
    OptimizeKeepsMeaning(env, e.l, c);
  }

  /** For every document, context and freshly parsed query, the optimized query means the same. */
  lemma {:induction false} OptimizeKeepsMeaning(env: Env, e: Expr, c: Ctx)
    requires ValidEnv(env) && Fresh(e)
    ensures Denote(env, Optimize(e), c) == Denote(env, e, c)
    decreases e, 1
  {
    if e.Or? || e.And? || e.Equal? || e.NotEqual? || e.Relation? || e.Arith? || e.Union? {
      BinarySame(env, e, c);
    } else if e.Negate? || e.Count? || e.Sum? || e.Id? || e.Boolean? || e.Not? || e.ToNumber? || e.ToString? || e.TranslateTable? {
      UnarySame(env, e, c);
    } else if e.Step? {
      StepSame(env, e, c);
    } else if e.Filter? {
      OptimizeKeepsMeaning(env, e.l, c);
      TruthsSame(env, e.r, Listing(env.d, AsSet(Denote(env, e.l, c))));
    } else if e.Translate? {
      OptimizeKeepsMeaning(env, e.l, c);
      OptimizeKeepsMeaning(env, e.from, c);
      OptimizeKeepsMeaning(env, e.to, c);
      UseTableSound(env, Translate(Optimize(e.l), Optimize(e.from), Optimize(e.to)), c);
    } else if e.Library? {
      ArgsSame(env, e.fn, 0, e.args, c);
    } else if e.CompareAttribute? {
      OptimizeKeepsMeaning(env, e.r, c);
    }
  }

  // ----- the classifications the optimizer leaves behind are justified

  lemma {:induction false} DropPositionClassified(e: Expr)
    requires Classified(e)
    ensures Classified(DropPosition(e)) && TestOk(DropPosition(e), Classify(DropPosition(e), Default))
  {
  }

  lemma {:induction false} PredsClassified(ps: Preds)
    requires PredTestsOk(ps, Untested)
    ensures PredTestsOk(OptimizePreds(ps), TestOk)
    decreases ps, 1
  {
    if ps.Pred? {
      OptimizeClassified(ps.e);
      DropPositionClassified(Optimize(ps.e));
      PredsClassified(ps.next);
    }
  }

  lemma {:induction false} ArgsClassified(args: Exprs)
    requires ArgTestsOk(args, Untested)
    ensures ArgTestsOk(OptimizeArgs(args), TestOk)
    decreases args, 1
  {
    if args.Arg? {
      OptimizeClassified(args.head);
      ArgsClassified(args.tail);
    }
  }

  lemma BinaryClassified(e: Expr)
    requires Binary(e) && Classified(Optimize(e.l)) && Classified(Optimize(e.r))
    ensures Classified(Optimize(e))
  {
  }

  lemma UnaryClassified(e: Expr)
    requires Unary(e) && Classified(Optimize(e.l))
    ensures Classified(Optimize(e))
  {
  }

  lemma {:induction false} OptimizeClassified(e: Expr)
    requires Fresh(e)
    ensures Classified(Optimize(e))
    decreases e, 1
  {
    if Binary(e) {
      OptimizeClassified(e.l);
      OptimizeClassified(e.r);
      hide Optimize;
      BinaryClassified(e);
    } else if Unary(e) {
      OptimizeClassified(e.l);
      hide Optimize;
      UnaryClassified(e);
    } else {
      OthersClassified(e);
    }
  }

  lemma {:induction false} OthersClassified(e: Expr)
    requires Fresh(e) && !Binary(e) && !Unary(e)
    ensures Classified(Optimize(e))
    decreases e, 0
  {
    match e
    case Equal(l, r) => OptimizeClassified(l); OptimizeClassified(r);
    case Filter(l, r, _) =>
      OptimizeClassified(l); OptimizeClassified(r);
      DropPositionClassified(Optimize(r));
    case Translate(l, from, to) => OptimizeClassified(l); OptimizeClassified(from); OptimizeClassified(to);
    case Library(_, args) => ArgsClassified(args);
    case Step(left, _, _, ps) =>
      if left.From? { OptimizeClassified(left.e); }
      PredsClassified(ps);
    case TranslateTable(l, _) => OptimizeClassified(l);
    case CompareAttribute(_, r) => OptimizeClassified(r);
    case _ =>
  }
}
