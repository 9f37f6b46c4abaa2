/** What a caller of a compiled query can rely on. */
module XPathResults {
  import opened Sequences
  import opened Documents
  import opened Axes
  import opened XPathSyntax
  import opened XPathMeaning
  import opened XPathEval
  import opened NodeSetFacts
  import opened XPathRefinement
  import XPathOptimizer

  // ----- a freshly parsed query has nothing to justify

  lemma {:induction false} FreshClassified(e: Expr)
    requires Fresh(e)
    ensures Classified(e)
    decreases e, 1
  {
    if Binary(e) || e.Equal? || e.Filter? {
      FreshClassified(e.l);
      FreshClassified(e.r);
    } else if Unary(e) || e.TranslateTable? {
      FreshClassified(e.l);
    } else if e.Step? {
      if e.left.From? {
        FreshClassified(e.left.e);
      }
      FreshPreds(e.preds);
    } else if e.Library? {
      FreshArgs(e.args);
    } else if e.Translate? {
      FreshClassified(e.l);
      FreshClassified(e.from);
      FreshClassified(e.to);
    } else if e.CompareAttribute? {
      FreshClassified(e.r);
    }
  }

  lemma {:induction false} FreshPreds(ps: Preds)
    requires PredTestsOk(ps, Untested)
    ensures PredTestsOk(ps, TestOk)
    decreases ps, 1
  {
    if ps.Pred? {
      FreshClassified(ps.e);
      FreshPreds(ps.next);
    }
  }

  lemma {:induction false} FreshArgs(args: Exprs)
    requires ArgTestsOk(args, Untested)
    ensures ArgTestsOk(args, TestOk)
    decreases args, 1
  {
    if args.Arg? {
      FreshClassified(args.head);
      FreshArgs(args.tail);
    }
  }

  // ----- results

  function BooleanResult(env: Env, e: Expr, c: Ctx): bool {
    ToBool(Look(Eval(env, e, c, Any)))
  }

  function NumberResult(env: Env, e: Expr, c: Ctx): Number {
    ToNum(env, Look(Eval(env, e, c, First)))
  }

  function StringResult(env: Env, e: Expr, c: Ctx): string {
    ToStr(env, Look(Eval(env, e, c, First)))
  }

  function NodeSetResult(env: Env, e: Expr, c: Ctx): NodeSet {
    AsNodeSet(Eval(env, e, c, All))
  }

  /** What a query for a single node returns. */
  function SingleNodeResult(env: Env, e: Expr, c: Ctx): XNode {
    FirstNode(AsNodeSet(Eval(env, e, c, First)))
  }

  /** Two truthfully tagged arrays of the same nodes sort to the same array. */
  lemma SameSorted(d: Doc, a: NodeSet, b: NodeSet)
    requires d.Valid() && Honest(d, a) && Honest(d, b) && Elems(a.nodes) == Elems(b.nodes)
    ensures SortDo(a) == SortDo(b)
  {
    hide SortDo, Honest;
    SortDoLists(d, a);
    SortDoLists(d, b);
  }

  /** The first mode shows the least node of the meaning, or none. */
  lemma SingleNode(env: Env, e: Expr, c: Ctx)
    requires ValidEnv(env) && Classified(e) && ValidCtx(env.d, c) && TypeOf(e) == TNodeSet
    ensures Node(SingleNodeResult(env, e, c)) == View(env.d, Denote(env, e, c))
  {
    hide Eval, Denote, View, TestsOk, FirstNode;
    XPathOptimizer.DenoteTyped(env, e, c);
    EvalRefines(env, e, c, First);
    LookAgrees(env.d, Eval(env, e, c, First), Denote(env, e, c), First);
  }

  /** Every result of an optimized query is the result of the query as written; a node set is the same set, with the
      same first node and the same listing in document order. */
  lemma OptimizeKeepsResults(env: Env, e: Expr, c: Ctx)
    requires ValidEnv(env) && Fresh(e) && ValidCtx(env.d, c)
    ensures BooleanResult(env, Optimize(e), c) == BooleanResult(env, e, c)
    ensures NumberResult(env, Optimize(e), c) == NumberResult(env, e, c)
    ensures StringResult(env, Optimize(e), c) == StringResult(env, e, c)
    ensures Elems(NodeSetResult(env, Optimize(e), c).nodes) == Elems(NodeSetResult(env, e, c).nodes)
    ensures TypeOf(e) == TNodeSet ==>
              && SingleNodeResult(env, Optimize(e), c) == SingleNodeResult(env, e, c)
              && SortDo(NodeSetResult(env, Optimize(e), c)) == SortDo(NodeSetResult(env, e, c))
  {
    hide Eval, Denote, Look, View, TestsOk, Optimize, TypeOf, SortDo, SingleNodeResult, Honest;
    XPathOptimizer.OptimizeKeepsType(e);
    FreshClassified(e);
    XPathOptimizer.OptimizeClassified(e);
    XPathOptimizer.OptimizeKeepsMeaning(env, e, c);
    Looks(env, e, c, Any);
    Looks(env, Optimize(e), c, Any);
    Looks(env, e, c, First);
    Looks(env, Optimize(e), c, First);
    EvalRefines(env, e, c, All);
    EvalRefines(env, Optimize(e), c, All);
    if TypeOf(e) == TNodeSet {
      SingleNode(env, e, c);
      SingleNode(env, Optimize(e), c);
      ResultsHonest(env, e, c, All);
      ResultsHonest(env, Optimize(e), c, All);
      SameSorted(env.d, NodeSetResult(env, e, c), NodeSetResult(env, Optimize(e), c));
    }
  }

  /** Every node set a query produces is duplicate-free and truthfully tagged, in every mode. */
  lemma ResultsHonest(env: Env, e: Expr, c: Ctx, mode: Mode)
    requires ValidEnv(env) && Classified(e) && ValidCtx(env.d, c) && TypeOf(e) == TNodeSet
    ensures Honest(env.d, AsNodeSet(Eval(env, e, c, mode)))
    ensures Elems(AsNodeSet(Eval(env, e, c, mode)).nodes) <= AsSet(Denote(env, e, c))
  {
    hide Eval, Denote, TestsOk;
    EvalRefines(env, e, c, mode);
    XPathOptimizer.DenoteTyped(env, e, c);
  }

  /** Stopping early never changes what the caller asked for. */
  lemma EarlyStoppingAgrees(env: Env, e: Expr, c: Ctx)
    requires ValidEnv(env) && Classified(e) && ValidCtx(env.d, c) && TypeOf(e) == TNodeSet
    ensures (AsNodeSet(Eval(env, e, c, Any)).nodes == []) == (AsNodeSet(Eval(env, e, c, All)).nodes == [])
    ensures FirstNode(AsNodeSet(Eval(env, e, c, First))) == FirstNode(AsNodeSet(Eval(env, e, c, All)))
  {
    hide Eval, Denote, View, TestsOk, FirstNode;
    XPathOptimizer.DenoteTyped(env, e, c);
    EvalRefines(env, e, c, Any);
    EvalRefines(env, e, c, All);
    EvalRefines(env, e, c, First);
    ElemsEmpty(AsNodeSet(Eval(env, e, c, Any)).nodes);
    ElemsEmpty(AsNodeSet(Eval(env, e, c, All)).nodes);
    LookAgrees(env.d, Eval(env, e, c, All), Denote(env, e, c), All);
    LookAgrees(env.d, Eval(env, e, c, First), Denote(env, e, c), First);
  }

  // ----- the attribute shortcut

  /** At most one attribute of this element carries the name. */
  predicate AtMostOne(attrs: seq<Attr>, name: string) {
    forall j, k :: 0 <= j < k < |attrs| ==> attrs[j].name != name || attrs[k].name != name
  }

  /** Stopping at the first attribute of a name is complete exactly when the name is not repeated. */
  lemma AttributeShortcut(d: Doc, i: nat, name: string)
    requires d.Valid() && i < d.Size() && IsXPathAttribute(name)
    ensures Head(StepNodes(d, Attribute, Name(name), N(i))) == StepNodes(d, Attribute, Name(name), N(i))
            <==> AtMostOne(d.attrs[i], name)
  {
    hide StepNodes;
    var s := StepNodes(d, Attribute, Name(name), N(i));
    StepNodesOrdered(d, Attribute, Name(name), N(i));
    if AtMostOne(d.attrs[i], name) {
      forall j, k | 0 <= j < |s| && 0 <= k < |s| ensures s[j] == s[k] {
        assert s[j] in s && s[k] in s;
        assert Selects(d, Attribute, Name(name), N(i), s[j]) && Selects(d, Attribute, Name(name), N(i), s[k]);
      }
      assert |s| <= 1 by {
        NoDupSize(s);
        assert s == [] || Elems(s) == {s[0]};
      }
    } else {
      var j, k :| 0 <= j < k < |d.attrs[i]| && d.attrs[i][j].name == name == d.attrs[i][k].name;
      assert Selects(d, Attribute, Name(name), N(i), A(i, j)) && Selects(d, Attribute, Name(name), N(i), A(i, k));
      assert A(i, j) in s && A(i, k) in s;
    }
  }
}
