/** Evaluation answers the reference meaning: in every mode, with honest tags and no duplicates. */
module XPathRefinement {
  import opened Sequences
  import opened Documents
  import opened Axes
  import opened XPathSyntax
  import opened XPathMeaning
  import opened XPathEval
  import opened NodeSetFacts
  import XPathOptimizer

  predicate ValidCtx(d: Doc, c: Ctx) {
    c.n == Null || InDoc(d, c.n)
  }

  // ----- predicates

  /** A constant position picks what testing every position would keep. */
  lemma {:induction false} ConstantPick(s: seq<XNode>, keep: seq<bool>, n: Number)
    requires |keep| == |s|
    requires forall i :: 0 <= i < |s| ==> keep[i] == NumEq(n, Fin((i + 1) as real))
    ensures Pick(s, keep) == PickConstant(s, n)
  {
    if s != [] {
      var m := |s| - 1;
      ConstantPick(s[..m], keep[..m], n);
    }
  }

  lemma ConstantTruth(env: Env, e: Expr, c: Ctx)
    requires ValidEnv(env) && IsConstantNumber(e)
    ensures Passes(env, e, View(env.d, Denote(env, e, c)), c.pos) ==
            NumEq(ToNum(env, Look(Eval(env, e, Ctx(Null, 1, c.size), First))), Fin(c.pos as real))
  {
    assert e.Variable? ==> HasType(env.vars(e.ty, e.name), e.ty);
  }

  lemma ConstantTruths(env: Env, e: Expr, s: seq<XNode>)
    requires ValidEnv(env) && IsConstantNumber(e)
    ensures Pick(s, Truths(env, e, s)) == PickConstant(s, ToNum(env, Look(Eval(env, e, Ctx(Null, 1, |s|), First))))
  {
    hide Eval, Denote, Look, Pick, PickConstant;
    var n := ToNum(env, Look(Eval(env, e, Ctx(Null, 1, |s|), First)));
    var keep := Truths(env, e, s);
    forall i | 0 <= i < |s| ensures keep[i] == NumEq(n, Fin((i + 1) as real)) {
      ConstantTruth(env, e, Ctx(s[i], i + 1, |s|));
    }
    ConstantPick(s, keep, n);
  }

  lemma {:induction false} TruthsRefined(env: Env, e: Expr, s: seq<XNode>)
    requires ValidEnv(env) && Classified(e) && forall x :: x in s ==> InDoc(env.d, x)
    ensures EvalTruths(env, e, s) == Truths(env, e, s)
    decreases e, 10
  {
    hide Eval, Denote, Look, View, TestsOk;
    forall i | 0 <= i < |s| ensures EvalTruths(env, e, s)[i] == Truths(env, e, s)[i] {
      var c := Ctx(s[i], i + 1, |s|);
      var mode := if TypeOf(e) == TNumber then First else Any;
      EvalRefines(env, e, c, mode);
      LookAgrees(env.d, Eval(env, e, c, mode), Denote(env, e, c), mode);
    }
  }

  lemma {:induction false} PredicateRefined(env: Env, e: Expr, test: Test, s: seq<XNode>, once: bool)
    requires ValidEnv(env) && Classified(e) && TestOk(e, test) && forall x :: x in s ==> InDoc(env.d, x)
    ensures ApplyPredicate(env, e, test, s, once) == Stop(Pick(s, Truths(env, e, s)), once)
    decreases e, 11
  {
    hide Eval, Denote, Look, View, TestsOk;
    if test == Constant || test == ConstantOne {
      ConstantTruths(env, e, s);
    } else {
      TruthsRefined(env, e, s);
    }
  }

  lemma SurvivorsInDoc(env: Env, e: Expr, s: seq<XNode>)
    ensures forall x :: x in Pick(s, Truths(env, e, s)) ==> x in s
  {
    hide Truths, Denote;
    forall x | x in Pick(s, Truths(env, e, s)) ensures x in s {
      PickMember(s, Truths(env, e, s), x);
    }
  }

  lemma {:induction false} PredicatesRefined(env: Env, ps: Preds, s: seq<XNode>, lastOnce: bool)
    requires ValidEnv(env) && PredTestsOk(ps, TestOk) && forall x :: x in s ==> InDoc(env.d, x)
    ensures ApplyPredicates(env, ps, s, lastOnce) == Stop(Surviving(env, ps, s), lastOnce && ps.Pred?)
    decreases ps, 1, 0
  {
    hide Truths, ApplyPredicate;
    if ps.Pred? {
      var t := Pick(s, Truths(env, ps.e, s));
      PredicateRefined(env, ps.e, ps.test, s, ps.next.NoPreds? && lastOnce);
      SurvivorsInDoc(env, ps.e, s);
      if ps.next.Pred? {
        PredicatesRefined(env, ps.next, t, lastOnce);
      }
    }
  }

  // ----- one step

  /** Everything one input node contributes. */
  function Full(env: Env, e: Expr, x: XNode): seq<XNode>
    requires e.Step?
  {
    Surviving(env, e.preds, Selected(env, e.axis, e.nodes, x))
  }

  predicate Cut(e: Expr, tag: Tag, mode: Mode)
    requires e.Step?
  {
    EvalOnce(if e.preds.NoPreds? then AxisTag(e.axis) else tag, mode)
  }

  lemma FirstOfOne(env: Env, ps: Preds, s: seq<XNode>)
    requires ValidEnv(env) && ps.Pred? && ps.next.NoPreds? && ps.e == NumberConst(Fin(1.0))
    ensures Surviving(env, ps, Head(s)) == Surviving(env, ps, s)
  {
    hide Truths, Pick, Eval, Denote, Look, View;
    FirstTruths(env, ps.e, s);
    FirstTruths(env, ps.e, Head(s));
    assert Head(Head(s)) == Head(s);
  }

  lemma FirstTruths(env: Env, e: Expr, s: seq<XNode>)
    requires ValidEnv(env) && e == NumberConst(Fin(1.0))
    ensures Pick(s, Truths(env, e, s)) == Head(s)
  {
    hide Truths, Pick;
    ConstantTruths(env, e, s);
    assert (1.0).Floor == 1;
  }

  /** Stopping the walk early only ever drops what the predicates would drop, or what the mode does not need. */
  lemma {:induction false} SegmentRefined(env: Env, e: Expr, x: XNode, tag: Tag, mode: Mode)
    requires ValidEnv(env) && e.Step? && PredTestsOk(e.preds, TestOk)
    ensures Segment(env, e, x, tag, mode) == Stop(Full(env, e, x), Cut(e, tag, mode))
    decreases e.preds, 2, 0
  {
    hide StepNodes, EvalOnce, Truths, ApplyPredicate, TestsOk, Surviving;
    var all := StepNodes(env.d, e.axis, e.nodes, x);
    StepNodesOrdered(env.d, e.axis, e.nodes, x);
    var base := Stop(all, FillOnce(e, mode));
    assert forall y :: y in base ==> Selects(env.d, e.axis, e.nodes, x, y);
    PredicatesRefined(env, e.preds, base, EvalOnce(tag, mode));
    if e.preds.NoPreds? {
      NoPredsSurvive(env, base);
      NoPredsSurvive(env, Selected(env, e.axis, e.nodes, x));
    } else if !(e.axis == Attribute && e.nodes.Name?) && e.preds.next.NoPreds? && e.preds.test == ConstantOne {
      FirstOfOne(env, e.preds, all);
    }
  }

  lemma NoPredsSurvive(env: Env, s: seq<XNode>)
    ensures Surviving(env, NoPreds, s) == s
  {
  }

  lemma {:induction false} SurvivingPairwise(env: Env, ps: Preds, s: seq<XNode>, rel: (XNode, XNode) -> bool)
    requires forall i, j :: 0 <= i < j < |s| ==> rel(s[i], s[j])
    ensures forall i, j :: 0 <= i < j < |Surviving(env, ps, s)| ==> rel(Surviving(env, ps, s)[i], Surviving(env, ps, s)[j])
    ensures forall y :: y in Surviving(env, ps, s) ==> y in s
    decreases ps
  {
    hide Truths, Denote;
    if ps.Pred? {
      PickPairwise(s, Truths(env, ps.e, s), rel);
      SurvivorsInDoc(env, ps.e, s);
      SurvivingPairwise(env, ps.next, Pick(s, Truths(env, ps.e, s)), rel);
    }
  }

  /** Each contribution follows its axis order. */
  lemma FullOrdered(env: Env, e: Expr, x: XNode)
    requires env.d.Valid() && e.Step?
    ensures if IsReverse(e.axis) then Descending(Full(env, e, x)) else Ascending(Full(env, e, x))
    ensures forall y :: y in Full(env, e, x) ==> Selects(env.d, e.axis, e.nodes, x, y)
  {
    hide Surviving, StepNodes;
    StepNodesOrdered(env.d, e.axis, e.nodes, x);
    var s := Selected(env, e.axis, e.nodes, x);
    if IsReverse(e.axis) {
      SurvivingPairwise(env, e.preds, s, (a, b) => Before(b, a));
    } else {
      SurvivingPairwise(env, e.preds, s, Before);
    }
  }

  lemma SegmentWithin(env: Env, e: Expr, x: XNode, tag: Tag, mode: Mode)
    requires ValidEnv(env) && e.Step? && PredTestsOk(e.preds, TestOk)
    ensures forall y :: y in Segment(env, e, x, tag, mode) ==> Selects(env.d, e.axis, e.nodes, x, y)
    ensures if IsReverse(e.axis) then Descending(Segment(env, e, x, tag, mode)) else Ascending(Segment(env, e, x, tag, mode))
    decreases e.preds, 3, 0
  {
    hide Segment, Full;
    SegmentRefined(env, e, x, tag, mode);
    FullOrdered(env, e, x);
  }

  // ----- the loop over input nodes: contents

  function Reached(env: Env, e: Expr, s: seq<XNode>): set<XNode>
    requires e.Step?
  {
    if s == [] then {} else Reached(env, e, s[..|s| - 1]) + Elems(Full(env, e, s[|s| - 1]))
  }

  ghost predicate Collects(nodes: seq<XNode>, S: set<XNode>, mode: Mode) {
    && Elems(nodes) <= S
    && (mode == All ==> Elems(nodes) == S)
    && (S != {} ==> nodes != [])
    && (mode == First ==> forall x :: IsLeast(x, S) ==> x in nodes)
  }

  /** Appending one possibly cut contribution keeps what the mode needs. */
  lemma CollectsMore(nodes: seq<XNode>, S: set<XNode>, full: seq<XNode>, cut: bool, mode: Mode)
    requires Collects(nodes, S, mode)
    requires cut ==> mode == Any || (mode == First && Ascending(full))
    ensures Collects(nodes + Stop(full, cut), S + Elems(full), mode)
  {
    var part := Stop(full, cut);
    ElemsConcat(nodes, part);
    ElemsEmpty(full);
    if mode == First {
      forall x | IsLeast(x, S + Elems(full)) ensures x in nodes + part {
        if x in S {
          assert IsLeast(x, S);
        } else {
          assert x in full;
          var j :| 0 <= j < |full| && full[j] == x;
          assert full[0] in Elems(full);
        }
      }
    }
  }

  /** A contribution is cut in first mode only when it is in document order. */
  lemma CutAscends(env: Env, e: Expr, s: seq<XNode>, tag: Tag, mode: Mode, x: XNode)
    requires ValidEnv(env) && e.Step? && PredTestsOk(e.preds, TestOk)
    requires e.axis != Self ==> tag == AxisTag(e.axis)
    requires Cut(e, NextTag(e.axis, StepLoop(env, e, s, tag, mode)), mode)
    ensures mode == Any || (mode == First && Ascending(Full(env, e, x)))
  {
    LoopTag(env, e, s, tag, mode);
    FullOrdered(env, e, x);
  }

  lemma {:induction false} LoopTag(env: Env, e: Expr, s: seq<XNode>, tag: Tag, mode: Mode)
    requires e.Step?
    ensures var ns := StepLoop(env, e, s, tag, mode);
            (e.axis == Self ==> ns.tag == tag) && (ns.tag == tag || ns.tag == Unsorted)
  {
    hide Segment;
    if s != [] {
      LoopTag(env, e, s[..|s| - 1], tag, mode);
    }
  }

  lemma {:induction false} LoopCollects(env: Env, e: Expr, s: seq<XNode>, tag: Tag, mode: Mode)
    requires ValidEnv(env) && e.Step? && PredTestsOk(e.preds, TestOk)
    requires e.axis != Self ==> tag == AxisTag(e.axis)
    ensures Collects(StepLoop(env, e, s, tag, mode).nodes, Reached(env, e, s), mode)
    decreases e.preds, 4, |s|
  {
    hide Segment, Full, Cut;
    if s != [] {
      var n := |s| - 1;
      LoopCollects(env, e, s[..n], tag, mode);
      var acc := StepLoop(env, e, s[..n], tag, mode);
      var next := NextTag(e.axis, acc);
      SegmentRefined(env, e, s[n], next, mode);
      if Cut(e, next, mode) {
        CutAscends(env, e, s[..n], tag, mode, s[n]);
      }
      CollectsMore(acc.nodes, Reached(env, e, s[..n]), Full(env, e, s[n]), Cut(e, next, mode), mode);
    }
  }

  // ----- the loop over input nodes: order and duplicates

  /** Off the self axis the set stays ordered only while a single node has contributed. */
  lemma {:induction false} LoopOrdered(env: Env, e: Expr, s: seq<XNode>, mode: Mode)
    requires ValidEnv(env) && e.Step? && PredTestsOk(e.preds, TestOk) && e.axis != Self
    ensures var ns := StepLoop(env, e, s, AxisTag(e.axis), mode);
            && (ns.nodes == [] ==> ns.tag == AxisTag(e.axis))
            && (ns.tag != Unsorted ==> if IsReverse(e.axis) then Descending(ns.nodes) else Ascending(ns.nodes))
            && (forall y :: y in ns.nodes ==> exists x :: x in s && Selects(env.d, e.axis, e.nodes, x, y))
    decreases e.preds, 4, |s|
  {
    hide Segment, Selects;
    if s != [] {
      var n, tag := |s| - 1, AxisTag(e.axis);
      LoopOrdered(env, e, s[..n], mode);
      var acc := StepLoop(env, e, s[..n], tag, mode);
      var next := NextTag(e.axis, acc);
      SegmentWithin(env, e, s[n], next, mode);
      var ns := StepLoop(env, e, s, tag, mode);
      if acc.nodes == [] {
        assert ns.nodes == Segment(env, e, s[n], next, mode);
      }
      forall y | y in ns.nodes ensures exists x :: x in s && Selects(env.d, e.axis, e.nodes, x, y) {
        if y in acc.nodes {
          var x :| x in s[..n] && Selects(env.d, e.axis, e.nodes, x, y);
          assert x in s;
        } else {
          assert s[n] in s && Selects(env.d, e.axis, e.nodes, s[n], y);
        }
      }
    }
  }

  /** Different parents have different children, different elements different attributes. */
  lemma OneOrigin(d: Doc, axis: Axis, test: NodeTest, x: XNode, x': XNode, y: XNode)
    requires d.Valid() && (axis == Child || axis == Attribute)
    requires Selects(d, axis, test, x, y) && Selects(d, axis, test, x', y)
    ensures x == x'
  {
  }

  lemma {:induction false} LoopUnique(env: Env, e: Expr, s: seq<XNode>, mode: Mode)
    requires ValidEnv(env) && e.Step? && PredTestsOk(e.preds, TestOk)
    requires (e.axis == Child || e.axis == Attribute) && NoDup(s)
    ensures NoDup(StepLoop(env, e, s, AxisTag(e.axis), mode).nodes)
    decreases e.preds, 5, |s|
  {
    hide Segment, Selects;
    if s != [] {
      var n, tag := |s| - 1, AxisTag(e.axis);
      LoopUnique(env, e, s[..n], mode);
      LoopOrdered(env, e, s[..n], mode);
      var acc := StepLoop(env, e, s[..n], tag, mode);
      var seg := Segment(env, e, s[n], NextTag(e.axis, acc), mode);
      SegmentWithin(env, e, s[n], NextTag(e.axis, acc), mode);
      AscendingNoDup(seg);
      forall i, j | 0 <= i < |acc.nodes| && 0 <= j < |seg| ensures acc.nodes[i] != seg[j] {
        assert seg[j] in seg && acc.nodes[i] in acc.nodes;
        var x :| x in s[..n] && Selects(env.d, e.axis, e.nodes, x, acc.nodes[i]);
        if acc.nodes[i] == seg[j] {
          OneOrigin(env.d, e.axis, e.nodes, x, s[n], seg[j]);
        }
      }
    }
  }

  /** The self axis keeps the order of its input. */
  lemma {:induction false} LoopSelf(env: Env, e: Expr, s: seq<XNode>, tag: Tag, mode: Mode)
    requires ValidEnv(env) && e.Step? && PredTestsOk(e.preds, TestOk) && e.axis == Self && NoDup(s)
    ensures var ns := StepLoop(env, e, s, tag, mode);
            && NoDup(ns.nodes)
            && (forall y :: y in ns.nodes ==> y in s)
            && (Ascending(s) ==> Ascending(ns.nodes)) && (Descending(s) ==> Descending(ns.nodes))
    decreases e.preds, 4, |s|
  {
    hide Segment, Ascending, Descending, NoDup, Selects, ValidEnv, PredTestsOk;
    if s == [] {
      NothingOrdered();
    } else {
      var n := |s| - 1;
      NoDupInit(s);
      OrderInit(s);
      LoopSelf(env, e, s[..n], tag, mode);
      var acc := StepLoop(env, e, s[..n], tag, mode);
      var seg := Segment(env, e, s[n], NextTag(e.axis, acc), mode);
      SelfSegment(env, e, s[n], NextTag(e.axis, acc), mode);
      SelfJoin(s, acc.nodes, seg);
    }
  }

  lemma NothingOrdered()
    ensures NoDup<XNode>([]) && Ascending([]) && Descending([])
  {
  }

  lemma NoDupInit(s: seq<XNode>)
    requires NoDup(s) && s != []
    ensures NoDup(s[..|s| - 1])
  {
  }

  lemma OrderInit(s: seq<XNode>)
    requires s != []
    ensures Ascending(s) ==> Ascending(s[..|s| - 1])
    ensures Descending(s) ==> Descending(s[..|s| - 1])
  {
  }

  /** The self axis contributes the node itself or nothing. */
  lemma SelfSegment(env: Env, e: Expr, x: XNode, tag: Tag, mode: Mode)
    requires ValidEnv(env) && e.Step? && PredTestsOk(e.preds, TestOk) && e.axis == Self
    ensures var seg := Segment(env, e, x, tag, mode); seg == [] || seg == [x]
    decreases e.preds, 3, 1
  {
    hide Segment, ValidEnv, PredTestsOk;
    var seg := Segment(env, e, x, tag, mode);
    SegmentWithin(env, e, x, tag, mode);
    AscendingNoDup(seg);
    forall j | 0 <= j < |seg| ensures seg[j] == x {
      assert seg[j] in seg;
      assert Selects(env.d, Self, e.nodes, x, seg[j]);
    }
    NoDupSize(seg);
    assert Elems(seg) <= {x};
    assert seg != [] ==> Elems(seg) == {x} by {
      assert seg != [] ==> seg[0] in Elems(seg);
    }
  }

  lemma SelfJoin(s: seq<XNode>, acc: seq<XNode>, seg: seq<XNode>)
    requires s != [] && NoDup(s) && NoDup(acc) && (seg == [] || seg == [s[|s| - 1]])
    requires forall y :: y in acc ==> y in s[..|s| - 1]
    requires (Ascending(s) ==> Ascending(acc)) && (Descending(s) ==> Descending(acc))
    ensures NoDup(acc + seg) && forall y :: y in acc + seg ==> y in s
    ensures (Ascending(s) ==> Ascending(acc + seg)) && (Descending(s) ==> Descending(acc + seg))
  {
    var n := |s| - 1;
    if seg == [] {
      assert acc + seg == acc;
    } else {
      forall i | 0 <= i < |acc|
        ensures acc[i] != s[n] && (Ascending(s) ==> Before(acc[i], s[n])) && (Descending(s) ==> Before(s[n], acc[i]))
      {
        assert acc[i] in acc;
        var k :| 0 <= k < n && s[..n][k] == acc[i];
      }
    }
  }

  // ----- a whole step

  lemma StepHonest(env: Env, e: Expr, s: NodeSet, mode: Mode)
    requires ValidEnv(env) && e.Step? && PredTestsOk(e.preds, TestOk) && NoDup(s.nodes)
    requires e.axis == Self ==> (s.tag == Sorted ==> Ascending(s.nodes)) && (s.tag == SortedReverse ==> Descending(s.nodes))
    ensures Honest(env.d, StepDo(env, e, s, mode))
    ensures e.axis != Namespace ==>
              Elems(StepDo(env, e, s, mode).nodes) ==
              Elems(StepLoop(env, e, s.nodes, if e.axis == Self then s.tag else AxisTag(e.axis), mode).nodes)
    decreases e.preds, 6, 0
  {
    hide StepLoop, Reached, Selects, Deduplicate, AxisTag;
    if e.axis != Namespace {
      var tag := if e.axis == Self then s.tag else AxisTag(e.axis);
      var ns := StepLoop(env, e, s.nodes, tag, mode);
      LoopCollects(env, e, s.nodes, tag, mode);
      LoopTag(env, e, s.nodes, tag, mode);
      ReachedInDoc(env, e, s.nodes);
      assert forall y :: y in ns.nodes ==> y in Elems(ns.nodes);
      if e.axis == Self {
        LoopSelf(env, e, s.nodes, tag, mode);
      } else {
        LoopOrdered(env, e, s.nodes, mode);
        if ns.tag != Unsorted {
          AscendingNoDup(ns.nodes);
          AxisTagOrder(env, e, ns);
        } else if e.axis == Child || e.axis == Attribute {
          LoopUnique(env, e, s.nodes, mode);
        } else {
          DeduplicateHonest(env, ns.nodes);
        }
      }
    }
  }

  lemma AxisTagOrder(env: Env, e: Expr, ns: NodeSet)
    requires e.Step? && ns.tag == AxisTag(e.axis)
    requires if IsReverse(e.axis) then Descending(ns.nodes) else Ascending(ns.nodes)
    ensures (ns.tag == Sorted ==> Ascending(ns.nodes)) && (ns.tag == SortedReverse ==> Descending(ns.nodes))
  {
  }

  lemma {:induction false} ReachedInDoc(env: Env, e: Expr, s: seq<XNode>)
    requires env.d.Valid() && e.Step?
    ensures forall y :: y in Reached(env, e, s) ==> InDoc(env.d, y)
    ensures forall y :: y in Reached(env, e, s) <==> exists x :: x in s && y in Full(env, e, x)
    decreases |s|
  {
    hide Full;
    if s != [] {
      var n := |s| - 1;
      ReachedInDoc(env, e, s[..n]);
      FullOrdered(env, e, s[n]);
      assert s == s[..n] + [s[n]];
      forall y ensures y in Reached(env, e, s) <==> exists x :: x in s && y in Full(env, e, x) {
        if x :| x in s && y in Full(env, e, x) {
          assert x in s[..n] || x == s[n];
        }
      }
    }
  }

  lemma NamespaceEmpty(env: Env, e: Expr, s: seq<XNode>)
    requires env.d.Valid() && e.Step? && e.axis == Namespace
    ensures Reached(env, e, s) == {}
  {
    hide Full, Reached;
    ReachedInDoc(env, e, s);
    forall y ensures y !in Reached(env, e, s) {
      forall x ensures y !in Full(env, e, x) {
        FullOrdered(env, e, x);
        assert !Selects(env.d, Namespace, e.nodes, x, y);
      }
    }
  }

  lemma StepCovers(env: Env, e: Expr, s: NodeSet, mode: Mode)
    requires ValidEnv(env) && e.Step? && PredTestsOk(e.preds, TestOk) && NoDup(s.nodes)
    requires e.axis == Self ==> (s.tag == Sorted ==> Ascending(s.nodes)) && (s.tag == SortedReverse ==> Descending(s.nodes))
    ensures Covers(env.d, StepDo(env, e, s, mode), Reached(env, e, s.nodes), mode)
    decreases e.preds, 7, 0
  {
    hide StepDo, StepLoop, Reached, Honest;
    StepHonest(env, e, s, mode);
    ReachedInDoc(env, e, s.nodes);
    if e.axis == Namespace {
      NamespaceEmpty(env, e, s.nodes);
      NamespaceStep(env, e, s, mode);
    } else {
      var tag := if e.axis == Self then s.tag else AxisTag(e.axis);
      LoopCollects(env, e, s.nodes, tag, mode);
      var ns, loop := StepDo(env, e, s, mode).nodes, StepLoop(env, e, s.nodes, tag, mode).nodes;
      ElemsEmpty(ns);
      ElemsEmpty(loop);
      assert forall x :: x in loop ==> x in Elems(ns);
    }
  }

  lemma NamespaceStep(env: Env, e: Expr, s: NodeSet, mode: Mode)
    requires e.Step? && e.axis == Namespace
    ensures StepDo(env, e, s, mode).nodes == []
  {
  }

  lemma DenoteReached(env: Env, e: Expr, c: Ctx, s: seq<XNode>)
    requires env.d.Valid() && e.Step? && Elems(s) == XPathOptimizer.Sources(env, e.left, c)
    ensures Denote(env, e, c) == Nodes(Reached(env, e, s))
  {
    hide Reached, Surviving, Selected;
    ReachedInDoc(env, e, s);
    var S := AsSet(Denote(env, e, c));
    forall y ensures y in S <==> y in Reached(env, e, s) {
      XPathOptimizer.StepMember(env, e, c, y);
      assert forall x :: x in s <==> x in Elems(s);
      assert forall x :: Full(env, e, x) == Surviving(env, e.preds, Selected(env, e.axis, e.nodes, x));
    }
    assert S == Reached(env, e, s);
  }

  lemma {:induction false} StepRefines(env: Env, e: Expr, c: Ctx, mode: Mode)
    requires ValidEnv(env) && Classified(e) && ValidCtx(env.d, c) && e.Step?
    ensures Agrees(env.d, Eval(env, e, c, mode), Denote(env, e, c), mode)
    decreases e, 5
  {
    hide StepDo, Reached, Denote;
    var s := match e.left case Context => NodeSet(AxisTag(e.axis), [c.n]) case From(e') => AsNodeSet(Eval(env, e', c, All));
    if e.left.From? {
      EvalRefines(env, e.left.e, c, All);
      assert Elems(s.nodes) == AsSet(Denote(env, e.left.e, c));
    }
    assert Elems(s.nodes) == XPathOptimizer.Sources(env, e.left, c);
    StepCovers(env, e, s, mode);
    DenoteReached(env, e, c, s.nodes);
  }

  // ----- unions and filters

  lemma {:induction false} UnionRefines(env: Env, e: Expr, c: Ctx, mode: Mode)
    requires ValidEnv(env) && Classified(e) && ValidCtx(env.d, c) && e.Union?
    ensures Agrees(env.d, Eval(env, e, c, mode), Denote(env, e, c), mode)
    decreases e, 5
  {
    EvalRefines(env, e.l, c, mode);
    EvalRefines(env, e.r, c, mode);
    var ls, rs := AsNodeSet(Eval(env, e.l, c, mode)), AsNodeSet(Eval(env, e.r, c, mode));
    var S, T := AsSet(Denote(env, e.l, c)), AsSet(Denote(env, e.r, c));
    UnionCovers(env, ls, rs, S, T, mode);
  }

  lemma UnionCovers(env: Env, ls: NodeSet, rs: NodeSet, S: set<XNode>, T: set<XNode>, mode: Mode)
    requires ValidEnv(env) && Covers(env.d, ls, S, mode) && Covers(env.d, rs, T, mode)
    ensures Covers(env.d, NodeSet(Unsorted, Deduplicate(env, rs.nodes + ls.nodes)), S + T, mode)
  {
    hide Deduplicate;
    var both := rs.nodes + ls.nodes;
    ElemsConcat(rs.nodes, ls.nodes);
    DeduplicateHonest(env, both);
    var ns := Deduplicate(env, both);
    ElemsEmpty(ns);
    ElemsEmpty(both);
    if mode == First {
      forall x | IsLeast(x, S + T) ensures x in ns {
        assert x in S ==> IsLeast(x, S);
        assert x in T ==> IsLeast(x, T);
        assert x in Elems(both);
      }
    }
  }

  /** A position-independent filter may run in any order. */
  lemma PosInvFilter(env: Env, p: Expr, s: seq<XNode>, t: seq<XNode>)
    requires ValidEnv(env) && TestOk(p, PosInv) && Elems(s) == Elems(t)
    ensures Elems(Pick(s, Truths(env, p, s))) == Elems(Pick(t, Truths(env, p, t)))
  {
    hide Denote, Truths;
    forall y ensures y in Pick(s, Truths(env, p, s)) <==> y in Pick(t, Truths(env, p, t)) {
      PosInvPick(env, p, s, y);
      PosInvPick(env, p, t, y);
      assert y in s <==> y in Elems(s);
      assert y in t <==> y in Elems(t);
    }
  }

  lemma PosInvPick(env: Env, p: Expr, s: seq<XNode>, y: XNode)
    requires TestOk(p, PosInv)
    ensures y in Pick(s, Truths(env, p, s)) <==> y in s && ToBool(View(env.d, Denote(env, p, Ctx(y, 1, 1))))
  {
    hide Denote;
    var keep := Truths(env, p, s);
    PickMember(s, keep, y);
    forall i | 0 <= i < |s| && s[i] == y
      ensures keep[i] == ToBool(View(env.d, Denote(env, p, Ctx(y, 1, 1))))
    {
      XPathOptimizer.PosInvSound(env, p, Ctx(s[i], i + 1, |s|), Ctx(y, 1, 1));
    }
  }

  /** What an honest array keeps of its nodes is honest. */
  lemma PickHonest(d: Doc, ns: NodeSet, keep: seq<bool>)
    requires Honest(d, ns) && |keep| == |ns.nodes|
    ensures Honest(d, NodeSet(ns.tag, Pick(ns.nodes, keep)))
  {
    hide Before;
    var s := Pick(ns.nodes, keep);
    forall x | x in s ensures x in ns.nodes {
      PickMember(ns.nodes, keep, x);
    }
    PickPairwise(ns.nodes, keep, (a, b) => a != b);
    if ns.tag == Sorted {
      PickPairwise(ns.nodes, keep, (a, b) => Before(a, b));
    } else if ns.tag == SortedReverse {
      PickPairwise(ns.nodes, keep, (a, b) => Before(b, a));
    }
  }

  /** Stopping where the tag allows it still covers the whole array. */
  lemma CutCovers(d: Doc, ns: NodeSet, mode: Mode)
    requires Honest(d, ns)
    ensures Covers(d, NodeSet(ns.tag, Stop(ns.nodes, EvalOnce(ns.tag, mode))), Elems(ns.nodes), mode)
  {
    var s := ns.nodes;
    ElemsEmpty(s);
    if s != [] && mode == First && ns.tag == Sorted {
      forall x | IsLeast(x, Elems(s)) ensures x == s[0] {
        assert s[0] in Elems(s);
        var j :| 0 <= j < |s| && s[j] == x;
      }
    }
  }

  lemma {:induction false} FilterOrdered(env: Env, e: Expr, found: NodeSet, S: set<XNode>, mode: Mode)
    requires ValidEnv(env) && Classified(e) && e.Filter? && e.test != ConstantOne && Covers(env.d, found, S, All)
    ensures var ns := if e.test != PosInv then SortDo(found) else found;
            Covers(env.d, NodeSet(ns.tag, ApplyPredicate(env, e.r, e.test, ns.nodes, EvalOnce(ns.tag, mode))),
                   Elems(Pick(Listing(env.d, S), Truths(env, e.r, Listing(env.d, S)))), mode)
    decreases e.r, 12
  {
    hide Truths, ApplyPredicate, Denote, SortDo, Listing;
    SortDoLists(env.d, found);
    ListingSorted(env.d, S);
    AscendingNoDup(Listing(env.d, S));
    var ns := if e.test != PosInv then SortDo(found) else found;
    PredicateRefined(env, e.r, e.test, ns.nodes, EvalOnce(ns.tag, mode));
    PickHonest(env.d, ns, Truths(env, e.r, ns.nodes));
    CutCovers(env.d, NodeSet(ns.tag, Pick(ns.nodes, Truths(env, e.r, ns.nodes))), mode);
    if e.test == PosInv {
      PosInvFilter(env, e.r, ns.nodes, Listing(env.d, S));
    }
  }

  /** (set)[1] only needs the first node of the set. */
  lemma FilterFirst(env: Env, e: Expr, found: NodeSet, S: set<XNode>, mode: Mode)
    requires ValidEnv(env) && e.Filter? && TestOk(e.r, e.test) && e.test == ConstantOne && Covers(env.d, found, S, First)
    ensures var ns := SortDo(found);
            Covers(env.d, NodeSet(ns.tag, ApplyPredicate(env, e.r, e.test, ns.nodes, EvalOnce(ns.tag, mode))),
                   Elems(Pick(Listing(env.d, S), Truths(env, e.r, Listing(env.d, S)))), mode)
  {
    hide Truths, Denote, SortDo, Listing;
    SortDoLists(env.d, found);
    var T := Elems(found.nodes);
    var s, t := Listing(env.d, S), Listing(env.d, T);
    ListingLeast(env.d, S);
    ListingLeast(env.d, T);
    ElemsEmpty(found.nodes);
    ConstantTruths(env, e.r, s);
    assert (1.0).Floor == 1;
    assert Pick(s, Truths(env, e.r, s)) == Head(s);
    var r := ApplyPredicate(env, e.r, e.test, t, EvalOnce(Sorted, mode));
    assert r == Head(t);
    if S != {} {
      assert s[0] in found.nodes;
      LeastUnique(s[0], t[0], T);
      assert Elems([s[0]]) == {s[0]};
    }
  }

  lemma {:induction false} FilterRefines(env: Env, e: Expr, c: Ctx, mode: Mode)
    requires ValidEnv(env) && Classified(e) && ValidCtx(env.d, c) && e.Filter?
    ensures Agrees(env.d, Eval(env, e, c, mode), Denote(env, e, c), mode)
    decreases e, 5
  {
    hide ApplyPredicate, Truths, SortDo, Listing;
    var lmode := if e.test == ConstantOne then First else All;
    EvalRefines(env, e.l, c, lmode);
    var found, S := AsNodeSet(Eval(env, e.l, c, lmode)), AsSet(Denote(env, e.l, c));
    if e.test == ConstantOne {
      FilterFirst(env, e, found, S, mode);
    } else {
      FilterOrdered(env, e, found, S, mode);
    }
  }

  // ----- scalars

  lemma {:induction false} Looks(env: Env, e: Expr, c: Ctx, mode: Mode)
    requires ValidEnv(env) && Classified(e) && ValidCtx(env.d, c)
    ensures mode != Any ==> Look(Eval(env, e, c, mode)) == View(env.d, Denote(env, e, c))
    ensures ToBool(Look(Eval(env, e, c, mode))) == ToBool(View(env.d, Denote(env, e, c)))
    decreases e, 10
  {
    hide Eval, Denote, Look, View, TestsOk;
    EvalRefines(env, e, c, mode);
    LookAgrees(env.d, Eval(env, e, c, mode), Denote(env, e, c), mode);
  }

  /** A comparison operand: the whole set, or only its emptiness when the other side is boolean. */
  lemma {:induction false} Operand(env: Env, e: Expr, c: Ctx, mode: Mode)
    requires ValidEnv(env) && Classified(e) && ValidCtx(env.d, c)
    ensures mode == All ==> Abstract(Eval(env, e, c, mode)) == Denote(env, e, c)
    ensures Denote(env, e, c).Scalar? ==> Abstract(Eval(env, e, c, mode)) == Denote(env, e, c)
    ensures Denote(env, e, c).Nodes? ==>
              && Abstract(Eval(env, e, c, mode)).Nodes?
              && (Abstract(Eval(env, e, c, mode)).ns == {} <==> Denote(env, e, c).ns == {})
    decreases e, 10
  {
    hide Eval, Denote, TestsOk;
    EvalRefines(env, e, c, mode);
    var v := Eval(env, e, c, mode);
    if v.Nodes? {
      ElemsEmpty(v.ns.nodes);
    }
  }

  lemma {:induction false} EqualityRefines(env: Env, e: Expr, c: Ctx, negated: bool)
    requires ValidEnv(env) && Classified(e) && ValidCtx(env.d, c) && (e.Equal? || e.NotEqual?)
    ensures CompareEq(env, negated, Abstract(Eval(env, e.l, c, OperandMode(TypeOf(e.r)))),
                                    Abstract(Eval(env, e.r, c, OperandMode(TypeOf(e.l))))) ==
            CompareEq(env, negated, Denote(env, e.l, c), Denote(env, e.r, c))
    decreases e, 4
  {
    hide Eval, Denote;
    Operand(env, e.l, c, OperandMode(TypeOf(e.r)));
    Operand(env, e.r, c, OperandMode(TypeOf(e.l)));
    XPathOptimizer.DenoteTyped(env, e.l, c);
    XPathOptimizer.DenoteTyped(env, e.r, c);
  }

  lemma {:induction false} CountsAgree(env: Env, e: Expr, c: Ctx)
    requires ValidEnv(env) && Classified(e) && ValidCtx(env.d, c)
    ensures |AsNodeSet(Eval(env, e, c, All)).nodes| == |AsSet(Denote(env, e, c))|
    ensures SumOf(env, AsNodeSet(Eval(env, e, c, All)).nodes) == SumOf(env, Listing(env.d, AsSet(Denote(env, e, c))))
    decreases e, 10
  {
    hide Eval, Denote, SumOf, Listing, TestsOk;
    EvalRefines(env, e, c, All);
    var v, S := Eval(env, e, c, All), AsSet(Denote(env, e, c));
    var s := AsNodeSet(v).nodes;
    assert NoDup(s) && Elems(s) == S && forall x :: x in S ==> InDoc(env.d, x);
    NoDupSize(s);
    ListingSorted(env.d, S);
    AscendingNoDup(Listing(env.d, S));
    SumSame(env, s, Listing(env.d, S));
  }

  lemma {:induction false} ArgsRefine(env: Env, fn: LibFn, i: nat, args: Exprs, c: Ctx)
    requires ValidEnv(env) && ArgTestsOk(args, TestOk) && ValidCtx(env.d, c)
    ensures EvalArgs(env, fn, i, args, c) == DenoteArgs(env, fn, i, args, c)
    decreases args, 0
  {
    hide Eval, Denote, Look, View;
    if args.Arg? {
      Looks(env, args.head, c, First);
      ArgsRefine(env, fn, i + 1, args.tail, c);
    }
  }

  lemma {:induction false} BinaryRefines(env: Env, e: Expr, c: Ctx, mode: Mode)
    requires ValidEnv(env) && Classified(e) && ValidCtx(env.d, c)
    requires e.Or? || e.And? || e.Equal? || e.NotEqual? || e.Relation? || e.Arith?
    ensures Agrees(env.d, Eval(env, e, c, mode), Denote(env, e, c), mode)
    decreases e, 5
  {
    hide View, Look, CompareEq, CompareRelation, Abstract;
    if e.Equal? {
      EqualityRefines(env, e, c, false);
    } else if e.NotEqual? {
      EqualityRefines(env, e, c, true);
    } else if e.Relation? {
      Operand(env, e.l, c, All);
      Operand(env, e.r, c, All);
    } else if e.Arith? {
      Looks(env, e.l, c, First);
      Looks(env, e.r, c, First);
    } else {
      Looks(env, e.l, c, Any);
      Looks(env, e.r, c, Any);
    }
  }

  lemma UnaryFresh(e: Expr)
    requires Classified(e) && (Unary(e) || e.TranslateTable?)
    ensures Classified(e.l)
  {
  }

  lemma CountsRefine(env: Env, e: Expr, c: Ctx, mode: Mode)
    requires e.Count? || e.Sum?
    requires |AsNodeSet(Eval(env, e.l, c, All)).nodes| == |AsSet(Denote(env, e.l, c))|
    requires SumOf(env, AsNodeSet(Eval(env, e.l, c, All)).nodes) == SumOf(env, Listing(env.d, AsSet(Denote(env, e.l, c))))
    ensures Agrees(env.d, Eval(env, e, c, mode), Denote(env, e, c), mode)
  {
    hide View, Look, Listing, SumOf, ToBool, ToNum, ToStr, CompareEq, CompareRelation, Calculate, Truths, Surviving, Selected, Pick,
      StepDo, ApplyPredicate;
  }

  lemma BooleansRefine(env: Env, e: Expr, c: Ctx, mode: Mode)
    requires e.Boolean? || e.Not?
    requires ToBool(Look(Eval(env, e.l, c, Any))) == ToBool(View(env.d, Denote(env, e.l, c)))
    ensures Agrees(env.d, Eval(env, e, c, mode), Denote(env, e, c), mode)
  {
    hide View, Look, Listing, SumOf, ToBool, ToNum, ToStr, CompareEq, CompareRelation, Calculate, Truths, Surviving, Selected, Pick,
      StepDo, ApplyPredicate;
  }

  lemma ScalarsRefine(env: Env, e: Expr, c: Ctx, mode: Mode)
    requires e.Negate? || e.ToNumber? || e.ToString? || e.TranslateTable?
    requires Look(Eval(env, e.l, c, First)) == View(env.d, Denote(env, e.l, c))
    ensures Agrees(env.d, Eval(env, e, c, mode), Denote(env, e, c), mode)
  {
    hide View, Look, Listing, SumOf, ToBool, ToNum, ToStr, CompareEq, CompareRelation, Calculate, Truths, Surviving, Selected, Pick,
      StepDo, ApplyPredicate;
  }

  lemma {:induction false} UnaryRefines(env: Env, e: Expr, c: Ctx, mode: Mode)
    requires ValidEnv(env) && Classified(e) && ValidCtx(env.d, c)
    requires e.Negate? || e.Count? || e.Sum? || e.Boolean? || e.Not? || e.ToNumber? || e.ToString? || e.TranslateTable?
    ensures Agrees(env.d, Eval(env, e, c, mode), Denote(env, e, c), mode)
    decreases e, 5
  {
    hide View, Look, Listing, Eval, Denote, TestsOk;
    UnaryFresh(e);
    if e.Count? || e.Sum? {
      CountsAgree(env, e.l, c);
      CountsRefine(env, e, c, mode);
    } else if e.Boolean? || e.Not? {
      Looks(env, e.l, c, Any);
      BooleansRefine(env, e, c, mode);
    } else {
      Looks(env, e.l, c, First);
      ScalarsRefine(env, e, c, mode);
    }
  }

  lemma RootRefines(env: Env, c: Ctx, mode: Mode)
    requires ValidEnv(env) && ValidCtx(env.d, c)
    ensures Covers(env.d, EvalRoot(c.n), RootOf(env.d, c.n), mode)
  {
    var ns := EvalRoot(c.n);
    assert Elems(ns.nodes) == RootOf(env.d, c.n);
  }

  lemma WholeCovers(d: Doc, ns: NodeSet, mode: Mode)
    requires Honest(d, ns)
    ensures Covers(d, ns, Elems(ns.nodes), mode)
  {
    ElemsEmpty(ns.nodes);
  }

  lemma VariableRefines(env: Env, ty: Type, name: string, mode: Mode)
    requires ValidEnv(env)
    ensures Agrees(env.d, env.vars(ty, name), Abstract(env.vars(ty, name)), mode)
  {
    hide Covers, Honest;
    var v := env.vars(ty, name);
    assert HasType(v, ty);
    if ty == TNodeSet {
      assert Honest(env.d, env.vars(TNodeSet, name).ns);
      WholeCovers(env.d, v.ns, mode);
    }
  }

  lemma EmptyCovers(d: Doc, mode: Mode)
    ensures Covers(d, NodeSet(Unsorted, []), {}, mode)
  {
  }

  lemma {:induction false} ConstantRefines(env: Env, e: Expr, c: Ctx, mode: Mode)
    requires e.StringConst? || e.NumberConst? || e.Last? || e.Position? || e.TrueFn? || e.FalseFn?
    ensures Agrees(env.d, Eval(env, e, c, mode), Denote(env, e, c), mode)
  {
    hide Covers;
  }

  lemma {:induction false} SetLeafRefines(env: Env, e: Expr, c: Ctx, mode: Mode)
    requires ValidEnv(env) && ValidCtx(env.d, c)
    requires e.Variable? || e.Id? || e.Root?
    ensures Agrees(env.d, Eval(env, e, c, mode), Denote(env, e, c), mode)
  {
    hide Covers, ValidEnv, EvalRoot, RootOf, Abstract;
    if e.Root? {
      RootRefines(env, c, mode);
    } else if e.Id? {
      EmptyCovers(env.d, mode);
    } else {
      VariableRefines(env, e.ty, e.name, mode);
    }
  }

  /** For every document, context, query with justified classifications and mode, evaluation answers the
      reference meaning: scalars are equal; a node array has no duplicates, its tag is true, it stays
      inside the meant set, is all of it in full mode, empty only if the set is, and in first mode
      holds the first node in document order. */
  lemma {:induction false} EvalRefines(env: Env, e: Expr, c: Ctx, mode: Mode)
    requires ValidEnv(env) && Classified(e) && ValidCtx(env.d, c)
    ensures Agrees(env.d, Eval(env, e, c, mode), Denote(env, e, c), mode)
    decreases e, 9
  {
    hide Agrees, View, Look;
    if e.Or? || e.And? || e.Equal? || e.NotEqual? || e.Relation? || e.Arith? {
      BinaryRefines(env, e, c, mode);
    } else if e.Negate? || e.Count? || e.Sum? || e.Boolean? || e.Not? || e.ToNumber? || e.ToString? || e.TranslateTable? {
      UnaryRefines(env, e, c, mode);
    } else if e.Step? {
      StepRefines(env, e, c, mode);
    } else if e.Union? {
      UnionRefines(env, e, c, mode);
    } else if e.Filter? {
      FilterRefines(env, e, c, mode);
    } else if e.Translate? || e.Library? || e.CompareAttribute? {
      CallRefines(env, e, c, mode);
    } else if e.Variable? || e.Id? || e.Root? {
      SetLeafRefines(env, e, c, mode);
    } else {
      ConstantRefines(env, e, c, mode);
    }
  }

  lemma {:induction false} CallRefines(env: Env, e: Expr, c: Ctx, mode: Mode)
    requires ValidEnv(env) && Classified(e) && ValidCtx(env.d, c)
    requires e.Translate? || e.Library? || e.CompareAttribute?
    ensures Agrees(env.d, Eval(env, e, c, mode), Denote(env, e, c), mode)
    decreases e, 5
  {
    hide View, Look, AttributeIs;
    if e.Translate? {
      Looks(env, e.l, c, First);
      Looks(env, e.from, c, First);
      Looks(env, e.to, c, First);
    } else if e.Library? {
      ArgsRefine(env, e.fn, 0, e.args, c);
    } else {
      Looks(env, e.r, c, First);
    }
  }
}
