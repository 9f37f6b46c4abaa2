/** The optimizer leaves nothing undone: in what it returns no rewrite applies any more, and every predicate is
    classified as far as its form allows. */
module XPathReduced {
  import opened Axes
  import opened XPathSyntax
  import Translation

  // ----- what could still be rewritten

  /** position() or last() is used, other than inside a path or a filter, which bring their own. */
  predicate Mentions(e: Expr) {
    if e.Position? || e.Last? then true
    else if e.Step? || e.Filter? then false
    else if Binary(e) || e.Equal? then Mentions(e.l) || Mentions(e.r)
    else if Unary(e) || e.TranslateTable? then Mentions(e.l)
    else if e.Translate? then Mentions(e.l) || Mentions(e.from) || Mentions(e.to)
    else if e.Library? then ArgsMention(e.args)
    else e.CompareAttribute? && Mentions(e.r)
  }

  predicate ArgsMention(args: Exprs) {
    args.Arg? && (Mentions(args.head) || ArgsMention(args.tail))
  }

  /** A truth that is the same at every position. */
  predicate Steady(p: Expr) {
    TypeOf(p) != TNumber && !Mentions(p)
  }

  predicate AllSteady(ps: Preds) {
    ps.Pred? ==> Steady(ps.e) && AllSteady(ps.next)
  }

  /** The class a predicate's form allows. */
  function Best(p: Expr): Test {
    if p == NumberConst(Fin(1.0)) then ConstantOne
    else if p.NumberConst? || p.Last? || (p.Variable? && p.ty == TNumber) then Constant
    else if Steady(p) then PosInv
    else Default
  }

  /** A predicate with nothing left to do: not [position()=number], and of the best class. */
  predicate Settled(p: Expr, test: Test) {
    !(p.Equal? && p.l.Position? && TypeOf(p.r) == TNumber) && test == Best(p)
  }

  /** descendant-or-self::node() before a step it could be part of. */
  predicate Fusible(e: Expr)
    requires e.Step?
  {
    && e.axis in {Child, Self, Descendant, DescendantOrSelf} && AllSteady(e.preds)
    && e.left.From? && IsAnywhere(e.left.e)
  }

  predicate IsAnywhere(e: Expr) {
    e.Step? && e.axis == DescendantOrSelf && e.nodes == TypeNode && e.preds == NoPreds
  }

  predicate Ascii(s: string) {
    forall i :: 0 <= i < |s| ==> s[i] as int < 128
  }

  /** translate() with literals that a table can hold. */
  predicate Tabulable(e: Expr)
    requires e.Translate?
  {
    && e.from.StringConst? && e.to.StringConst? && Ascii(e.from.s)
    && Ascii(if |e.to.s| <= |e.from.s| then e.to.s else e.to.s[..|e.from.s|])
  }

  /** @name = 'value', or a string variable. */
  predicate IsLookup(e: Expr)
    requires e.Equal?
  {
    && (e.r.StringConst? || (e.r.Variable? && e.r.ty == TString))
    && e.l.Step? && e.l.left == Context && e.l.axis == Attribute && e.l.nodes.Name? && e.l.preds == NoPreds
  }

  /** Nothing in e can be rewritten. */
  predicate Reduced(e: Expr) {
    if e.Step? then !Fusible(e) && (e.left.From? ==> Reduced(e.left.e)) && PredsReduced(e.preds)
    else if e.Filter? then Settled(e.r, e.test) && Reduced(e.l) && Reduced(e.r)
    else if e.Equal? then !IsLookup(e) && Reduced(e.l) && Reduced(e.r)
    else if Binary(e) then Reduced(e.l) && Reduced(e.r)
    else if Unary(e) || e.TranslateTable? then Reduced(e.l)
    else if e.Translate? then !Tabulable(e) && Reduced(e.l) && Reduced(e.from) && Reduced(e.to)
    else if e.Library? then ArgsReduced(e.args)
    else e.CompareAttribute? ==> Reduced(e.r)
  }

  predicate ArgsReduced(args: Exprs) {
    args.Arg? ==> Reduced(args.head) && ArgsReduced(args.tail)
  }

  predicate PredsReduced(ps: Preds) {
    ps.Pred? ==> Settled(ps.e, ps.test) && Reduced(ps.e) && PredsReduced(ps.next)
  }

  // ----- the optimizer's own tests say the same

  lemma {:induction false} MentionsIs(e: Expr)
    ensures IsPosInv(e) <==> !Mentions(e)
    decreases e
  {
    if e.Step? || e.Filter? {
    } else if Binary(e) || e.Equal? {
      MentionsIs(e.l);
      MentionsIs(e.r);
    } else if Unary(e) || e.TranslateTable? {
      MentionsIs(e.l);
    } else if e.Translate? {
      MentionsIs(e.l);
      MentionsIs(e.from);
      MentionsIs(e.to);
    } else if e.Library? {
      ArgsMentionIs(e.args);
    } else if e.CompareAttribute? {
      MentionsIs(e.r);
    }
  }

  lemma {:induction false} ArgsMentionIs(args: Exprs)
    ensures ArgsPosInv(args) <==> !ArgsMention(args)
    decreases args
  {
    if args.Arg? {
      MentionsIs(args.head);
      ArgsMentionIs(args.tail);
    }
  }

  lemma BestIs(p: Expr)
    ensures Classify(p, Default) == Best(p)
    ensures Settled(DropPosition(p), Classify(DropPosition(p), Default))
  {
    MentionsIs(p);
    MentionsIs(DropPosition(p));
    hide IsPosInv, Mentions;
  }

  lemma {:induction false} SteadyIs(ps: Preds)
    requires PredsReduced(ps)
    ensures StepPosInv(ps) <==> AllSteady(ps)
    decreases ps
  {
    hide Reduced, Mentions;
    if ps.Pred? {
      SteadyIs(ps.next);
    }
  }

  lemma {:induction false} FillIs(table: seq<nat>, from: string, to: string)
    requires |table| == 128
    ensures Translation.Fill(table, from, to).Some? <==> Ascii(from) && Ascii(if |to| <= |from| then to else to[..|from|])
    decreases |from|
  {
    var part := if |to| <= |from| then to else to[..|from|];
    if from != [] {
      var to' := if to == [] then [] else to[1..];
      AsciiStep(from);
      if part != [] {
        AsciiStep(part);
        assert part[1..] == if |to'| <= |from[1..]| then to' else to'[..|from[1..]|];
      }
      if Translation.IsAscii(from[0]) && (to == [] || Translation.IsAscii(to[0])) {
        var fc := from[0] as int;
        var tc := if to == [] then Translation.Skip else to[0] as int;
        FillIs(if table[fc] == 0 then table[fc := tc] else table, from[1..], to');
      }
    }
  }

  lemma AsciiStep(s: string)
    requires s != []
    ensures Ascii(s) <==> s[0] as int < 128 && Ascii(s[1..])
  {
    assert forall i :: 0 <= i < |s| - 1 ==> s[1..][i] == s[i + 1];
    if s[0] as int < 128 && Ascii(s[1..]) {
      forall i | 0 <= i < |s| ensures s[i] as int < 128 {
        assert i > 0 ==> s[1..][i - 1] == s[i];
      }
    }
  }

  lemma TableIs(e: Expr)
    requires e.Translate?
    ensures UseTable(e).Translate? <==> !Tabulable(e)
    ensures UseTable(e).Translate? ==> UseTable(e) == e
    ensures UseTable(e).TranslateTable? ==> UseTable(e).l == e.l
    ensures UseTable(e).Translate? || UseTable(e).TranslateTable?
  {
    hide Translation.Fill;
    if e.from.StringConst? && e.to.StringConst? {
      FillIs(seq(128, _ => 0), e.from.s, e.to.s);
    }
  }

  // ----- nothing is left

  lemma FuseReduced(e: Expr)
    requires e.Step? && (e.left.From? ==> Reduced(e.left.e)) && PredsReduced(e.preds)
    ensures Reduced(FuseStep(e))
  {
    hide Mentions;
    SteadyIs(e.preds);
    var f := FuseStep(e);
    if f != e {
      var inner := e.left.e;
      assert IsAnywhere(inner) && AllSteady(inner.preds) && !Fusible(inner);
    }
  }

  lemma {:induction false} OptimizeReduced(e: Expr)
    requires Fresh(e)
    ensures Reduced(Optimize(e))
    decreases e, 1
  {
    if e.Step? {
      StepReduced(e);
    } else if e.Filter? {
      OptimizeReduced(e.l);
      OptimizeReduced(e.r);
      FilterReduced(e);
    } else if e.Equal? {
      OptimizeReduced(e.l);
      OptimizeReduced(e.r);
      EqualReduced(e);
    } else if Binary(e) {
      OptimizeReduced(e.l);
      OptimizeReduced(e.r);
      BinaryReduced(e);
    } else if Unary(e) || e.TranslateTable? {
      OptimizeReduced(e.l);
      UnaryReduced(e);
    } else if e.Translate? {
      OptimizeReduced(e.l);
      OptimizeReduced(e.from);
      OptimizeReduced(e.to);
      TranslateReduced(e);
    } else {
      RestReduced(e);
    }
  }

  lemma {:induction false} StepReduced(e: Expr)
    requires e.Step? && Fresh(e)
    ensures Reduced(Optimize(e))
    decreases e, 0
  {
    hide Reduced, FuseStep;
    if e.left.From? {
      OptimizeReduced(e.left.e);
    }
    OptimizePredsReduced(e.preds);
    FuseReduced(Step(if e.left.Context? then Context else From(Optimize(e.left.e)), e.axis, e.nodes, OptimizePreds(e.preds)));
  }

  lemma {:induction false} OptimizePredsReduced(ps: Preds)
    requires PredTestsOk(ps, Untested)
    ensures PredsReduced(OptimizePreds(ps))
    decreases ps
  {
    hide Optimize, Reduced, Settled, DropPosition, Classify;
    if ps.Pred? {
      OptimizeReduced(ps.e);
      OptimizePredsReduced(ps.next);
      BestIs(Optimize(ps.e));
      DropReduced(Optimize(ps.e));
    }
  }

  lemma DropReduced(p: Expr)
    requires Reduced(p)
    ensures Reduced(DropPosition(p))
  {
  }

  lemma {:induction false} OptimizeArgsReduced(args: Exprs)
    requires ArgTestsOk(args, Untested)
    ensures ArgsReduced(OptimizeArgs(args))
    decreases args
  {
    hide Optimize, Reduced;
    if args.Arg? {
      OptimizeReduced(args.head);
      OptimizeArgsReduced(args.tail);
    }
  }

  lemma FilterReduced(e: Expr)
    requires e.Filter? && e.test == Default && Reduced(Optimize(e.l)) && Reduced(Optimize(e.r))
    ensures Reduced(Optimize(e))
  {
    BestIs(Optimize(e.r));
    DropReduced(Optimize(e.r));
    hide DropPosition, Classify, Settled;
    assert Optimize(e) == Filter(Optimize(e.l), DropPosition(Optimize(e.r)), Classify(DropPosition(Optimize(e.r)), Default));
  }

  lemma EqualReduced(e: Expr)
    requires e.Equal? && Reduced(Optimize(e.l)) && Reduced(Optimize(e.r))
    ensures Reduced(Optimize(e))
  {
    var f := Equal(Optimize(e.l), Optimize(e.r));
    assert Optimize(e) == UseAttribute(f);
  }

  lemma BinaryReduced(e: Expr)
    requires Binary(e) && Reduced(Optimize(e.l)) && Reduced(Optimize(e.r))
    ensures Reduced(Optimize(e))
  {
  }

  lemma UnaryReduced(e: Expr)
    requires (Unary(e) || e.TranslateTable?) && Reduced(Optimize(e.l))
    ensures Reduced(Optimize(e))
  {
    hide Optimize, Reduced;
    UnaryStays(e);
    ReducedUnary(Optimize(e));
  }

  lemma UnaryStays(e: Expr)
    requires Unary(e) || e.TranslateTable?
    ensures (Unary(Optimize(e)) || Optimize(e).TranslateTable?) && Optimize(e).l == Optimize(e.l)
  {
  }

  lemma ReducedUnary(e: Expr)
    requires (Unary(e) || e.TranslateTable?) && Reduced(e.l)
    ensures Reduced(e)
  {
  }

  lemma TranslateReduced(e: Expr)
    requires e.Translate? && Reduced(Optimize(e.l)) && Reduced(Optimize(e.from)) && Reduced(Optimize(e.to))
    ensures Reduced(Optimize(e))
  {
    hide Optimize, Tabulable, UseTable;
    TranslateStays(e);
    TableIs(Translate(Optimize(e.l), Optimize(e.from), Optimize(e.to)));
  }

  lemma TranslateStays(e: Expr)
    requires e.Translate?
    ensures Optimize(e) == UseTable(Translate(Optimize(e.l), Optimize(e.from), Optimize(e.to)))
  {
    hide UseTable;
  }

  lemma {:induction false} RestReduced(e: Expr)
    requires Fresh(e) && !e.Step? && !e.Filter? && !e.Equal? && !Binary(e) && !Unary(e) && !e.TranslateTable? && !e.Translate?
    ensures Reduced(Optimize(e))
    decreases e, 0
  {
    if e.Library? {
      OptimizeArgsReduced(e.args);
    } else if e.CompareAttribute? {
      OptimizeReduced(e.r);
    }
  }
}
