/** The expression grammar of sections 3.3 to 3.5 of XPath 1.0, and the parser against it. */
module ExprGrammar {
  import opened ExprParser

  datatype Nonterminal =
    | OrExpr | AndExpr | EqualityExpr | RelationalExpr | AdditiveExpr | MultiplicativeExpr
    | UnaryExpr | UnionExpr | PathExpr

  /** The operators of a left-recursive production: nt ::= next | nt op next. */
  function Operators(nt: Nonterminal): set<BinOp> {
    match nt
    case OrExpr => {OrOp}
    case AndExpr => {AndOp}
    case EqualityExpr => {EqOp, NotEqOp}
    case RelationalExpr => {LessOp, GreaterOp, LessEqOp, GreaterEqOp}
    case AdditiveExpr => {AddOp, SubtractOp}
    case MultiplicativeExpr => {MultiplyOp, DivOp, ModOp}
    case UnionExpr => {UnionOp}
    case _ => {}
  }

  function Next(nt: Nonterminal): Nonterminal {
    match nt
    case OrExpr => AndExpr
    case AndExpr => EqualityExpr
    case EqualityExpr => RelationalExpr
    case RelationalExpr => AdditiveExpr
    case AdditiveExpr => MultiplicativeExpr
    case MultiplicativeExpr => UnaryExpr
    case UnaryExpr => UnionExpr
    case _ => PathExpr
  }

  function Height(nt: Nonterminal): nat {
    match nt
    case OrExpr => 8
    case AndExpr => 7
    case EqualityExpr => 6
    case RelationalExpr => 5
    case AdditiveExpr => 4
    case MultiplicativeExpr => 3
    case UnaryExpr => 2
    case UnionExpr => 1
    case PathExpr => 0
  }

  /** A union joins node sets: a path that is one, or a union again. */
  predicate JoinsNodeSets(t: Tree) {
    t.Bin? && t.op == UnionOp ==> (t.l.Leaf? ==> t.l.nodeSet) && t.r.Leaf? && t.r.nodeSet
  }

  /** t is the derivation tree of ts from nt. Paths and primary expressions are single operands here. */
  predicate Derives(nt: Nonterminal, t: Tree, ts: seq<Token>)
    decreases |ts|, Height(nt)
  {
    match nt
    case PathExpr => t.Leaf? && ts == [Operand(t.id, t.nodeSet)]
    case UnaryExpr =>
      Derives(UnionExpr, t, ts) || (t.Neg? && ts != [] && ts[0] == Op(SubtractOp) && Derives(UnaryExpr, t.e, ts[1..]))
    case _ =>
      || Derives(Next(nt), t, ts)
      || (t.Bin? && t.op in Operators(nt) && JoinsNodeSets(t)
          && exists k :: 0 <= k < |ts| && ts[k] == Op(t.op) && Derives(nt, t.l, ts[..k]) && Derives(Next(nt), t.r, ts[k + 1..]))
  }

  // ----- derivations are the well-shaped trees

  /** How tightly a tree must hold together to be derived from nt. */
  function Bound(nt: Nonterminal): nat {
    match nt
    case OrExpr => 2
    case AndExpr => 4
    case EqualityExpr => 6
    case RelationalExpr => 8
    case AdditiveExpr => 10
    case MultiplicativeExpr => 12
    case UnaryExpr => 13
    case UnionExpr => 14
    case PathExpr => 15
  }

  lemma Levels(nt: Nonterminal, op: BinOp)
    ensures op in Operators(nt) <==> 2 * Precedence(op) == Bound(nt)
    ensures nt != PathExpr ==> Bound(Next(nt)) > Bound(nt)
    ensures nt != PathExpr && nt != UnaryExpr ==>
              (2 * Precedence(op) >= Bound(nt) <==> 2 * Precedence(op) == Bound(nt) || 2 * Precedence(op) >= Bound(Next(nt)))
  {
  }

  predicate Shaped(nt: Nonterminal, t: Tree, ts: seq<Token>) {
    WellShaped(t) && Top(t) >= Bound(nt) && Flatten(t) == ts
  }

  lemma {:induction false} DerivesIff(nt: Nonterminal, t: Tree, ts: seq<Token>)
    ensures Derives(nt, t, ts) <==> Shaped(nt, t, ts)
    decreases |ts|, Height(nt)
  {
    hide Precedence, Operators;
    match nt
    case PathExpr =>
      if t.Bin? {
        Levels(UnionExpr, t.op);
        UnionTightest(t.op);
      }
    case UnaryExpr => UnaryIff(t, ts);
    case _ => BinaryIff(nt, t, ts);
  }

  lemma UnionTightest(op: BinOp)
    ensures Precedence(op) <= 7 && (Precedence(op) == 7 <==> op == UnionOp)
  {
  }

  lemma {:induction false} UnaryIff(t: Tree, ts: seq<Token>)
    ensures Derives(UnaryExpr, t, ts) <==> Shaped(UnaryExpr, t, ts)
    decreases |ts|, Height(UnaryExpr), 0
  {
    hide Precedence, Operators;
    DerivesIff(UnionExpr, t, ts);
    if t.Neg? {
      if ts != [] && ts[0] == Op(SubtractOp) {
        DerivesIff(UnaryExpr, t.e, ts[1..]);
        assert ts == [Op(SubtractOp)] + ts[1..];
      }
      assert Flatten(t)[1..] == Flatten(t.e);
    }
  }

  lemma {:induction false} BinaryIff(nt: Nonterminal, t: Tree, ts: seq<Token>)
    requires nt != PathExpr && nt != UnaryExpr
    ensures Derives(nt, t, ts) <==> Shaped(nt, t, ts)
    decreases |ts|, Height(nt), 0
  {
    hide *;
    Lower(nt);
    DerivesIff(Next(nt), t, ts);
    BinaryCases(nt, t, ts);
    if t.Bin? {
      if Derives(nt, t, ts) && !Derives(Next(nt), t, ts) {
        var k :| 0 <= k < |ts| && ts[k] == Op(t.op) && Derives(nt, t.l, ts[..k]) && Derives(Next(nt), t.r, ts[k + 1..]);
        DerivesIff(nt, t.l, ts[..k]);
        DerivesIff(Next(nt), t.r, ts[k + 1..]);
        Joined(nt, t, ts, k);
      }
      if Shaped(nt, t, ts) && !Shaped(Next(nt), t, ts) {
        var k := Parted(nt, t, ts);
        DerivesIff(nt, t.l, ts[..k]);
        DerivesIff(Next(nt), t.r, ts[k + 1..]);
      }
    }
  }

  lemma Lower(nt: Nonterminal)
    requires nt != PathExpr
    ensures Height(Next(nt)) < Height(nt)
  {
  }

  lemma BinaryCases(nt: Nonterminal, t: Tree, ts: seq<Token>)
    requires nt != PathExpr && nt != UnaryExpr
    ensures Derives(nt, t, ts) <==>
            || Derives(Next(nt), t, ts)
            || (t.Bin? && t.op in Operators(nt) && JoinsNodeSets(t)
                && exists k :: 0 <= k < |ts| && ts[k] == Op(t.op) && Derives(nt, t.l, ts[..k]) && Derives(Next(nt), t.r, ts[k + 1..]))
    ensures Shaped(Next(nt), t, ts) ==> Shaped(nt, t, ts)
    ensures !t.Bin? ==> (Shaped(nt, t, ts) <==> Shaped(Next(nt), t, ts))
  {
    hide Operators, JoinsNodeSets, WellShaped, Flatten, Precedence;
  }

  lemma Joined(nt: Nonterminal, t: Tree, ts: seq<Token>, k: nat)
    requires nt != PathExpr && nt != UnaryExpr && t.Bin? && t.op in Operators(nt) && JoinsNodeSets(t)
    requires k < |ts| && ts[k] == Op(t.op) && Shaped(nt, t.l, ts[..k]) && Shaped(Next(nt), t.r, ts[k + 1..])
    ensures Shaped(nt, t, ts)
  {
    hide Precedence;
    assert ts == ts[..k] + [Op(t.op)] + ts[k + 1..];
    Levels(nt, t.op);
    UnionTightest(t.op);
    if t.l.Bin? {
      UnionTightest(t.l.op);
    }
  }

  lemma Parted(nt: Nonterminal, t: Tree, ts: seq<Token>) returns (k: nat)
    requires nt != PathExpr && nt != UnaryExpr && t.Bin? && Shaped(nt, t, ts) && !Shaped(Next(nt), t, ts)
    ensures t.op in Operators(nt) && JoinsNodeSets(t)
    ensures k < |ts| && ts[k] == Op(t.op) && Shaped(nt, t.l, ts[..k]) && Shaped(Next(nt), t.r, ts[k + 1..])
  {
    hide Precedence, Operators;
    Levels(nt, t.op);
    UnionTightest(t.op);
    k := |Flatten(t.l)|;
    assert ts[..k] == Flatten(t.l) && ts[k + 1..] == Flatten(t.r) && ts[k] == Op(t.op);
    if t.r.Bin? {
      UnionTightest(t.r.op);
      Levels(nt, t.r.op);
    }
  }

  /** The parser turns a stream into a tree, using all of it, exactly when the tree is its derivation from OrExpr. */
  lemma ParsesGrammar(ts: seq<Token>, t: Tree)
    ensures ParseExpression(ts) == Ok(t, []) <==> Derives(OrExpr, t, ts)
  {
    hide ParseExpression, Derives, Flatten;
    ParseExact(ts, t);
    DerivesIff(OrExpr, t, ts);
    Loosest(t);
  }

  lemma Loosest(t: Tree)
    ensures Top(t) >= Bound(OrExpr)
  {
  }

  /** A whole query: accepted with its derivation tree, or it has none. */
  method ParseQuery(ts: seq<Token>) returns (r: Result)
    ensures r == ParseExpression(ts)
    ensures r.Ok? && r.rest == [] ==> Derives(OrExpr, r.tree, ts)
    ensures !(r.Ok? && r.rest == []) ==> forall t :: !Derives(OrExpr, t, ts)
  {
    hide Derives, ParseUnary, ParseRec;
    var first, pos := ParseOperand(ts, 0);
    assert ts[0..] == ts;
    r := first;
    if first.Ok? {
      r, pos := ParseExpressionRec(ts, pos, first.tree, 0);
    }
    forall t ensures Derives(OrExpr, t, ts) <==> r == Ok(t, []) {
      ParsesGrammar(ts, t);
    }
  }
}
