/** Precedence climbing over XPath operators. */
module ExprParser {

  datatype BinOp =
    | OrOp | AndOp | EqOp | NotEqOp | LessOp | GreaterOp | LessEqOp | GreaterEqOp
    | AddOp | SubtractOp | MultiplyOp | DivOp | ModOp | UnionOp

  /** A lexeme as this layer sees it: an operand that is or is not a node set, or an operator.
      A minus where an operand is due negates. */
  datatype Token = Operand(id: nat, nodeSet: bool) | Op(op: BinOp)

  datatype Tree = Leaf(id: nat, nodeSet: bool) | Bin(op: BinOp, l: Tree, r: Tree) | Neg(e: Tree)

  datatype Error = MissingOperand | UnionNotNodeSet

  datatype Result = Fail(error: Error) | Ok(tree: Tree, rest: seq<Token>)

  function Precedence(op: BinOp): nat {
    match op
    case OrOp => 1
    case AndOp => 2
    case EqOp => 3
    case NotEqOp => 3
    case LessOp => 4
    case GreaterOp => 4
    case LessEqOp => 4
    case GreaterEqOp => 4
    case AddOp => 5
    case SubtractOp => 5
    case MultiplyOp => 6
    case DivOp => 6
    case ModOp => 6
    case UnionOp => 7
  }

  predicate IsNodeSet(t: Tree) {
    match t
    case Leaf(_, ns) => ns
    case Bin(op, _, _) => op == UnionOp
    case Neg(_) => false
  }

  /** Does the stream start with an operator of at least this precedence? */
  predicate NextBinds(ts: seq<Token>, limit: int) {
    ts != [] && ts[0].Op? && Precedence(ts[0].op) >= limit
  }

  // ----- the parser

  function ParseUnary(ts: seq<Token>): (r: Result)
    ensures r.Ok? ==> |r.rest| < |ts|
    decreases |ts|, 0
  {
    if ts == [] then Fail(MissingOperand)
    else if ts[0].Operand? then Ok(Leaf(ts[0].id, ts[0].nodeSet), ts[1..])
    else if ts[0].op == SubtractOp then
      // only unions bind tighter than a sign
      match ParseUnary(ts[1..])
      case Fail(error) => Fail(error)
      case Ok(e, rest) =>
        match ParseRec(e, 7, rest)
        case Fail(error) => Fail(error)
        case Ok(e', rest') => Ok(Neg(e'), rest')
    else Fail(MissingOperand)
  }

  /** Extend lhs by operators of at least the given precedence. */
  function ParseRec(lhs: Tree, limit: int, ts: seq<Token>): (r: Result)
    ensures r.Ok? ==> |r.rest| <= |ts| && (NextBinds(ts, limit) ==> |r.rest| < |ts|)
    ensures r.Ok? ==> !NextBinds(r.rest, limit)
    decreases |ts|, 2
  {
    if !NextBinds(ts, limit) then Ok(lhs, ts)
    else
      var op := ts[0].op;
      match ParseUnary(ts[1..])
      case Fail(error) => Fail(error)
      case Ok(first, ts1) =>
        match ParseRight(Precedence(op), first, ts1)
        case Fail(error) => Fail(error)
        case Ok(rhs, ts2) =>
          if op == UnionOp && !(IsNodeSet(lhs) && IsNodeSet(rhs)) then Fail(UnionNotNodeSet)
          else ParseRec(Bin(op, lhs, rhs), limit, ts2)
  }

  /** Extend the right operand of an operator of precedence p by all tighter operators. */
  function ParseRight(p: nat, rhs: Tree, ts: seq<Token>): (r: Result)
    ensures r.Ok? ==> |r.rest| <= |ts|
    decreases |ts|, 3
  {
    if !NextBinds(ts, p + 1) then Ok(rhs, ts)
    else
      match ParseRec(rhs, Precedence(ts[0].op), ts)
      case Fail(error) => Fail(error)
      case Ok(rhs', ts') => ParseRight(p, rhs', ts')
  }

  function ParseExpression(ts: seq<Token>): Result {
    Parse(0, ts)
  }

  function Parse(limit: int, ts: seq<Token>): Result {
    match ParseUnary(ts)
    case Fail(error) => Fail(error)
    case Ok(lhs, rest) => ParseRec(lhs, limit, rest)
  }

  // ----- the trees it must build

  /** The stream a tree stands for. */
  function Flatten(t: Tree): seq<Token> {
    match t
    case Leaf(id, ns) => [Operand(id, ns)]
    case Bin(op, l, r) => Flatten(l) + [Op(op)] + Flatten(r)
    case Neg(e) => [Op(SubtractOp)] + Flatten(e)
  }

  /** How tightly a tree holds together; a sign lies between products and unions. */
  function Top(t: Tree): nat {
    match t
    case Leaf(_, _) => 15
    case Bin(op, _, _) => 2 * Precedence(op)
    case Neg(_) => 13
  }

  /** Left operands bind at least as tightly as their operator, right operands strictly tighter. */
  predicate WellShaped(t: Tree) {
    match t
    case Leaf(_, _) => true
    case Bin(op, l, r) =>
      && WellShaped(l) && WellShaped(r)
      && Top(l) >= 2 * Precedence(op) && Top(r) > 2 * Precedence(op)
      && (op == UnionOp ==> IsNodeSet(l) && IsNodeSet(r))
    case Neg(e) => WellShaped(e) && Top(e) >= 13
  }

  // ----- the limit only says when to stop

  lemma {:induction false} StopsLater(lhs: Tree, m: int, q: int, ts: seq<Token>)
    requires m <= q
    ensures ParseRec(lhs, m, ts) ==
            (match ParseRec(lhs, q, ts)
             case Fail(error) => Fail(error)
             case Ok(t, rest) => ParseRec(t, m, rest))
    decreases |ts|
  {
    if NextBinds(ts, q) {
      var op := ts[0].op;
      if ParseUnary(ts[1..]).Ok? {
        var first := ParseUnary(ts[1..]);
        var right := ParseRight(Precedence(op), first.tree, first.rest);
        if right.Ok? {
          StopsLater(Bin(op, lhs, right.tree), m, q, right.rest);
        }
      }
    }
  }

  /** The inner loop over tighter operators is one climb at the next precedence. */
  lemma {:induction false} RightIsRec(p: nat, rhs: Tree, ts: seq<Token>)
    ensures ParseRight(p, rhs, ts) == ParseRec(rhs, p + 1, ts)
    decreases |ts|
  {
    if NextBinds(ts, p + 1) {
      var q := Precedence(ts[0].op);
      StopsLater(rhs, p + 1, q, ts);
      var inner := ParseRec(rhs, q, ts);
      if inner.Ok? {
        RightIsRec(p, inner.tree, inner.rest);
      }
    }
  }

  // ----- completeness: a well-shaped tree is found again

  /** What follows the tree does not bind into it. */
  predicate Separated(t: Tree, rest: seq<Token>) {
    rest == [] || !rest[0].Op? || 2 * Precedence(rest[0].op) <= Top(t)
  }

  lemma {:induction false} UnaryFound(t: Tree, rest: seq<Token>)
    requires WellShaped(t) && !t.Bin? && Separated(t, rest)
    ensures ParseUnary(Flatten(t) + rest) == Ok(t, rest)
    decreases t, 0
  {
    if t.Neg? {
      var ts := Flatten(t) + rest;
      assert ts[1..] == Flatten(t.e) + rest;
      TreeFound(t.e, 7, rest);
    } else {
      assert (Flatten(t) + rest)[1..] == rest;
    }
  }

  lemma {:induction false} TreeFound(t: Tree, limit: int, rest: seq<Token>)
    requires WellShaped(t) && Separated(t, rest) && (t.Bin? ==> Precedence(t.op) >= limit)
    ensures Parse(limit, Flatten(t) + rest) == ParseRec(t, limit, rest)
    decreases t, 1
  {
    hide ParseUnary, ParseRec, ParseRight, Precedence;
    if t.Bin? {
      var after := [Op(t.op)] + Flatten(t.r) + rest;
      assert Flatten(t) + rest == Flatten(t.l) + after;
      LeftSeparated(t, after, limit);
      TreeFound(t.l, limit, after);
      TreeFound(t.r, Precedence(t.op) + 1, rest);
      OperatorFound(t, limit, rest, after);
    } else {
      UnaryFound(t, rest);
    }
  }

  /** The operator of a well-shaped tree does not bind into its left operand, nor what follows into its right one. */
  lemma LeftSeparated(t: Tree, after: seq<Token>, limit: int)
    requires t.Bin? && WellShaped(t) && Precedence(t.op) >= limit && after != [] && after[0] == Op(t.op)
    ensures Separated(t.l, after) && (t.l.Bin? ==> Precedence(t.l.op) >= limit)
    ensures t.r.Bin? ==> Precedence(t.r.op) >= Precedence(t.op) + 1
    ensures forall rest :: Separated(t, rest) ==> Separated(t.r, rest) && !NextBinds(rest, Precedence(t.op) + 1)
  {
  }

  /** Climbing over the operator after the left operand puts the tree together. */
  lemma OperatorFound(t: Tree, limit: int, rest: seq<Token>, after: seq<Token>)
    requires t.Bin? && WellShaped(t) && Precedence(t.op) >= limit && !NextBinds(rest, Precedence(t.op) + 1)
    requires after == [Op(t.op)] + Flatten(t.r) + rest
    requires Parse(Precedence(t.op) + 1, Flatten(t.r) + rest) == ParseRec(t.r, Precedence(t.op) + 1, rest)
    ensures ParseRec(t.l, limit, after) == ParseRec(t, limit, rest)
  {
    hide ParseUnary, Precedence, Flatten, Top;
    assert after[1..] == Flatten(t.r) + rest;
    var p := Precedence(t.op);
    var first := ParseUnary(Flatten(t.r) + rest);
    assert ParseRec(t.r, p + 1, rest) == Ok(t.r, rest);
    if first.Ok? {
      RightIsRec(p, first.tree, first.rest);
    }
  }

  // ----- soundness: what is found is well shaped and reads back as the input

  lemma {:induction false} UnarySound(ts: seq<Token>)
    requires ParseUnary(ts).Ok?
    ensures var r := ParseUnary(ts);
            WellShaped(r.tree) && Top(r.tree) >= 13 && Flatten(r.tree) + r.rest == ts && Separated(r.tree, r.rest)
    decreases |ts|, 0
  {
    hide ParseRec;
    if ts[0].Op? {
      UnarySound(ts[1..]);
      var inner := ParseUnary(ts[1..]);
      RecSound(inner.tree, 7, inner.rest);
      SignReads(ParseRec(inner.tree, 7, inner.rest).tree, ts, ParseRec(inner.tree, 7, inner.rest).rest);
      SignSeparated(ParseRec(inner.tree, 7, inner.rest).tree, ParseRec(inner.tree, 7, inner.rest).rest);
    } else {
      assert ts == [ts[0]] + ts[1..];
    }
  }

  lemma SignReads(e: Tree, ts: seq<Token>, rest: seq<Token>)
    requires ts != [] && ts[0] == Op(SubtractOp) && Flatten(e) + rest == ts[1..]
    ensures Flatten(Neg(e)) + rest == ts
  {
    assert ts == [ts[0]] + ts[1..];
  }

  lemma SignSeparated(e: Tree, rest: seq<Token>)
    requires !NextBinds(rest, 7)
    ensures Separated(Neg(e), rest)
  {
  }

  lemma JoinReads(lhs: Tree, op: BinOp, rhs: Tree, ts: seq<Token>, rest: seq<Token>)
    requires ts != [] && ts[0] == Op(op) && Flatten(rhs) + rest == ts[1..]
    ensures Flatten(Bin(op, lhs, rhs)) + rest == Flatten(lhs) + ts
  {
    assert ts == [Op(op)] + (Flatten(rhs) + rest);
  }

  /** Climbing from a well-shaped lhs that the next operator does not break up. */
  lemma {:induction false} RecSound(lhs: Tree, limit: int, ts: seq<Token>)
    requires ParseRec(lhs, limit, ts).Ok? && WellShaped(lhs) && Top(lhs) >= 2 * limit - 1 && Separated(lhs, ts)
    ensures var r := ParseRec(lhs, limit, ts);
            WellShaped(r.tree) && Top(r.tree) >= 2 * limit - 1 && Flatten(r.tree) + r.rest == Flatten(lhs) + ts
    decreases |ts|, 2
  {
    hide Flatten;
    if NextBinds(ts, limit) {
      var op := ts[0].op;
      var p := Precedence(op);
      UnarySound(ts[1..]);
      var first := ParseUnary(ts[1..]);
      RightIsRec(p, first.tree, first.rest);
      RecSound(first.tree, p + 1, first.rest);
      var right := ParseRight(p, first.tree, first.rest);
      JoinReads(lhs, op, right.tree, ts, right.rest);
      RecSound(Bin(op, lhs, right.tree), limit, right.rest);
    }
  }

  /** The parser turns a stream into a tree, using all of it, exactly when the tree is well shaped and
      reads back as the stream; so the tree is the only one. */
  lemma ParseExact(ts: seq<Token>, t: Tree)
    ensures ParseExpression(ts) == Ok(t, []) <==> WellShaped(t) && Flatten(t) == ts
  {
    if ParseExpression(ts) == Ok(t, []) {
      UnarySound(ts);
      var first := ParseUnary(ts);
      RecSound(first.tree, 0, first.rest);
      assert Flatten(t) + [] == Flatten(t);
      assert Flatten(first.tree) + first.rest == ts;
    }
    if WellShaped(t) && Flatten(t) == ts {
      TreeFound(t, 0, []);
      assert Flatten(t) + [] == ts;
    }
  }

  // ----- which streams are accepted

  /** Operands, each with any number of signs before it, joined by binary operators. */
  predicate Stream(ts: seq<Token>) {
    && ts != []
    && if ts[0].Operand? then |ts| > 1 ==> ts[1].Op? && Stream(ts[2..])
       else ts[0].op == SubtractOp && Stream(ts[1..])
  }

  predicate NodeOperand(t: Token) {
    t.Operand? && t.nodeSet
  }

  /** Every union sign stands between two operands that are node sets. */
  predicate UnionsJoinNodeSets(ts: seq<Token>) {
    forall i :: 0 <= i < |ts| && ts[i] == Op(UnionOp) ==>
      0 < i < |ts| - 1 && NodeOperand(ts[i - 1]) && NodeOperand(ts[i + 1])
  }

  /** The same of a part whose left neighbour is out of sight. */
  predicate UnionsAhead(ts: seq<Token>) {
    forall i :: 0 <= i < |ts| && ts[i] == Op(UnionOp) ==>
      i < |ts| - 1 && (i > 0 ==> NodeOperand(ts[i - 1])) && NodeOperand(ts[i + 1])
  }

  /** What may follow an operand of a stream. */
  predicate Continues(ts: seq<Token>) {
    ts == [] || (ts[0].Op? && Stream(ts[1..]))
  }

  lemma UnionsLater(ts: seq<Token>)
    requires ts != [] && UnionsAhead(ts)
    ensures UnionsAhead(ts[1..])
  {
    forall i | 0 <= i < |ts| - 1 && ts[1..][i] == Op(UnionOp)
      ensures i < |ts| - 2 && (i > 0 ==> NodeOperand(ts[1..][i - 1])) && NodeOperand(ts[1..][i + 1])
    {
      assert ts[i + 1] == Op(UnionOp);
    }
  }

  lemma {:induction false} UnaryAccepts(ts: seq<Token>)
    requires Stream(ts) && UnionsAhead(ts)
    ensures var r := ParseUnary(ts);
            && r.Ok? && Continues(r.rest) && UnionsAhead(r.rest) && (NextBinds(r.rest, 7) ==> IsNodeSet(r.tree))
            && (NodeOperand(ts[0]) ==> IsNodeSet(r.tree))
    decreases |ts|, 0
  {
    UnionsLater(ts);
    if ts[0].Operand? {
      if |ts| > 1 {
        assert ts[1..][1..] == ts[2..];
        assert ts[1] == Op(UnionOp) ==> NodeOperand(ts[0]);
      }
    } else {
      UnaryAccepts(ts[1..]);
      var inner := ParseUnary(ts[1..]);
      RecAccepts(inner.tree, 7, inner.rest);
    }
  }

  lemma {:induction false} RecAccepts(lhs: Tree, limit: int, ts: seq<Token>)
    requires Continues(ts) && UnionsAhead(ts) && (NextBinds(ts, 7) ==> IsNodeSet(lhs))
    ensures var r := ParseRec(lhs, limit, ts);
            r.Ok? && Continues(r.rest) && UnionsAhead(r.rest) && (NextBinds(r.rest, 7) ==> IsNodeSet(r.tree))
    decreases |ts|, 2
  {
    if NextBinds(ts, limit) {
      var op := ts[0].op;
      var p := Precedence(op);
      UnionsLater(ts);
      UnaryAccepts(ts[1..]);
      var first := ParseUnary(ts[1..]);
      RightIsRec(p, first.tree, first.rest);
      RecAccepts(first.tree, p + 1, first.rest);
      var right := ParseRight(p, first.tree, first.rest);
      assert op == UnionOp ==> right == first;
      RecAccepts(Bin(op, lhs, right.tree), limit, right.rest);
    }
  }

  // the other way: what a well-shaped tree reads as

  /** A tree ends with an operand; one that is a node set starts and ends with one. */
  lemma {:induction false} Edges(t: Tree)
    requires WellShaped(t)
    ensures var ts := Flatten(t);
            && ts != [] && ts[|ts| - 1].Operand?
            && (IsNodeSet(t) ==> NodeOperand(ts[0]) && NodeOperand(ts[|ts| - 1]))
  {
    match t
    case Leaf(_, _) =>
    case Bin(_, l, r) =>
      Edges(l);
      Edges(r);
    case Neg(e) => Edges(e);
  }

  lemma {:induction false} StreamJoin(a: seq<Token>, op: BinOp, b: seq<Token>)
    requires Stream(a) && Stream(b)
    ensures Stream(a + [Op(op)] + b)
    decreases |a|
  {
    var ts := a + [Op(op)] + b;
    if a[0].Operand? {
      if |a| == 1 {
        assert ts[2..] == b;
      } else {
        StreamJoin(a[2..], op, b);
        assert ts[2..] == a[2..] + [Op(op)] + b;
      }
    } else {
      StreamJoin(a[1..], op, b);
      assert ts[1..] == a[1..] + [Op(op)] + b;
    }
  }

  lemma UnionsJoin(a: seq<Token>, op: BinOp, b: seq<Token>)
    requires a != [] && b != [] && UnionsJoinNodeSets(a) && UnionsJoinNodeSets(b)
    requires op == UnionOp ==> NodeOperand(a[|a| - 1]) && NodeOperand(b[0])
    ensures UnionsJoinNodeSets(a + [Op(op)] + b)
  {
    var ts := a + [Op(op)] + b;
    forall i | 0 <= i < |ts| && ts[i] == Op(UnionOp)
      ensures 0 < i < |ts| - 1 && NodeOperand(ts[i - 1]) && NodeOperand(ts[i + 1])
    {
      if i < |a| {
        assert a[i] == Op(UnionOp);
      } else if i > |a| {
        assert b[i - |a| - 1] == Op(UnionOp);
      }
    }
  }

  lemma {:induction false} ReadsAsStream(t: Tree)
    requires WellShaped(t)
    ensures Stream(Flatten(t)) && UnionsJoinNodeSets(Flatten(t))
  {
    match t
    case Leaf(_, _) =>
    case Bin(op, l, r) =>
      ReadsAsStream(l);
      ReadsAsStream(r);
      Edges(l);
      Edges(r);
      StreamJoin(Flatten(l), op, Flatten(r));
      UnionsJoin(Flatten(l), op, Flatten(r));
    case Neg(e) =>
      ReadsAsStream(e);
      var ts := Flatten(t);
      assert ts[1..] == Flatten(e);
      forall i | 0 <= i < |ts| && ts[i] == Op(UnionOp)
        ensures 0 < i < |ts| - 1 && NodeOperand(ts[i - 1]) && NodeOperand(ts[i + 1])
      {
        assert Flatten(e)[i - 1] == Op(UnionOp);
      }
  }

  /** The parser uses up a stream exactly when it alternates operands and operators and every union joins node sets. */
  lemma StreamsParse(ts: seq<Token>)
    ensures ParseExpression(ts).Ok? && ParseExpression(ts).rest == [] <==> Stream(ts) && UnionsJoinNodeSets(ts)
  {
    if Stream(ts) && UnionsJoinNodeSets(ts) {
      UnaryAccepts(ts);
      var first := ParseUnary(ts);
      RecAccepts(first.tree, 0, first.rest);
    }
    var r := ParseExpression(ts);
    if r.Ok? && r.rest == [] {
      ParseExact(ts, r.tree);
      ReadsAsStream(r.tree);
    }
  }

  // ----- the loops of the parser, on a cursor into the stream

  method ParseOperand(ts: seq<Token>, pos: nat) returns (r: Result, next: nat)
    requires pos <= |ts|
    ensures r == ParseUnary(ts[pos..])
    ensures r.Ok? ==> next <= |ts| && r.rest == ts[next..]
    decreases |ts| - pos, 0
  {
    next := pos;
    if pos == |ts| {
      return Fail(MissingOperand), pos;
    }
    assert ts[pos..][1..] == ts[pos + 1..];
    if ts[pos].Operand? {
      return Ok(Leaf(ts[pos].id, ts[pos].nodeSet), ts[pos + 1..]), pos + 1;
    }
    if ts[pos].op == SubtractOp {
      r, next := ParseOperand(ts, pos + 1);
      if r.Ok? {
        r, next := ParseExpressionRec(ts, next, r.tree, 7);
        if r.Ok? {
          r := Ok(Neg(r.tree), r.rest);
        }
      }
      return;
    }
    return Fail(MissingOperand), pos;
  }

  method ParseExpressionRec(ts: seq<Token>, start: nat, left: Tree, limit: int) returns (r: Result, pos: nat)
    requires start <= |ts|
    ensures r == ParseRec(left, limit, ts[start..])
    ensures r.Ok? ==> start <= pos <= |ts| && r.rest == ts[pos..]
    decreases |ts| - start, 2
  {
    hide Precedence, IsNodeSet, ParseUnary;
    var lhs := left;
    pos := start;
    while NextBinds(ts[pos..], limit)
      invariant start <= pos <= |ts|
      invariant ParseRec(left, limit, ts[start..]) == ParseRec(lhs, limit, ts[pos..])
      decreases |ts| - pos
    {
      var op := ts[pos].op;
      ghost var at := pos;
      assert ts[pos..][1..] == ts[pos + 1..];
      r, pos := ParseOperand(ts, pos + 1);
      if r.Fail? {
        return;
      }
      ghost var first := r;
      var rhs := r.tree;
      while NextBinds(ts[pos..], Precedence(op) + 1)
        invariant at < pos <= |ts|
        invariant ParseRight(Precedence(op), first.tree, first.rest) == ParseRight(Precedence(op), rhs, ts[pos..])
        decreases |ts| - pos
      {
        r, pos := ParseExpressionRec(ts, pos, rhs, Precedence(ts[pos].op));
        if r.Fail? {
          return;
        }
        rhs := r.tree;
      }
      if op == UnionOp && !(IsNodeSet(lhs) && IsNodeSet(rhs)) {
        return Fail(UnionNotNodeSet), pos;
      }
      lhs := Bin(op, lhs, rhs);
    }
    r := Ok(lhs, ts[pos..]);
  }
}
