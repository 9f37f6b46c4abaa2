/** Filling a node array along an axis, and filtering its tail in place. */
module StepFill {
  import opened Sequences
  import opened Documents
  import opened Axes
  import opened Walkers

  // ----- walks that share a longer walk

  /** Two walks in the same direction over the same nodes are the same walk. */
  lemma SameWalk(s: seq<XNode>, t: seq<XNode>)
    requires (Ascending(s) && Ascending(t)) || (Descending(s) && Descending(t))
    requires forall y :: y in s <==> y in t
    ensures s == t
  {
    hide Ascending, Descending;
    assert Elems(s) == Elems(t);
    if Ascending(s) && Ascending(t) {
      AscendingUnique(s, t);
    } else {
      DescendingUnique(s, t);
    }
  }

  function OneIf(x: XNode, yes: bool): seq<XNode> {
    if yes then [x] else []
  }

  /** An or-self walk is the node itself, then the plain walk. */
  lemma OrSelf(d: Doc, axis: Axis, base: Axis, test: NodeTest, x: XNode, from: XNode)
    requires d.Valid() && InDoc(d, x) && InDoc(d, from)
    requires (axis == DescendantOrSelf && base == Descendant && x.N? && from == x)
          || (axis == AncestorOrSelf && base == Ancestor && x.N? && from == x)
          || (axis == AncestorOrSelf && base == AncestorOrSelf && x.A? && from == N(x.i))
    ensures StepNodes(d, axis, test, x) == OneIf(x, Accepts(d, axis, test, x)) + StepNodes(d, base, test, from)
  {
    hide StepNodes, TestNode, TestAttribute;
    StepNodesOrdered(d, axis, test, x);
    StepNodesOrdered(d, base, test, from);
    var t := OneIf(x, Accepts(d, axis, test, x)) + StepNodes(d, base, test, from);
    var rest := StepNodes(d, base, test, from);
    forall y | y in rest ensures if IsReverse(axis) then Before(y, x) else Before(x, y) {
      assert Selects(d, base, test, from, y);
    }
    assert if IsReverse(axis) then Descending(t) else Ascending(t);
    forall y ensures y in StepNodes(d, axis, test, x) <==> y in t {
      assert y in rest <==> Selects(d, base, test, from, y);
      assert Selects(d, axis, test, x, y) <==> (y == x && Accepts(d, axis, test, x)) || Selects(d, base, test, from, y);
    }
    SameWalk(StepNodes(d, axis, test, x), t);
  }

  lemma OneNode(d: Doc, axis: Axis, test: NodeTest, x: XNode, y: XNode)
    requires d.Valid() && InDoc(d, x) && InDoc(d, y) && OnAxis(d, axis, x, y)
    requires axis == Self || axis == Parent || (axis == DescendantOrSelf && x.A?)
    ensures StepNodes(d, axis, test, x) == OneIf(y, Accepts(d, axis, test, y))
  {
    hide StepNodes, TestNode, TestAttribute;
    StepNodesOrdered(d, axis, test, x);
    var s := StepNodes(d, axis, test, x);
    forall z ensures z in s <==> z == y && Accepts(d, axis, test, y) {
      assert z in s <==> Selects(d, axis, test, x, z);
    }
    SameWalk(s, if IsReverse(axis) then s else OneIf(y, Accepts(d, axis, test, y)));
  }

  lemma NothingThere(d: Doc, axis: Axis, test: NodeTest, x: XNode)
    requires d.Valid() && forall y :: !Selects(d, axis, test, x, y)
    ensures StepNodes(d, axis, test, x) == []
  {
    hide StepNodes, Selects;
    StepNodesOrdered(d, axis, test, x);
    ElemsEmpty(StepNodes(d, axis, test, x));
    assert Elems(StepNodes(d, axis, test, x)) == {};
  }

  /** Walks from an attribute that are walks from its element. */
  lemma ThroughElement(d: Doc, axis: Axis, base: Axis, test: NodeTest, p: nat, k: nat)
    requires d.Valid() && InDoc(d, A(p, k))
    requires (axis == Ancestor && base == AncestorOrSelf) || (axis == Preceding && base == Preceding)
    ensures StepNodes(d, axis, test, A(p, k)) == StepNodes(d, base, test, N(p))
  {
    hide StepNodes, TestNode, TestAttribute;
    StepNodesOrdered(d, axis, test, A(p, k));
    StepNodesOrdered(d, base, test, N(p));
    forall y ensures Selects(d, axis, test, A(p, k), y) <==> Selects(d, base, test, N(p), y) {
    }
    SameWalk(StepNodes(d, axis, test, A(p, k)), StepNodes(d, base, test, N(p)));
  }

  // ----- attributes of an element

  function AttributesFrom(d: Doc, test: NodeTest, i: nat, n: nat): seq<XNode>
    requires d.Valid() && i < d.Size() && n <= |d.attrs[i]|
  {
    if n == 0 then []
    else AttributesFrom(d, test, i, n - 1) + OneIf(A(i, n - 1), TestAttribute(test, d.attrs[i][n - 1].name))
  }

  lemma {:induction false} AttributesMembers(d: Doc, test: NodeTest, i: nat, n: nat)
    requires d.Valid() && i < d.Size() && n <= |d.attrs[i]|
    ensures Ascending(AttributesFrom(d, test, i, n))
    ensures forall y :: y in AttributesFrom(d, test, i, n) <==>
              y.A? && y.i == i && y.k < n && TestAttribute(test, d.attrs[i][y.k].name)
  {
    hide TestAttribute;
    if n > 0 {
      AttributesMembers(d, test, i, n - 1);
    }
  }

  lemma AttributesAreStep(d: Doc, test: NodeTest, i: nat)
    requires d.Valid() && i < d.Size()
    ensures StepNodes(d, Attribute, test, N(i)) == AttributesFrom(d, test, i, |d.attrs[i]|)
  {
    hide StepNodes, AttributesFrom, TestAttribute;
    StepNodesOrdered(d, Attribute, test, N(i));
    AttributesMembers(d, test, i, |d.attrs[i]|);
    forall y ensures y in StepNodes(d, Attribute, test, N(i)) <==> y in AttributesFrom(d, test, i, |d.attrs[i]|) {
    }
    SameWalk(StepNodes(d, Attribute, test, N(i)), AttributesFrom(d, test, i, |d.attrs[i]|));
  }

  lemma {:induction false} AttributesPrefix(d: Doc, test: NodeTest, i: nat, m: nat, n: nat)
    requires d.Valid() && i < d.Size() && m <= n <= |d.attrs[i]|
    ensures AttributesFrom(d, test, i, m) <= AttributesFrom(d, test, i, n)
    decreases n
  {
    if m < n {
      AttributesPrefix(d, test, i, m, n - 1);
    }
  }

  lemma AttributesNone(d: Doc, test: NodeTest, i: nat)
    requires d.Valid() && i < d.Size()
    ensures AttributesFrom(d, test, i, 0) == []
  {
  }

  lemma AttributesStep(d: Doc, test: NodeTest, i: nat, a: nat)
    requires d.Valid() && i < d.Size() && a < |d.attrs[i]|
    ensures AttributesFrom(d, test, i, a + 1) ==
            AttributesFrom(d, test, i, a) + OneIf(A(i, a), TestAttribute(test, d.attrs[i][a].name))
  {
  }

  method WalkAttributes(d: Doc, test: NodeTest, i: nat, once: bool) returns (r: seq<XNode>)
    requires d.Valid() && i < d.Size()
    ensures r == Stop(StepNodes(d, Attribute, test, N(i)), once)
  {
    hide Doc.Valid, StepNodes, AttributesFrom, TestAttribute;
    Bounds(d);
    AttributesAreStep(d, test, i);
    AttributesNone(d, test, i);
    r := [];
    var a := 0;
    while a < |d.attrs[i]|
      invariant 0 <= a <= |d.attrs[i]|
      invariant r == AttributesFrom(d, test, i, a) && (once ==> r == [])
    {
      AttributesStep(d, test, i, a);
      if TestAttribute(test, d.attrs[i][a].name) {
        r := r + [A(i, a)];
        if once {
          AttributesPrefix(d, test, i, a + 1, |d.attrs[i]|);
          return;
        }
      }
      a := a + 1;
    }
  }

  // ----- the following axis of an attribute includes the children of its element

  /** Nodes after p that pass the test, up to cur. */
  function After(d: Doc, test: NodeTest, p: nat, cur: nat): seq<XNode>
    requires d.Valid() && p < cur <= d.Size()
  {
    if cur == p + 1 then [] else After(d, test, p, cur - 1) + OneIf(N(cur - 1), TestNode(d, test, cur - 1))
  }

  lemma {:induction false} AfterMembers(d: Doc, test: NodeTest, p: nat, cur: nat)
    requires d.Valid() && p < cur <= d.Size()
    ensures Ascending(After(d, test, p, cur))
    ensures forall y :: y in After(d, test, p, cur) <==> y.N? && p < y.i < cur && TestNode(d, test, y.i)
    decreases cur
  {
    hide TestNode;
    if cur > p + 1 {
      AfterMembers(d, test, p, cur - 1);
    }
  }

  lemma {:induction false} AfterPrefix(d: Doc, test: NodeTest, p: nat, m: nat, n: nat)
    requires d.Valid() && p < m <= n <= d.Size()
    ensures After(d, test, p, m) <= After(d, test, p, n)
    decreases n
  {
    hide TestNode;
    if m < n {
      AfterPrefix(d, test, p, m, n - 1);
    }
  }

  lemma AfterIsStep(d: Doc, test: NodeTest, p: nat, k: nat)
    requires d.Valid() && InDoc(d, A(p, k))
    ensures StepNodes(d, Following, test, A(p, k)) == After(d, test, p, d.Size())
  {
    hide StepNodes, After, TestNode, TestAttribute;
    StepNodesOrdered(d, Following, test, A(p, k));
    AfterMembers(d, test, p, d.Size());
    forall y ensures y in StepNodes(d, Following, test, A(p, k)) <==> y in After(d, test, p, d.Size()) {
    }
    SameWalk(StepNodes(d, Following, test, A(p, k)), After(d, test, p, d.Size()));
  }

  lemma FirstChildIs(d: Doc, i: nat)
    requires d.Valid() && i < d.Size()
    ensures FirstChild(d, i) == NoNode || FirstChild(d, i) == i + 1 < d.Size()
  {
  }

  lemma AfterNothing(d: Doc, test: NodeTest, p: nat)
    requires d.Valid() && p < d.Size()
    ensures After(d, test, p, p + 1) == []
  {
  }

  lemma AfterStep(d: Doc, test: NodeTest, p: nat, cur: nat)
    requires d.Valid() && p < cur < d.Size()
    ensures After(d, test, p, cur + 1) == After(d, test, p, cur) + OneIf(N(cur), TestNode(d, test, cur))
  {
  }

  method WalkFollowingAttribute(d: Doc, test: NodeTest, p: nat, k: nat, once: bool) returns (r: seq<XNode>)
    requires d.Valid() && InDoc(d, A(p, k))
    ensures r == Stop(StepNodes(d, Following, test, A(p, k)), once)
  {
    hide StepNodes, TestNode, After, FirstChild, Doc.Valid;
    Bounds(d);
    AfterIsStep(d, test, p, k);
    AfterNothing(d, test, p);
    r := [];
    var cur: int := p;
    while true
      invariant p <= cur < d.Size()
      invariant r == After(d, test, p, cur + 1) && (once ==> r == [])
      decreases d.Size() - cur
    {
      FirstChildIs(d, cur);
      FirstChildLink(d, cur);
      if FirstChild(d, cur) != NoNode {
        cur := FirstChild(d, cur);
      } else {
        var ok, next := Climb(d, cur, NoNode);
        if !ok {
          return;
        }
        cur := next;
      }
      AfterStep(d, test, p, cur);
      if TestNode(d, test, cur) {
        r := r + [N(cur)];
        if once {
          AfterPrefix(d, test, p, cur + 1, d.Size());
          return;
        }
      }
    }
  }

  // ----- step_fill

  method FillFromNode(d: Doc, axis: Axis, test: NodeTest, i: nat, once: bool) returns (r: seq<XNode>)
    requires d.Valid() && i < d.Size()
    ensures r == Stop(StepNodes(d, axis, test, N(i)), once)
  {
    hide StepNodes, TestNode, TestAttribute;
    match axis
    case Attribute => r := WalkAttributes(d, test, i, once);
    case Child => r := WalkChildren(d, test, i, once);
    case Descendant => r := WalkDescendants(d, test, i, once);
    case DescendantOrSelf =>
      OrSelf(d, axis, Descendant, test, N(i), N(i));
      r := OneIf(N(i), TestNode(d, test, i));
      if !(r != [] && once) {
        var rest := WalkDescendants(d, test, i, once);
        r := r + rest;
      }
    case FollowingSibling => r := WalkFollowingSiblings(d, test, i, once);
    case PrecedingSibling => r := WalkPrecedingSiblings(d, test, i, once);
    case Following => r := WalkFollowing(d, test, i, once);
    case Preceding => r := WalkPreceding(d, test, i, once);
    case Ancestor => r := WalkAncestors(d, test, i, once);
    case AncestorOrSelf =>
      OrSelf(d, axis, Ancestor, test, N(i), N(i));
      r := OneIf(N(i), TestNode(d, test, i));
      if !(r != [] && once) {
        var rest := WalkAncestors(d, test, i, once);
        r := r + rest;
      }
    case Self =>
      OneNode(d, Self, test, N(i), N(i));
      r := OneIf(N(i), TestNode(d, test, i));
    case Parent =>
      if d.parent[i] != NoNode {
        OneNode(d, Parent, test, N(i), N(d.parent[i]));
        r := OneIf(N(d.parent[i]), TestNode(d, test, d.parent[i]));
      } else {
        NothingThere(d, Parent, test, N(i));
        r := [];
      }
    case Namespace =>
      NothingThere(d, Namespace, test, N(i));
      r := [];
  }

  method FillFromAttribute(d: Doc, axis: Axis, test: NodeTest, p: nat, k: nat, once: bool) returns (r: seq<XNode>)
    requires d.Valid() && InDoc(d, A(p, k))
    ensures r == Stop(StepNodes(d, axis, test, A(p, k)), once)
  {
    hide StepNodes, TestNode, TestAttribute;
    var own := OneIf(A(p, k), test == TypeNode && TestAttribute(test, d.attrs[p][k].name));
    match axis
    case Ancestor =>
      ThroughElement(d, Ancestor, AncestorOrSelf, test, p, k);
      r := FillFromNode(d, AncestorOrSelf, test, p, once);
    case AncestorOrSelf =>
      OrSelf(d, AncestorOrSelf, AncestorOrSelf, test, A(p, k), N(p));
      r := own;
      if !(r != [] && once) {
        var rest := FillFromNode(d, AncestorOrSelf, test, p, once);
        r := r + rest;
      }
    case DescendantOrSelf =>
      OneNode(d, axis, test, A(p, k), A(p, k));
      r := own;
    case Self =>
      OneNode(d, axis, test, A(p, k), A(p, k));
      r := own;
    case Following => r := WalkFollowingAttribute(d, test, p, k, once);
    case Parent =>
      OneNode(d, Parent, test, A(p, k), N(p));
      r := OneIf(N(p), TestNode(d, test, p));
    case Preceding =>
      ThroughElement(d, Preceding, Preceding, test, p, k);
      r := FillFromNode(d, Preceding, test, p, once);
    case _ =>
      NothingThere(d, axis, test, A(p, k));
      r := [];
  }

  /** The links walked from any node collect exactly what the axis and node test select, in axis
      order; a walk that may stop early collects the first of them. */
  method Fill(d: Doc, axis: Axis, test: NodeTest, x: XNode, once: bool) returns (r: seq<XNode>)
    requires d.Valid() && (x == Null || InDoc(d, x))
    ensures r == Stop(StepNodes(d, axis, test, x), once)
  {
    hide StepNodes;
    match x
    case N(i) => r := FillFromNode(d, axis, test, i, once);
    case A(p, k) => r := FillFromAttribute(d, axis, test, p, k, once);
    case Null =>
      NothingThere(d, axis, test, Null);
      r := [];
  }

  // ----- the walks partition the document

  function TreeNodes(n: nat): seq<XNode> {
    seq(n, i requires 0 <= i < n => N(i))
  }

  /** Ancestor, descendant, following, preceding and self together list every tree node once. */
  lemma WalksPartition(d: Doc, i: nat)
    requires d.Valid() && i < d.Size()
    ensures multiset(StepNodes(d, Ancestor, TypeNode, N(i)) + StepNodes(d, Descendant, TypeNode, N(i))
                     + StepNodes(d, Following, TypeNode, N(i)) + StepNodes(d, Preceding, TypeNode, N(i))
                     + StepNodes(d, Self, TypeNode, N(i)))
            == multiset(TreeNodes(d.Size()))
  {
    hide StepNodes, Reaches;
    var a, de, f := StepNodes(d, Ancestor, TypeNode, N(i)), StepNodes(d, Descendant, TypeNode, N(i)), StepNodes(d, Following, TypeNode, N(i));
    var p, s := StepNodes(d, Preceding, TypeNode, N(i)), StepNodes(d, Self, TypeNode, N(i));
    var all, nodes := a + de + f + p + s, TreeNodes(d.Size());
    forall x ensures multiset(all)[x] == multiset(nodes)[x] {
      AxesCount(d, i, x);
      TreeCount(d.Size(), x);
      assert multiset(all)[x] == multiset(a)[x] + multiset(de)[x] + multiset(f)[x] + multiset(p)[x] + multiset(s)[x];
    }
  }

  lemma TreeCount(n: nat, x: XNode)
    ensures multiset(TreeNodes(n))[x] == if x.N? && x.i < n then 1 else 0
  {
    var nodes := TreeNodes(n);
    assert forall k :: 0 <= k < n ==> nodes[k] == N(k);
    CountOnce(nodes, x);
    if x.N? && x.i < n {
      assert nodes[x.i] == x;
    }
  }

  /** Over the five walks each tree node is met once. */
  lemma AxesCount(d: Doc, i: nat, x: XNode)
    requires d.Valid() && i < d.Size()
    ensures multiset(StepNodes(d, Ancestor, TypeNode, N(i)))[x] + multiset(StepNodes(d, Descendant, TypeNode, N(i)))[x]
            + multiset(StepNodes(d, Following, TypeNode, N(i)))[x] + multiset(StepNodes(d, Preceding, TypeNode, N(i)))[x]
            + multiset(StepNodes(d, Self, TypeNode, N(i)))[x] == if x.N? && x.i < d.Size() then 1 else 0
  {
    hide StepNodes, Reaches;
    AxisCount(d, Ancestor, i, x);
    AxisCount(d, Descendant, i, x);
    AxisCount(d, Following, i, x);
    AxisCount(d, Preceding, i, x);
    AxisCount(d, Self, i, x);
    if x.N? && x.i < d.Size() {
      AxesPartition(d, i, x.i);
    }
  }

  lemma AxisCount(d: Doc, axis: Axis, i: nat, x: XNode)
    requires d.Valid() && i < d.Size() && axis != Attribute
    ensures multiset(StepNodes(d, axis, TypeNode, N(i)))[x] ==
            if x.N? && x.i < d.Size() && Reaches(d, axis, i, x.i) then 1 else 0
  {
    hide StepNodes, Reaches;
    StepNodesOrdered(d, axis, TypeNode, N(i));
    SelectsIsHit(d, axis, TypeNode, i, x);
    CountOnce(StepNodes(d, axis, TypeNode, N(i)), x);
  }

  lemma {:induction false} CountOnce<T>(s: seq<T>, x: T)
    requires NoDup(s)
    ensures multiset(s)[x] == if x in s then 1 else 0
  {
    if s != [] {
      var n := |s| - 1;
      assert s == s[..n] + [s[n]];
      CountOnce(s[..n], x);
    }
  }

  // ----- picking step by step

  lemma PickEmpty<T>(s: seq<T>, keep: seq<bool>)
    requires |keep| == |s|
    ensures Pick(s[..0], keep[..0]) == []
  {
  }

  lemma PickStep<T>(s: seq<T>, keep: seq<bool>, n: nat)
    requires |keep| == |s| && n < |s|
    ensures Pick(s[..n + 1], keep[..n + 1]) == Pick(s[..n], keep[..n]) + (if keep[n] then [s[n]] else [])
  {
    assert s[..n + 1][..n] == s[..n] && keep[..n + 1][..n] == keep[..n];
  }

  lemma {:induction false} PickPrefix<T>(s: seq<T>, keep: seq<bool>, n: nat)
    requires |keep| == |s| && n <= |s|
    ensures Pick(s[..n], keep[..n]) <= Pick(s, keep)
  {
    if n < |s| {
      var m := |s| - 1;
      PickPrefix(s[..m], keep[..m], n);
      assert s[..m][..n] == s[..n] && keep[..m][..n] == keep[..n];
    } else {
      assert s[..n] == s && keep[..n] == keep;
    }
  }
}
