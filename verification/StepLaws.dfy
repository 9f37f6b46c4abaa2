/** What axes and node tests select, in the terms of the language: a test keeps part of the node() walk, in its order. */
module StepLaws {
  import opened Sequences
  import opened Documents
  import opened Axes
  import opened StepFill

  /** A test that lets through, of what node() lets through, exactly what p says keeps that part of the walk. */
  lemma TestFilters(d: Doc, axis: Axis, test: NodeTest, x: XNode, p: XNode -> bool)
    requires d.Valid() && (x == Null || InDoc(d, x))
    requires forall y :: InDoc(d, y) && OnAxis(d, axis, x, y) ==>
               (Accepts(d, axis, test, y) <==> Accepts(d, axis, TypeNode, y) && p(y))
    ensures StepNodes(d, axis, test, x) == Filter(StepNodes(d, axis, TypeNode, x), p)
  {
    hide StepNodes, Accepts, OnAxis, Doc.Valid, Selects;
    var walk, kept := StepNodes(d, axis, TypeNode, x), StepNodes(d, axis, test, x);
    StepNodesOrdered(d, axis, test, x);
    StepNodesOrdered(d, axis, TypeNode, x);
    var filtered := Filter(walk, p);
    FilterOrdered(walk, p, IsReverse(axis));
    forall y ensures y in kept <==> y in filtered {
      FilterMember(walk, p, y);
      SelectedToo(d, axis, test, x, y, p);
    }
    SameWalk(kept, filtered);
  }

  lemma SelectedToo(d: Doc, axis: Axis, test: NodeTest, x: XNode, y: XNode, p: XNode -> bool)
    requires d.Valid() && (x == Null || InDoc(d, x))
    requires InDoc(d, y) && OnAxis(d, axis, x, y) ==> (Accepts(d, axis, test, y) <==> Accepts(d, axis, TypeNode, y) && p(y))
    ensures Selects(d, axis, test, x, y) <==> Selects(d, axis, TypeNode, x, y) && p(y)
  {
    hide Accepts, OnAxis, Doc.Valid;
    Bounds(d);
  }

  lemma FilterOrdered(s: seq<XNode>, p: XNode -> bool, reverse: bool)
    requires if reverse then Descending(s) else Ascending(s)
    ensures if reverse then Descending(Filter(s, p)) else Ascending(Filter(s, p))
  {
    if reverse {
      FilterPairwise(s, p, (a, b) => Before(b, a));
    } else {
      FilterPairwise(s, p, Before);
    }
  }

  predicate OfKind(d: Doc, y: XNode, kinds: set<NodeKind>) {
    y.N? && y.i < |d.kind| && d.kind[y.i] in kinds
  }

  predicate Named(d: Doc, y: XNode, kind: NodeKind, name: string) {
    OfKind(d, y, {kind}) && y.i < |d.name| && d.name[y.i] == name
  }

  predicate Prefixed(d: Doc, y: XNode, kind: NodeKind, prefix: string) {
    OfKind(d, y, {kind}) && y.i < |d.name| && |prefix| <= |d.name[y.i]| && d.name[y.i][..|prefix|] == prefix
  }

  /** On every axis but the attribute axis, from every node and attribute: type tests keep the nodes of their type, names
      the elements so named, and all in the order of the walk. */
  lemma NodeTests(d: Doc, axis: Axis, x: XNode, name: string)
    requires d.Valid() && (x == Null || InDoc(d, x)) && axis != Attribute
    ensures var walk := StepNodes(d, axis, TypeNode, x);
            && StepNodes(d, axis, TypeText, x) == Filter(walk, y => OfKind(d, y, {NodeKind.PcData, NodeKind.CData}))
            && StepNodes(d, axis, TypeComment, x) == Filter(walk, y => OfKind(d, y, {NodeKind.Comment}))
            && StepNodes(d, axis, TypeInstruction, x) == Filter(walk, y => OfKind(d, y, {NodeKind.Instruction}))
            && StepNodes(d, axis, InstructionName(name), x) == Filter(walk, y => Named(d, y, NodeKind.Instruction, name))
            && StepNodes(d, axis, AllNames, x) == Filter(walk, y => OfKind(d, y, {NodeKind.Element}))
            && StepNodes(d, axis, Name(name), x) == Filter(walk, y => Named(d, y, NodeKind.Element, name))
            && StepNodes(d, axis, AllInNamespace(name), x) == Filter(walk, y => Prefixed(d, y, NodeKind.Element, name))
  {
    hide StepNodes, OnAxis, Doc.Valid, Filter;
    Bounds(d);
    TestFilters(d, axis, TypeText, x, y => OfKind(d, y, {NodeKind.PcData, NodeKind.CData}));
    TestFilters(d, axis, TypeComment, x, y => OfKind(d, y, {NodeKind.Comment}));
    TestFilters(d, axis, TypeInstruction, x, y => OfKind(d, y, {NodeKind.Instruction}));
    TestFilters(d, axis, InstructionName(name), x, y => Named(d, y, NodeKind.Instruction, name));
    TestFilters(d, axis, AllNames, x, y => OfKind(d, y, {NodeKind.Element}));
    TestFilters(d, axis, Name(name), x, y => Named(d, y, NodeKind.Element, name));
    TestFilters(d, axis, AllInNamespace(name), x, y => Prefixed(d, y, NodeKind.Element, name));
  }

  // ----- attributes

  function NameOf(d: Doc, y: XNode): string {
    if y.A? && y.i < |d.attrs| && y.k < |d.attrs[y.i]| then d.attrs[y.i][y.k].name else ""
  }

  /** A namespace declaration: xmlns, or xmlns: and a prefix. */
  predicate Declares(name: string) {
    name == "xmlns" || (|name| >= 6 && name[..6] == "xmlns:")
  }

  function AllAttributes(d: Doc, i: nat): seq<XNode>
    requires i < |d.attrs|
  {
    seq(|d.attrs[i]|, k requires 0 <= k < |d.attrs[i]| => A(i, k))
  }

  /** The attribute axis: all attributes but namespace declarations, as they stand; names keep those so named, and type
      tests keep none. */
  lemma AttributeTests(d: Doc, i: nat, name: string)
    requires d.Valid() && i < d.Size()
    ensures i < |d.attrs|
    ensures var all := AllAttributes(d, i);
            && StepNodes(d, Attribute, TypeNode, N(i)) == Filter(all, y => !Declares(NameOf(d, y)))
            && StepNodes(d, Attribute, AllNames, N(i)) == Filter(all, y => !Declares(NameOf(d, y)))
            && StepNodes(d, Attribute, Name(name), N(i)) == Filter(all, y => !Declares(NameOf(d, y)) && NameOf(d, y) == name)
            && StepNodes(d, Attribute, AllInNamespace(name), N(i)) ==
               Filter(all, y => !Declares(NameOf(d, y)) && |name| <= |NameOf(d, y)| && NameOf(d, y)[..|name|] == name)
            && StepNodes(d, Attribute, TypeText, N(i)) == [] && StepNodes(d, Attribute, TypeComment, N(i)) == []
            && StepNodes(d, Attribute, TypeInstruction, N(i)) == [] && StepNodes(d, Attribute, InstructionName(name), N(i)) == []
  {
    hide StepNodes, Doc.Valid, Filter, IsXPathAttribute, Declares;
    Bounds(d);
    forall y | y in AllAttributes(d, i) ensures IsXPathAttribute(NameOf(d, y)) == !Declares(NameOf(d, y)) {
      DeclaresIs(NameOf(d, y));
    }
    AttributesFilter(d, TypeNode, i, y => !Declares(NameOf(d, y)));
    AttributesFilter(d, AllNames, i, y => !Declares(NameOf(d, y)));
    AttributesFilter(d, Name(name), i, y => !Declares(NameOf(d, y)) && NameOf(d, y) == name);
    AttributesFilter(d, AllInNamespace(name), i,
                     y => !Declares(NameOf(d, y)) && |name| <= |NameOf(d, y)| && NameOf(d, y)[..|name|] == name);
    NoAttributes(d, TypeText, i);
    NoAttributes(d, TypeComment, i);
    NoAttributes(d, TypeInstruction, i);
    NoAttributes(d, InstructionName(name), i);
  }

  lemma DeclaresIs(name: string)
    ensures IsXPathAttribute(name) <==> !Declares(name)
  {
    if |name| >= 6 {
      assert name[..6] == name[..5] + [name[5]] && "xmlns:" == "xmlns" + ":";
    }
  }

  lemma AttributesFilter(d: Doc, test: NodeTest, i: nat, p: XNode -> bool)
    requires d.Valid() && i < d.Size() && i < |d.attrs|
    requires forall y :: y in AllAttributes(d, i) ==> (TestAttribute(test, NameOf(d, y)) <==> p(y))
    ensures StepNodes(d, Attribute, test, N(i)) == Filter(AllAttributes(d, i), p)
  {
    hide StepNodes, Doc.Valid, TestAttribute;
    Bounds(d);
    var all, kept := AllAttributes(d, i), StepNodes(d, Attribute, test, N(i));
    StepNodesOrdered(d, Attribute, test, N(i));
    FilterOrdered(all, p, false);
    forall y ensures y in kept <==> y in Filter(all, p) {
      FilterMember(all, p, y);
      AttributeListed(d, i, y);
    }
    SameWalk(kept, Filter(all, p));
  }

  lemma AttributeListed(d: Doc, i: nat, y: XNode)
    requires i < |d.attrs|
    ensures y in AllAttributes(d, i) <==> y.A? && y.i == i && y.k < |d.attrs[i]|
  {
    if y.A? && y.i == i && y.k < |d.attrs[i]| {
      assert AllAttributes(d, i)[y.k] == y;
    }
  }

  lemma NoAttributes(d: Doc, test: NodeTest, i: nat)
    requires d.Valid() && i < d.Size() && (test == TypeText || test == TypeComment || test == TypeInstruction || test.InstructionName?)
    ensures StepNodes(d, Attribute, test, N(i)) == []
  {
    hide StepNodes, Doc.Valid;
    NothingThere(d, Attribute, test, N(i));
  }

  // ----- axes

  /** y is reached from x along the axis. */
  ghost predicate On(d: Doc, axis: Axis, x: XNode, y: XNode) {
    y in StepNodes(d, axis, TypeNode, x)
  }

  /** The axes between tree nodes, from the parent links alone. */
  lemma AxisLaws(d: Doc, i: nat, j: nat)
    requires d.Valid() && i < d.Size() && j < d.Size()
    ensures |d.parent| == d.Size()
    ensures On(d, Self, N(i), N(j)) <==> i == j
    ensures On(d, Parent, N(i), N(j)) <==> d.parent[i] == j
    ensures On(d, Child, N(i), N(j)) <==> d.parent[j] == i
    ensures On(d, Ancestor, N(i), N(j)) <==> i > 0 && (d.parent[i] == j || (d.parent[i] >= 0 && On(d, Ancestor, N(d.parent[i]), N(j))))
    ensures On(d, Descendant, N(i), N(j)) <==> On(d, Ancestor, N(j), N(i))
    ensures On(d, AncestorOrSelf, N(i), N(j)) <==> i == j || On(d, Ancestor, N(i), N(j))
    ensures On(d, DescendantOrSelf, N(i), N(j)) <==> i == j || On(d, Descendant, N(i), N(j))
    ensures On(d, FollowingSibling, N(i), N(j)) <==> i < j && d.parent[i] == d.parent[j]
    ensures On(d, PrecedingSibling, N(i), N(j)) <==> On(d, FollowingSibling, N(j), N(i))
    ensures On(d, Following, N(i), N(j)) <==> i < j && !On(d, Descendant, N(i), N(j))
    ensures On(d, Preceding, N(i), N(j)) <==> On(d, Following, N(j), N(i))
  {
    hide StepNodes, Doc.Valid, Reaches;
    Bounds(d);
    forall axis: Axis, a: nat, b: nat | axis != Attribute && a < d.Size() && b < d.Size()
      ensures On(d, axis, N(a), N(b)) <==> Reaches(d, axis, a, b)
    {
      StepNodesOrdered(d, axis, TypeNode, N(a));
    }
    ReachLaws(d, i, j);
  }

  lemma ReachLaws(d: Doc, i: nat, j: nat)
    requires d.Valid() && i < d.Size() && j < d.Size()
    ensures |d.end| == d.Size()
    ensures Reaches(d, Self, i, j) <==> i == j
    ensures Reaches(d, Parent, i, j) <==> d.parent[i] == j
    ensures Reaches(d, Child, i, j) <==> d.parent[j] == i
    ensures i > 0 ==> 0 <= d.parent[i] < i
    ensures Reaches(d, Ancestor, i, j) <==> i > 0 && (d.parent[i] == j || Reaches(d, Ancestor, d.parent[i], j))
    ensures Reaches(d, Descendant, i, j) <==> Reaches(d, Ancestor, j, i)
    ensures Reaches(d, Descendant, i, j) ==> i < j
    ensures Reaches(d, AncestorOrSelf, i, j) <==> i == j || Reaches(d, Ancestor, i, j)
    ensures Reaches(d, DescendantOrSelf, i, j) <==> i == j || Reaches(d, Descendant, i, j)
    ensures Reaches(d, FollowingSibling, i, j) <==> i < j && d.parent[i] == d.parent[j]
    ensures Reaches(d, PrecedingSibling, i, j) <==> Reaches(d, FollowingSibling, j, i)
    ensures Reaches(d, Following, i, j) <==> i < j && !Reaches(d, Descendant, i, j)
    ensures Reaches(d, Preceding, i, j) <==> Reaches(d, Following, j, i)
  {
    hide Doc.Valid;
    Bounds(d);
    if i > 0 {
      InParent(d, i);
      if Below(d, j, i) {
        Nests(d, j, i);
      }
      if Below(d, j, d.parent[i]) {
        Nests(d, j, d.parent[i]);
      }
    }
  }

  lemma OnIs(d: Doc, axis: Axis, x: XNode, j: nat)
    requires d.Valid() && InDoc(d, x) && j < d.Size()
    ensures |d.end| == |d.parent| && InDoc(d, N(j))
    ensures On(d, axis, x, N(j)) <==> OnAxis(d, axis, x, N(j))
  {
    hide StepNodes, Doc.Valid, OnAxis;
    Bounds(d);
    StepNodesOrdered(d, axis, TypeNode, x);
  }

  /** From an attribute: its element is its parent, what precedes the element precedes it, and everything after the
      element's own tag, descendants of the element included, follows it. */
  lemma AttributeAxisLaws(d: Doc, p: nat, k: nat, j: nat)
    requires d.Valid() && InDoc(d, A(p, k)) && j < d.Size()
    ensures On(d, Parent, A(p, k), N(j)) <==> j == p
    ensures On(d, Ancestor, A(p, k), N(j)) <==> On(d, AncestorOrSelf, N(p), N(j))
    ensures On(d, AncestorOrSelf, A(p, k), N(j)) <==> On(d, AncestorOrSelf, N(p), N(j))
    ensures On(d, Following, A(p, k), N(j)) <==> On(d, Descendant, N(p), N(j)) || On(d, Following, N(p), N(j))
    ensures On(d, Preceding, A(p, k), N(j)) <==> On(d, Preceding, N(p), N(j))
    ensures !On(d, Child, A(p, k), N(j)) && !On(d, Descendant, A(p, k), N(j)) && !On(d, DescendantOrSelf, A(p, k), N(j))
    ensures !On(d, FollowingSibling, A(p, k), N(j)) && !On(d, PrecedingSibling, A(p, k), N(j)) && !On(d, Self, A(p, k), N(j))
  {
    hide StepNodes, Doc.Valid, Reaches, On;
    Bounds(d);
    ReachLaws(d, p, j);
    forall axis: Axis, x: XNode | axis != Attribute && (x == N(p) || x == A(p, k))
      ensures On(d, axis, x, N(j)) <==> OnAxis(d, axis, x, N(j))
    {
      OnIs(d, axis, x, j);
    }
    ReachLaws(d, j, p);
  }
}
