/** The XPath axes and node tests of a location step. */
module Axes {
  import opened Sequences
  import opened Documents

  datatype Axis =
    | Ancestor | AncestorOrSelf | Attribute | Child | Descendant | DescendantOrSelf
    | Following | FollowingSibling | Namespace | Parent | Preceding | PrecedingSibling | Self

  datatype NodeTest =
    | Name(s: string) | TypeNode | TypeComment | TypeInstruction | TypeText
    | InstructionName(s: string) | AllNames | AllInNamespace(s: string)

  predicate IsReverse(axis: Axis) {
    axis == Ancestor || axis == AncestorOrSelf || axis == Preceding || axis == PrecedingSibling
  }

  /** Namespace declarations are not attributes for XPath. */
  predicate IsXPathAttribute(name: string) {
    !("xmlns" <= name && (|name| == 5 || name[5] == ':'))
  }

  predicate TestNode(d: Doc, test: NodeTest, j: nat)
    requires j < |d.kind| && j < |d.name|
  {
    match test
    case Name(s) => d.kind[j] == Element && d.name[j] == s
    case TypeNode => true
    case TypeComment => d.kind[j] == Comment
    case TypeInstruction => d.kind[j] == Instruction
    case TypeText => d.kind[j] == PcData || d.kind[j] == CData
    case InstructionName(s) => d.kind[j] == Instruction && d.name[j] == s
    case AllNames => d.kind[j] == Element
    case AllInNamespace(s) => d.kind[j] == Element && s <= d.name[j]
  }

  predicate TestAttribute(test: NodeTest, name: string) {
    match test
    case Name(s) => name == s && IsXPathAttribute(name)
    case TypeNode => IsXPathAttribute(name)
    case AllNames => IsXPathAttribute(name)
    case AllInNamespace(s) => s <= name && IsXPathAttribute(name)
    case _ => false
  }

  /** The node-to-node part of an axis: does the walk from node i reach node j? */
  predicate Reaches(d: Doc, axis: Axis, i: nat, j: nat)
    requires i < |d.parent| && i < |d.end| && j < |d.parent| && j < |d.end|
  {
    match axis
    case Ancestor => Below(d, j, i)
    case AncestorOrSelf => i == j || Below(d, j, i)
    case Child => d.parent[j] == i
    case Descendant => Below(d, i, j)
    case DescendantOrSelf => i == j || Below(d, i, j)
    case Following => d.end[i] <= j
    case FollowingSibling => i < j && d.parent[j] == d.parent[i]
    case Parent => d.parent[i] == j
    case Preceding => j < i && !Below(d, j, i)
    case PrecedingSibling => j < i && d.parent[j] == d.parent[i]
    case Self => i == j
    case Attribute => false
    case Namespace => false
  }

  /** The same relation for every pair of XPath nodes of the document. */
  predicate OnAxis(d: Doc, axis: Axis, x: XNode, y: XNode)
    requires |d.end| == |d.parent| && (x == Null || InDoc(d, x)) && InDoc(d, y)
  {
    match (x, y)
    case (N(i), N(j)) => Reaches(d, axis, i, j)
    case (N(i), A(j, _)) => axis == Attribute && i == j
    case (A(p, _), N(j)) =>
      (match axis
       case Ancestor => Reaches(d, AncestorOrSelf, p, j)
       case AncestorOrSelf => Reaches(d, AncestorOrSelf, p, j)
       case Following => p < j
       case Parent => p == j
       case Preceding => Reaches(d, Preceding, p, j)
       case _ => false)
    case (A(_, _), A(_, _)) =>
      x == y && (axis == AncestorOrSelf || axis == DescendantOrSelf || axis == Self)
    case _ => false
  }

  /** The node test of a step; off the attribute axis only node() lets an attribute through. */
  predicate Accepts(d: Doc, axis: Axis, test: NodeTest, y: XNode)
    requires |d.kind| == |d.name| == |d.attrs| == d.Size() && InDoc(d, y)
  {
    match y
    case N(j) => TestNode(d, test, j)
    case A(i, k) => (axis == Attribute || test == TypeNode) && TestAttribute(test, d.attrs[i][k].name)
    case Null => false
  }

  predicate Selects(d: Doc, axis: Axis, test: NodeTest, x: XNode, y: XNode) {
    && |d.end| == |d.kind| == |d.name| == |d.attrs| == d.Size()
    && (x == Null || InDoc(d, x)) && InDoc(d, y)
    && OnAxis(d, axis, x, y) && Accepts(d, axis, test, y)
  }

  /** Everything a step selects from x, in the order its axis walks. */
  function StepNodes(d: Doc, axis: Axis, test: NodeTest, x: XNode): seq<XNode> {
    var found := Filter(AllNodes(d), y => Selects(d, axis, test, x, y));
    if IsReverse(axis) then Reverse(found) else found
  }

  lemma StepNodesOrdered(d: Doc, axis: Axis, test: NodeTest, x: XNode)
    requires d.Valid()
    ensures forall y :: y in StepNodes(d, axis, test, x) <==> Selects(d, axis, test, x, y)
    ensures if IsReverse(axis) then Descending(StepNodes(d, axis, test, x)) else Ascending(StepNodes(d, axis, test, x))
    ensures NoDup(StepNodes(d, axis, test, x))
  {
    AllNodesComplete(d);
    var p := y => Selects(d, axis, test, x, y);
    var found := Filter(AllNodes(d), p);
    FilterAscending(AllNodes(d), p);
    forall y ensures y in found <==> Selects(d, axis, test, x, y) {
      FilterMember(AllNodes(d), p, y);
    }
    DescendingReverse(found);
    ElemsReverse(found);
    AscendingNoDup(StepNodes(d, axis, test, x));
    forall y ensures y in StepNodes(d, axis, test, x) <==> y in found {
      assert y in Elems(found) <==> y in found;
      assert y in Elems(Reverse(found)) <==> y in Reverse(found);
    }
  }

  // ----- composing descendant-or-self::node() with a second step

  /** descendant-or-self::node() followed by axis selects what the fused axis selects. */
  function FusedAxis(axis: Axis): Axis
    requires axis == Child || axis == Self || axis == Descendant || axis == DescendantOrSelf
  {
    if axis == Child || axis == Descendant then Descendant else DescendantOrSelf
  }

  lemma FuseSound(d: Doc, axis: Axis, test: NodeTest, x: XNode, y: XNode, z: XNode)
    requires d.Valid()
    requires axis == Child || axis == Self || axis == Descendant || axis == DescendantOrSelf
    requires Selects(d, DescendantOrSelf, TypeNode, x, y) && Selects(d, axis, test, y, z)
    ensures Selects(d, FusedAxis(axis), test, x, z)
  {
    hide Doc.Valid;
    Bounds(d);
    if z.N? {
      if y.i != x.i {
        Nests(d, x.i, y.i);
      }
      if axis == Child {
        InParent(d, z.i);
      }
    }
  }

  lemma FuseWitness(d: Doc, axis: Axis, test: NodeTest, x: XNode, z: XNode)
    requires d.Valid()
    requires axis == Child || axis == Self || axis == Descendant || axis == DescendantOrSelf
    requires Selects(d, FusedAxis(axis), test, x, z)
    ensures exists y :: Selects(d, DescendantOrSelf, TypeNode, x, y) && Selects(d, axis, test, y, z)
  {
    if axis == Child {
      ChildWitness(d, test, x, z);
    } else if axis == Self {
      assert Selects(d, DescendantOrSelf, TypeNode, x, z) && Selects(d, axis, test, z, z);
    } else {
      assert Selects(d, DescendantOrSelf, TypeNode, x, x) && Selects(d, axis, test, x, z);
    }
  }

  lemma ChildWitness(d: Doc, test: NodeTest, x: XNode, z: XNode)
    requires d.Valid() && Selects(d, Descendant, test, x, z)
    ensures z.N? && 0 < z.i < d.Size()
    ensures Selects(d, DescendantOrSelf, TypeNode, x, N(d.parent[z.i])) && Selects(d, Child, test, N(d.parent[z.i]), z)
  {
    assert x.N? && z.N?;
    assert x.i <= d.parent[z.i];
  }

  // ----- the five-way partition of a document around a node (section 2.2 of XPath 1.0)

  /** Ancestor, descendant, following, preceding and self meet every tree node exactly once. */
  lemma AxesPartition(d: Doc, i: nat, j: nat)
    requires d.Valid() && i < d.Size() && j < d.Size()
    ensures multiset{
              Reaches(d, Ancestor, i, j), Reaches(d, Descendant, i, j), Reaches(d, Following, i, j),
              Reaches(d, Preceding, i, j), Reaches(d, Self, i, j)}[true] == 1
  {
    if i < j && d.end[i] <= j && j < d.Size() {
      assert d.end[i] <= j;
    }
  }
}
