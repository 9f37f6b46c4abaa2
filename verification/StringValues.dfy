/** String-values: the text below a node, by the language's definition and by walking the links. */
module StringValues {
  import opened Documents
  import opened Axes
  import opened Walkers
  import opened StepFill
  import opened XPathMeaning

  function ValueOf(d: Doc, x: XNode): string {
    if x.N? && x.i < |d.value| then d.value[x.i] else ""
  }

  /** The values of the nodes, one after the other. */
  function Joined(d: Doc, s: seq<XNode>): string {
    if s == [] then "" else ValueOf(d, s[0]) + Joined(d, s[1..])
  }

  /** The text nodes numbered from i to j. */
  function Texts(d: Doc, i: nat, j: nat): seq<XNode>
    requires j <= |d.kind|
    decreases j - i
  {
    if i >= j then [] else OneIf(N(i), d.kind[i] == NodeKind.PcData || d.kind[i] == NodeKind.CData) + Texts(d, i + 1, j)
  }

  lemma {:induction false} TextsMembers(d: Doc, i: nat, j: nat)
    requires j <= |d.kind|
    ensures Ascending(Texts(d, i, j))
    ensures forall y :: y in Texts(d, i, j) <==>
              y.N? && i <= y.i < j && (d.kind[y.i] == NodeKind.PcData || d.kind[y.i] == NodeKind.CData)
    decreases j - i
  {
    if i < j {
      TextsMembers(d, i + 1, j);
    }
  }

  lemma {:induction false} TextsJoined(d: Doc, i: nat, j: nat)
    requires |d.kind| == |d.value| && j <= |d.kind|
    ensures Joined(d, Texts(d, i, j)) == TextBetween(d, i, j)
    decreases j - i
  {
    if i < j {
      TextsJoined(d, i + 1, j);
      var rest := Texts(d, i + 1, j);
      assert ([N(i)] + rest)[1..] == rest && [] + rest == rest;
    }
  }

  /** The string-value of an element or a document is the text of its descendants in document order; of text, comments
      and instructions their value; of an attribute its value; of anything else nothing. */
  lemma StringValueLaw(d: Doc, i: nat)
    requires d.Valid() && i < d.Size()
    ensures |d.kind| == |d.value| == |d.attrs| == d.Size()
    ensures d.kind[i] == NodeKind.Element || d.kind[i] == NodeKind.Document ==>
              StringValue(d, N(i)) == Joined(d, StepNodes(d, Descendant, TypeText, N(i)))
    ensures d.kind[i] in {NodeKind.PcData, NodeKind.CData, NodeKind.Comment, NodeKind.Instruction} ==> StringValue(d, N(i)) == d.value[i]
    ensures d.kind[i] in {NodeKind.Declaration, NodeKind.Doctype} ==> StringValue(d, N(i)) == ""
    ensures forall k :: 0 <= k < |d.attrs[i]| ==> StringValue(d, A(i, k)) == d.attrs[i][k].value
  {
    hide StepNodes, Doc.Valid, Joined, Texts, TextBetween;
    Bounds(d);
    StepNodesOrdered(d, Descendant, TypeText, N(i));
    TextsMembers(d, i + 1, d.end[i]);
    TextsJoined(d, i + 1, d.end[i]);
    forall y ensures y in StepNodes(d, Descendant, TypeText, N(i)) <==> y in Texts(d, i + 1, d.end[i]) {
    }
    SameWalk(StepNodes(d, Descendant, TypeText, N(i)), Texts(d, i + 1, d.end[i]));
  }

  lemma {:induction false} TextMore(d: Doc, i: nat, j: nat)
    requires |d.kind| == |d.value| && i <= j < |d.kind|
    ensures TextBetween(d, i, j + 1) ==
            TextBetween(d, i, j) + if d.kind[j] == NodeKind.PcData || d.kind[j] == NodeKind.CData then d.value[j] else ""
    decreases j - i
  {
    if i < j {
      TextMore(d, i + 1, j);
    }
  }

  lemma NoText(d: Doc, i: nat)
    requires |d.kind| == |d.value| && i <= |d.kind|
    ensures TextBetween(d, i, i) == ""
  {
  }

  /** Collecting the text below a node by its links. */
  method CollectText(d: Doc, i: nat) returns (result: string)
    requires d.Valid() && i < d.Size()
    ensures |d.kind| == |d.value| == d.Size() && d.end[i] <= d.Size()
    ensures result == TextBetween(d, i + 1, d.end[i])
  {
    hide Doc.Valid, TextBetween;
    Bounds(d);
    result := "";
    NoText(d, i + 1);
    var cur := FirstChild(d, i);
    FirstChildLink(d, i);
    while cur != NoNode
      invariant cur == NoNode || (0 <= cur < d.Size() && Below(d, i, cur))
      invariant result == TextBetween(d, i + 1, if cur == NoNode then d.end[i] else cur)
      decreases if cur == NoNode then 0 else d.Size() - cur
    {
      TextMore(d, i + 1, cur);
      if d.kind[cur] == NodeKind.PcData || d.kind[cur] == NodeKind.CData {
        result := result + d.value[cur];
      }
      Nests(d, i, cur);
      FirstChildLink(d, cur);
      if FirstChild(d, cur) != NoNode {
        cur := FirstChild(d, cur);
      } else {
        var ok, next := Climb(d, cur, i);
        cur := if ok then next else NoNode;
      }
    }
  }

  method StringValueOf(d: Doc, x: XNode) returns (s: string)
    requires d.Valid() && (x == Null || InDoc(d, x))
    ensures s == StringValue(d, x)
  {
    hide Doc.Valid, TextBetween;
    Bounds(d);
    s := "";
    match x {
      case A(i, k) => s := d.attrs[i][k].value;
      case N(i) =>
        match d.kind[i] {
          case PcData => s := d.value[i];
          case CData => s := d.value[i];
          case Comment => s := d.value[i];
          case Instruction => s := d.value[i];
          case Document => s := CollectText(d, i);
          case Element => s := CollectText(d, i);
          case _ =>
        }
      case Null =>
    }
  }
}
