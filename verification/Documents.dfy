/** A finite XML document. Nodes are numbered in document order, so the subtree of node i is
    the interval [i, end[i]); parent, first child and sibling links follow from it. */
module Documents {
  import opened Sequences

  datatype NodeKind = Document | Element | PcData | CData | Comment | Instruction | Declaration | Doctype

  datatype Attr = Attr(name: string, value: string)

  datatype Doc = Doc(
    parent: seq<int>,
    end: seq<int>,
    kind: seq<NodeKind>,
    name: seq<string>,
    value: seq<string>,
    attrs: seq<seq<Attr>>)
  {
    function Size(): nat { |parent| }

    ghost predicate Valid() {
      && Size() > 0
      && |end| == |kind| == |name| == |value| == |attrs| == Size()
      && parent[0] == -1 && end[0] == Size()
      && (forall j :: 0 < j < Size() ==> 0 <= parent[j] < j)
      && (forall j :: 0 <= j < Size() ==> j < end[j] <= Size())
      && (forall j :: 0 < j < Size() ==> j < end[parent[j]])
      // subtrees nest: a member of i's subtree has its parent and its own subtree inside it
      && (forall i, j {:trigger end[i], parent[j]} {:trigger end[i], end[j]} ::
            0 <= i < j < Size() && j < end[i] ==> i <= parent[j] && end[j] <= end[i])
    }
  }

  /** What validity says of one node at a time. */
  lemma Bounds(d: Doc)
    requires d.Valid()
    ensures 0 < d.Size() == |d.end| == |d.kind| == |d.name| == |d.value| == |d.attrs| && d.parent[0] == -1
    ensures forall j :: 0 < j < d.Size() ==> 0 <= d.parent[j] < j
    ensures forall j :: 0 <= j < d.Size() ==> j < d.end[j] <= d.Size()
  {
  }

  /** An XPath node: a tree node, an attribute of one, or the null node. */
  datatype XNode = Null | N(i: nat) | A(i: nat, k: nat)
  {
    function Owner(): int { if Null? then -1 else i }
    function Slot(): int { if A? then k else -1 }
  }

  predicate InDoc(d: Doc, x: XNode) {
    match x
    case Null => false
    case N(i) => i < d.Size()
    case A(i, k) => i < d.Size() && i < |d.attrs| && k < |d.attrs[i]|
  }

  /** Document order: an element, then its attributes, then its children. */
  predicate Before(a: XNode, b: XNode) {
    a.Owner() < b.Owner() || (a.Owner() == b.Owner() && a.Slot() < b.Slot())
  }

  /** What the comparator answers: document order, and an attribute before itself. */
  predicate Compares(a: XNode, b: XNode) {
    Before(a, b) || (a == b && a.A?)
  }

  ghost predicate Ascending(s: seq<XNode>) {
    forall i, j :: 0 <= i < j < |s| ==> Before(s[i], s[j])
  }

  ghost predicate Descending(s: seq<XNode>) {
    forall i, j :: 0 <= i < j < |s| ==> Before(s[j], s[i])
  }

  /** j lies strictly below i. */
  predicate Below(d: Doc, i: int, j: int)
    requires 0 <= i < |d.end|
  {
    i < j < d.end[i]
  }

  /** Subtrees nest. */
  lemma Nests(d: Doc, i: nat, j: nat)
    requires d.Valid() && i < d.Size() && j < d.Size() && Below(d, i, j)
    ensures i <= d.parent[j] < j < d.end[d.parent[j]] && d.end[j] <= d.end[i] && d.end[d.parent[j]] <= d.end[i]
    ensures d.parent[j] == i || Below(d, i, d.parent[j])
  {
    assert i < d.parent[j] ==> d.end[d.parent[j]] <= d.end[i];
  }

  lemma InParent(d: Doc, j: nat)
    requires d.Valid() && 0 < j < d.Size()
    ensures 0 <= d.parent[j] < d.Size() && Below(d, d.parent[j], j)
  {
  }

  // ----- every node of a document, in document order

  function AttributesOf(i: nat, count: nat): seq<XNode> {
    if count == 0 then [] else AttributesOf(i, count - 1) + [A(i, count - 1)]
  }

  function NodesBelow(d: Doc, n: nat): seq<XNode>
    requires n <= |d.attrs|
  {
    if n == 0 then []
    else NodesBelow(d, n - 1) + [N(n - 1)] + AttributesOf(n - 1, |d.attrs[n - 1]|)
  }

  function AllNodes(d: Doc): seq<XNode> {
    NodesBelow(d, |d.attrs|)
  }

  lemma {:induction false} AttributesAscend(i: nat, count: nat)
    ensures |AttributesOf(i, count)| == count
    ensures forall k :: 0 <= k < count ==> AttributesOf(i, count)[k] == A(i, k)
  {
    if count > 0 {
      AttributesAscend(i, count - 1);
    }
  }

  lemma JoinAscending(s: seq<XNode>, n: nat, count: nat)
    requires Ascending(s) && forall x :: x in s ==> x.Owner() < n
    ensures Ascending(s + [N(n)] + AttributesOf(n, count))
  {
    AttributesAscend(n, count);
    hide AttributesOf;
  }

  lemma AttributesMember(n: nat, count: nat, x: XNode)
    ensures x in AttributesOf(n, count) <==> x.A? && x.i == n && x.k < count
  {
    AttributesAscend(n, count);
    hide AttributesOf;
    if x.A? && x.i == n && x.k < count {
      assert AttributesOf(n, count)[x.k] == x;
    }
  }

  lemma {:induction false} NodesBelowComplete(d: Doc, n: nat)
    requires d.Valid() && n <= d.Size()
    ensures Ascending(NodesBelow(d, n))
    ensures forall x :: x in NodesBelow(d, n) <==> InDoc(d, x) && x.Owner() < n
  {
    hide AttributesOf, Ascending;
    AscendingNothing();
    if n > 0 {
      NodesBelowComplete(d, n - 1);
      var c := |d.attrs[n - 1]|;
      JoinAscending(NodesBelow(d, n - 1), n - 1, c);
      forall x
        ensures x in NodesBelow(d, n) <==> InDoc(d, x) && x.Owner() < n
      {
        AttributesMember(n - 1, c, x);
      }
    }
  }

  lemma AscendingNothing()
    ensures Ascending([])
  {
  }

  lemma AllNodesComplete(d: Doc)
    requires d.Valid()
    ensures Ascending(AllNodes(d))
    ensures forall x :: x in AllNodes(d) <==> InDoc(d, x)
  {
    NodesBelowComplete(d, d.Size());
  }

  // ----- a set of nodes has one document-order listing

  /** The nodes of S in document order. */
  function Listing(d: Doc, S: set<XNode>): seq<XNode> {
    Filter(AllNodes(d), x => x in S)
  }

  lemma AscendingNoDup(s: seq<XNode>)
    requires Ascending(s) || Descending(s)
    ensures NoDup(s)
  {
  }

  lemma FilterAscending(s: seq<XNode>, p: XNode -> bool)
    requires Ascending(s)
    ensures Ascending(Filter(s, p))
    ensures Elems(Filter(s, p)) == set x | x in s && p(x)
  {
    FilterPairwise(s, p, Before);
    forall x ensures x in Filter(s, p) <==> x in s && p(x) {
      FilterMember(s, p, x);
    }
  }

  lemma ListingSorted(d: Doc, S: set<XNode>)
    requires d.Valid()
    ensures Ascending(Listing(d, S))
    ensures forall x :: x in Listing(d, S) <==> x in S && InDoc(d, x)
    ensures (forall x :: x in S ==> InDoc(d, x)) ==> Elems(Listing(d, S)) == S
  {
    AllNodesComplete(d);
    FilterAscending(AllNodes(d), x => x in S);
    forall x ensures x in Listing(d, S) <==> x in S && InDoc(d, x) {
      FilterMember(AllNodes(d), x => x in S, x);
    }
  }

  /** An ascending sequence is determined by its elements. */
  lemma {:induction false} AscendingUnique(s: seq<XNode>, t: seq<XNode>)
    requires Ascending(s) && Ascending(t)
    requires Elems(s) == Elems(t)
    ensures s == t
    decreases |s|
  {
    if s == [] {
      ElemsEmpty(t);
    } else {
      assert s[0] in Elems(t);
      assert t != [];
      var a, b := s[|s| - 1], t[|t| - 1];
      assert a in Elems(t) && b in Elems(s);
      assert a == b;
      var s', t' := s[..|s| - 1], t[..|t| - 1];
      forall x ensures x in Elems(s') <==> x in Elems(t') {
        if x in s' {
          var i :| 0 <= i < |s'| && s'[i] == x;
          assert Before(s[i], a) && x in Elems(t);
        }
        if x in t' {
          var i :| 0 <= i < |t'| && t'[i] == x;
          assert Before(t[i], b) && x in Elems(s);
        }
      }
      AscendingUnique(s', t');
    }
  }

  lemma ListingUnique(d: Doc, s: seq<XNode>)
    requires d.Valid() && Ascending(s)
    requires forall x :: x in s ==> InDoc(d, x)
    ensures s == Listing(d, Elems(s))
  {
    ListingSorted(d, Elems(s));
    AscendingUnique(s, Listing(d, Elems(s)));
  }

  lemma DescendingReverse(s: seq<XNode>)
    ensures Descending(s) <==> Ascending(Reverse(s))
    ensures Ascending(s) <==> Descending(Reverse(s))
  {
    var r := Reverse(s);
    forall i, j | 0 <= i < j < |s|
      ensures s[i] == r[|s| - 1 - i] && s[j] == r[|s| - 1 - j]
    {
    }
    if Ascending(r) {
      forall i, j | 0 <= i < j < |s| ensures Before(s[j], s[i]) {
        assert Before(r[|s| - 1 - j], r[|s| - 1 - i]);
      }
    }
    if Descending(r) {
      forall i, j | 0 <= i < j < |s| ensures Before(s[i], s[j]) {
        assert Before(r[|s| - 1 - i], r[|s| - 1 - j]);
      }
    }
  }
}
