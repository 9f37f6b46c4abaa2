/** Document nodes with their parent and sibling links, edited in place. */
module Dom {
  import opened Sequences

  datatype Kind = Null | Document_ | Element | Pcdata | Cdata | Comment | Pi | Declaration | Doctype

  class Node {
    const kind: Kind
    /** The allocator of the document the node was made in. */
    const owner: object
    var parent: Node?
    var firstChild: Node?
    var prevSiblingC: Node?
    var nextSibling: Node?

    constructor (kind: Kind, owner: object)
      ensures this.kind == kind && this.owner == owner
      ensures parent == null && firstChild == null && prevSiblingC == null && nextSibling == null
    {
      this.kind := kind;
      this.owner := owner;
      parent, firstChild, prevSiblingC, nextSibling := null, null, null, null;
    }
  }

  function Nth(s: seq<Node>, i: int): Node? {
    if 0 <= i < |s| then s[i] else null
  }

  /** Position before i, where before the first comes the last. */
  function Back(n: int, i: int): int {
    if i == 0 then n - 1 else i - 1
  }

  ghost predicate Encodes(p: Node, s: seq<Node>)
    reads p, s
  {
    p.firstChild == Nth(s, 0) && forall i :: 0 <= i < |s| ==> LinkedAt(p, s, i)
  }

  /** The first child's back link is the last child, the last child's forward link is null. */
  ghost predicate LinkedAt(p: Node, s: seq<Node>, i: nat)
    requires i < |s|
    reads s
  {
    s[i].parent == p && s[i].nextSibling == Nth(s, i + 1) && s[i].prevSiblingC == s[Back(|s|, i)]
  }

  lemma Neighbours(p: Node, s: seq<Node>, k: nat)
    requires Encodes(p, s) && NoDup(s) && k < |s|
    ensures LinkedAt(p, s, k) && LinkedAt(p, s, Back(|s|, k)) && LinkedAt(p, s, 0)
    ensures k + 1 < |s| ==> LinkedAt(p, s, k + 1)
    ensures forall j :: 0 <= j < |s| && s[j] == s[k] ==> j == k
    ensures forall j :: 0 <= j < |s| && s[j] == s[Back(|s|, k)] ==> j == Back(|s|, k)
    ensures forall j :: 0 <= j < |s| && s[j] == s[0] ==> j == 0
    ensures k + 1 < |s| ==> forall j :: 0 <= j < |s| && s[j] == s[k + 1] ==> j == k + 1
  {
    Only(s, k);
    Only(s, Back(|s|, k));
    Only(s, 0);
    if k + 1 < |s| {
      Only(s, k + 1);
    }
  }

  /** The links of s once x has been put in at position i. */
  ghost predicate Spliced(p: Node, s: seq<Node>, i: nat, x: Node)
    requires i <= |s|
    reads p, s, x
  {
    && p.firstChild == (if i == 0 then x else Nth(s, 0))
    && x.parent == p && x.nextSibling == Nth(s, i)
    && x.prevSiblingC == (if s == [] then x else s[Back(|s|, i)])
    && forall j :: 0 <= j < |s| ==> SplicedAt(p, s, i, x, j)
  }

  ghost predicate SplicedAt(p: Node, s: seq<Node>, i: nat, x: Node, j: nat)
    requires i <= |s| && j < |s|
    reads s
  {
    && s[j].parent == p
    && s[j].nextSibling == (if j + 1 == i then x else Nth(s, j + 1))
    && s[j].prevSiblingC == (if j == i || (j == 0 && i == |s|) then x else s[Back(|s|, j)])
  }

  lemma SplicedEncodes(p: Node, s: seq<Node>, i: nat, x: Node)
    requires i <= |s| && Spliced(p, s, i, x)
    ensures Encodes(p, With(s, i, x))
  {
    var r := With(s, i, x);
    WithAt(s, i, x);
    hide With;
    forall j | 0 <= j < |r|
      ensures LinkedAt(p, r, j)
    {
      if j < i {
        assert SplicedAt(p, s, i, x, j);
      } else if j > i {
        assert SplicedAt(p, s, i, x, j - 1);
      }
    }
  }

  /** The links of s once the node at position k has been taken out. */
  ghost predicate Unlinked(p: Node, s: seq<Node>, k: nat)
    requires k < |s|
    reads p, s
  {
    && p.firstChild == (if k == 0 then Nth(s, 1) else s[0])
    && forall j :: 0 <= j < |s| && j != k ==> UnlinkedAt(p, s, k, j)
  }

  ghost predicate UnlinkedAt(p: Node, s: seq<Node>, k: nat, j: nat)
    requires k < |s| && j < |s|
    reads s
  {
    && s[j].parent == p
    && s[j].nextSibling == Nth(s, if j + 1 == k then k + 1 else j + 1)
    && s[j].prevSiblingC == s[if j == k + 1 || (j == 0 && k == |s| - 1) then Back(|s|, k) else Back(|s|, j)]
  }

  lemma UnlinkedEncodes(p: Node, s: seq<Node>, k: nat)
    requires k < |s| && Unlinked(p, s, k)
    ensures Encodes(p, Without(s, k))
  {
    var r := Without(s, k);
    WithoutAt(s, k);
    hide Without;
    forall j | 0 <= j < |r|
      ensures LinkedAt(p, r, j)
    {
      assert UnlinkedAt(p, s, k, if j < k then j else j + 1);
    }
  }

  // ----- link edits; s is the child sequence the links encode before the edit

  method AppendNode(child: Node, node: Node, ghost s: seq<Node>)
    requires Encodes(node, s) && NoDup(s) && child !in s && child.nextSibling == null
    modifies child`parent, child`prevSiblingC, node`firstChild
    modifies (set x | x in s)`prevSiblingC, (set x | x in s)`nextSibling
    ensures Encodes(node, With(s, |s|, child))
  {
    child.parent := node;
    var head := node.firstChild;
    if head != null {
      assert LinkedAt(node, s, 0);
      var tail := head.prevSiblingC;
      tail.nextSibling := child;
      child.prevSiblingC := tail;
      head.prevSiblingC := child;
    } else {
      node.firstChild := child;
      child.prevSiblingC := child;
    }
    forall j | 0 <= j < |s|
      ensures SplicedAt(node, s, |s|, child, j)
    {
      assert old(LinkedAt(node, s, j));
    }
    SplicedEncodes(node, s, |s|, child);
  }

  method PrependNode(child: Node, node: Node, ghost s: seq<Node>)
    requires Encodes(node, s) && NoDup(s) && child !in s
    modifies child`parent, child`prevSiblingC, child`nextSibling, node`firstChild
    modifies (set x | x in s)`prevSiblingC
    ensures Encodes(node, With(s, 0, child))
  {
    child.parent := node;
    var head := node.firstChild;
    if head != null {
      assert LinkedAt(node, s, 0);
      child.prevSiblingC := head.prevSiblingC;
      head.prevSiblingC := child;
    } else {
      child.prevSiblingC := child;
    }
    child.nextSibling := head;
    node.firstChild := child;
    forall j | 0 <= j < |s|
      ensures SplicedAt(node, s, 0, child, j)
    {
      assert old(LinkedAt(node, s, j));
    }
    SplicedEncodes(node, s, 0, child);
  }

  method InsertNodeAfter(child: Node, node: Node, ghost p: Node, ghost s: seq<Node>, ghost k: nat)
    requires Encodes(p, s) && NoDup(s) && child !in s && k < |s| && s[k] == node
    modifies child`parent, child`prevSiblingC, child`nextSibling
    modifies (set x | x in s)`prevSiblingC, (set x | x in s)`nextSibling
    ensures Encodes(p, With(s, k + 1, child))
  {
    Neighbours(p, s, k);
    hide NoDup;
    var parent := node.parent;
    child.parent := parent;
    if node.nextSibling != null {
      node.nextSibling.prevSiblingC := child;
    } else {
      parent.firstChild.prevSiblingC := child;
    }
    child.nextSibling := node.nextSibling;
    child.prevSiblingC := node;
    node.nextSibling := child;
    ghost var at := k + 1;
    forall j | 0 <= j < |s|
      ensures SplicedAt(p, s, at, child, j)
    {
      assert old(LinkedAt(p, s, j));
    }
    SplicedEncodes(p, s, at, child);
  }

  method InsertNodeBefore(child: Node, node: Node, ghost p: Node, ghost s: seq<Node>, ghost k: nat)
    requires Encodes(p, s) && NoDup(s) && child !in s && k < |s| && s[k] == node
    modifies child`parent, child`prevSiblingC, child`nextSibling, p`firstChild
    modifies (set x | x in s)`prevSiblingC, (set x | x in s)`nextSibling
    ensures Encodes(p, With(s, k, child))
  {
    Neighbours(p, s, k);
    hide NoDup;
    var parent := node.parent;
    child.parent := parent;
    if node.prevSiblingC.nextSibling != null {
      node.prevSiblingC.nextSibling := child;
    } else {
      parent.firstChild := child;
    }
    child.prevSiblingC := node.prevSiblingC;
    child.nextSibling := node;
    node.prevSiblingC := child;
    forall j | 0 <= j < |s|
      ensures SplicedAt(p, s, k, child, j)
    {
      assert old(LinkedAt(p, s, j));
    }
    SplicedEncodes(p, s, k, child);
  }

  method RemoveNode(node: Node, ghost p: Node, ghost s: seq<Node>, ghost k: nat)
    requires Encodes(p, s) && NoDup(s) && k < |s| && s[k] == node
    modifies node`parent, p`firstChild
    modifies (set x | x in s)`prevSiblingC, (set x | x in s)`nextSibling
    ensures Encodes(p, Without(s, k))
    ensures node.parent == null && node.prevSiblingC == null && node.nextSibling == null
  {
    Neighbours(p, s, k);
    hide NoDup;
    var parent := node.parent;
    if node.nextSibling != null {
      node.nextSibling.prevSiblingC := node.prevSiblingC;
    } else {
      parent.firstChild.prevSiblingC := node.prevSiblingC;
    }
    if node.prevSiblingC.nextSibling != null {
      node.prevSiblingC.nextSibling := node.nextSibling;
    } else {
      parent.firstChild := node.nextSibling;
    }
    node.parent := null;
    node.prevSiblingC := null;
    node.nextSibling := null;
    forall j | 0 <= j < |s| && j != k
      ensures UnlinkedAt(p, s, k, j)
    {
      assert old(LinkedAt(p, s, j));
    }
    UnlinkedEncodes(p, s, k);
  }

}
