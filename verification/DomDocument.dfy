/** A document: its nodes, and the edits a caller may make. */
module DomDocument {
  import opened Sequences
  import opened DomTree
  import opened Dom

  class Allocator {
    constructor () {}
  }

  ghost predicate Apart(kids: map<Node, seq<Node>>, p: Node)
    requires p in kids
  {
    forall q, x :: q in kids && q != p && x in kids[q] ==> x !in kids[p]
  }

  /** Different parents share no child. */
  lemma ListsApart(t: Tree<Node>, tops: set<Node>, p: Node)
    requires Forest(t, tops) && p in t.kids
    ensures Apart(t.kids, p)
    ensures forall x :: x in t.kids[p] ==> x !in tops && x in t.kids
    ensures NoDup(t.kids[p]) && tops <= t.kids.Keys
  {
    forall x | x in t.kids[p]
      ensures x !in tops && x in t.kids
    {
      assert x in t.up && x in t.up.Keys;
    }
    forall q, x | q in t.kids && q != p && x in t.kids[q]
      ensures x !in t.kids[p]
    {
      assert x in t.up && x in t.up.Keys;
    }
  }

  lemma WithoutInside(s: seq<Node>, k: nat)
    requires k < |s|
    ensures forall x :: x in Without(s, k) ==> x in s
  {
  }

  lemma WithInside(s: seq<Node>, i: nat, y: Node)
    requires i <= |s|
    ensures forall x :: x in With(s, i, y) ==> x in s || x == y
  {
  }

  lemma DetachKids(t: Tree<Node>, x: Node)
    requires x in t.up && t.up[x] in t.kids && x in t.kids[t.up[x]]
    ensures Detach(t, x).kids == t.kids[t.up[x] := Without(t.kids[t.up[x]], Place(t.kids[t.up[x]], x))]
  {
  }

  lemma AttachKids(t: Tree<Node>, tops: set<Node>, x: Node, p: Node, i: nat)
    requires Forest(t, tops) && p in t.kids && i <= |t.kids[p]|
    ensures Attach(t, tops, x, p, i).kids == t.kids[p := With(t.kids[p], i, x)]
  {
  }

  lemma ChildPlace(t: Tree<Node>, tops: set<Node>, x: Node)
    requires Forest(t, tops) && x in t.up
    ensures t.up[x] in t.kids && x in t.kids[t.up[x]] && NoDup(t.kids[t.up[x]]) && x in t.kids && x !in tops
  {
    assert x in t.up.Keys;
  }

  ghost predicate Roots(tops: set<Node>)
    reads tops
  {
    forall x :: x in tops ==> x.parent == null && x.nextSibling == null
  }

  ghost predicate AllEncoded(kids: map<Node, seq<Node>>)
    reads kids.Keys
  {
    forall p :: p in kids ==> (forall x :: x in kids[p] ==> x in kids) && Encodes(p, kids[p])
  }

  function TypeOf(n: Node?): Kind {
    if n == null then Null else n.kind
  }

  predicate AllowInsertChild(parent: Kind, child: Kind) {
    if parent != Document_ && parent != Element then false
    else if child == Document_ || child == Null then false
    else !(parent != Document_ && (child == Declaration || child == Doctype))
  }

  /** Who may hold whom: documents and elements hold children, a document is nobody's child, and declarations and
      document types stand directly below the document. */
  predicate MayHold(parent: Kind, child: Kind) {
    && parent in {Document_, Element}
    && child in {Element, Pcdata, Cdata, Comment, Pi, Declaration, Doctype}
    && (child in {Declaration, Doctype} ==> parent == Document_)
  }

  lemma AllowedIsHeld(parent: Kind, child: Kind)
    ensures AllowInsertChild(parent, child) <==> MayHold(parent, child)
  {
  }

  /** Every node stands where its kind may stand. */
  ghost predicate Placed(t: Tree<Node>) {
    forall x :: x in t.up ==> MayHold(t.up[x].kind, x.kind)
  }

  lemma DetachPlaced(t: Tree<Node>, x: Node)
    requires Placed(t) && x in t.up && t.up[x] in t.kids && x in t.kids[t.up[x]]
    ensures Placed(Detach(t, x))
  {
    hide MayHold;
  }

  lemma AttachPlaced(t: Tree<Node>, tops: set<Node>, x: Node, p: Node, i: nat)
    requires Forest(t, tops) && p in t.kids && i <= |t.kids[p]| && Placed(t) && MayHold(p.kind, x.kind)
    ensures Placed(Attach(t, tops, x, p, i))
  {
    hide MayHold, Forest, Below, Raised, With;
  }

  lemma DropPlaced(t: Tree<Node>, tops: set<Node>, x: Node)
    requires Forest(t, tops) && Placed(t)
    ensures Placed(Drop(t, tops, x))
  {
    hide MayHold, Forest, Subtree;
  }

  /** Where a node goes among its new siblings. */
  datatype Spot = First | Last | After(node: Node) | Before(node: Node)

  predicate Sits(spot: Spot, s: seq<Node>) {
    (spot.After? || spot.Before?) ==> spot.node in s
  }

  ghost function Position(spot: Spot, s: seq<Node>): (i: nat)
    requires Sits(spot, s)
    ensures i <= |s|
  {
    match spot
    case First => 0
    case Last => |s|
    case After(node) => Place(s, node) + 1
    case Before(node) => Place(s, node)
  }

  method PutAt(x: Node, p: Node, spot: Spot, ghost s: seq<Node>)
    requires Encodes(p, s) && NoDup(s) && x !in s && Sits(spot, s) && x.nextSibling == null
    modifies x`parent, x`prevSiblingC, x`nextSibling, p`firstChild
    modifies (set y | y in s)`prevSiblingC, (set y | y in s)`nextSibling
    ensures Encodes(p, With(s, Position(spot, s), x))
  {
    hide Encodes, NoDup, With;
    match spot {
      case First => PrependNode(x, p, s);
      case Last => AppendNode(x, p, s);
      case After(node) => InsertNodeAfter(x, node, p, s, Place(s, node));
      case Before(node) => InsertNodeBefore(x, node, p, s, Place(s, node));
    }
  }

  /** RemoveNode, seen by all the child lists. */
  method TakeOut(x: Node, ghost p: Node, ghost kids: map<Node, seq<Node>>, ghost k: nat)
    requires AllEncoded(kids) && p in kids && NoDup(kids[p]) && Apart(kids, p) && k < |kids[p]| && kids[p][k] == x
    modifies x`parent, p`firstChild
    modifies (set y | y in kids[p])`prevSiblingC, (set y | y in kids[p])`nextSibling
    ensures AllEncoded(kids[p := Without(kids[p], k)])
    ensures x.parent == null && x.prevSiblingC == null && x.nextSibling == null
  {
    hide NoDup, Without;
    RemoveNode(x, p, kids[p], k);
    WithoutInside(kids[p], k);
    forall q | q in kids && q != p
      ensures Encodes(q, kids[q])
    {
      forall i | 0 <= i < |kids[q]|
        ensures LinkedAt(q, kids[q], i)
      {
        assert kids[q][i] in kids[q];
        assert old(LinkedAt(q, kids[q], i));
      }
    }
  }

  /** PutAt, seen by all the child lists. */
  method PutIn(x: Node, p: Node, spot: Spot, ghost kids: map<Node, seq<Node>>)
    requires AllEncoded(kids) && p in kids && x in kids && NoDup(kids[p]) && Apart(kids, p) && Sits(spot, kids[p])
    requires x.nextSibling == null && forall q :: q in kids ==> x !in kids[q]
    modifies x`parent, x`prevSiblingC, x`nextSibling, p`firstChild
    modifies (set y | y in kids[p])`prevSiblingC, (set y | y in kids[p])`nextSibling
    ensures AllEncoded(kids[p := With(kids[p], Position(spot, kids[p]), x)])
  {
    hide NoDup, With, Position, Sits;
    PutAt(x, p, spot, kids[p]);
    WithInside(kids[p], Position(spot, kids[p]), x);
    forall q | q in kids && q != p
      ensures Encodes(q, kids[q])
    {
      forall i | 0 <= i < |kids[q]|
        ensures LinkedAt(q, kids[q], i)
      {
        assert kids[q][i] in kids[q];
        assert old(LinkedAt(q, kids[q], i));
      }
    }
  }

  lemma TopsNoChild(t: Tree<Node>, tops: set<Node>, x: Node)
    requires Forest(t, tops) && x in tops
    ensures x in t.kids && forall q :: q in t.kids ==> x !in t.kids[q]
  {
    assert x in t.up <==> x in t.up.Keys;
  }

  class Document {
    const allocator: Allocator
    const root: Node
    ghost var tree: Tree<Node>

    ghost predicate Linked(tops: set<Node>)
      reads this, tree.kids.Keys
    {
      && Forest(tree, tops) && Placed(tree) && root in tops && AllEncoded(tree.kids) && Roots(tops) && root.prevSiblingC == root
      && forall x :: x in tree.kids ==> x.owner == allocator && x.kind != Null && (x.kind.Document_? <==> x == root)
    }

    /** One tree below the document node, faithfully linked. */
    ghost predicate Valid()
      reads this, tree.kids.Keys
    {
      Linked({root})
    }

    constructor ()
      ensures Valid() && fresh(allocator) && fresh(root) && tree.kids == map[root := []]
    {
      var arena := new Allocator();
      var top := new Node(Document_, arena);
      top.prevSiblingC := top;
      allocator, root := arena, top;
      var kids: map<Node, seq<Node>> := map[top := []];
      tree := Tree<Node>.Tree(kids, map[], map[top := 0]);
    }

    method Unlink(x: Node, ghost tops: set<Node>)
      requires Linked(tops) && x in tree.up
      modifies this`tree, tree.kids.Keys
      ensures tree == Detach(old(tree), x) && Linked(tops + {x}) && tree.kids.Keys == old(tree.kids.Keys)
      ensures x.parent == null && x.prevSiblingC == null && x.nextSibling == null
    {
      hide Forest, NoDup, Detach, Without, AllEncoded, Apart, Placed;
      ChildPlace(tree, tops, x);
      DetachPlaced(tree, x);
      DetachKids(tree, x);
      ghost var p := tree.up[x];
      ghost var s := tree.kids[p];
      ghost var k := Place(s, x);
      ghost var kids := tree.kids;
      DetachForest(tree, tops, x);
      ListsApart(tree, tops, p);
      TakeOut(x, p, kids, k);
      tree := Detach(tree, x);
      assert tree.kids == kids[p := Without(s, k)];
      assert Roots(tops + {x});
    }

    method Link(x: Node, p: Node, spot: Spot, ghost tops: set<Node>)
      requires Linked(tops) && x in tops && x != root && p in tree.kids && !Below(tree, tops, p, x)
      requires Sits(spot, tree.kids[p]) && MayHold(p.kind, x.kind)
      modifies this`tree, tree.kids.Keys
      ensures tree == Attach(old(tree), tops, x, p, Position(spot, old(tree).kids[p])) && Linked(tops - {x})
    {
      hide Forest, NoDup, Below, Position, With, Attach, Sits, AllEncoded, Apart, Placed, MayHold;
      ghost var kids := tree.kids;
      ghost var s := kids[p];
      ghost var i := Position(spot, s);
      AttachKids(tree, tops, x, p, i);
      ListsApart(tree, tops, p);
      TopsNoChild(tree, tops, x);
      AttachForest(tree, tops, x, p, i);
      AttachPlaced(tree, tops, x, p, i);
      PutIn(x, p, spot, kids);
      tree := Attach(tree, tops, x, p, i);
      assert tree.kids == kids[p := With(s, i, x)];
      assert Roots(tops - {x});
    }

    // ----- moves

    /** Nothing moves across documents, under itself, or where its kind may not stand. */
    ghost predicate MayMove(self: Node?, moved: Node?)
      requires Valid() && (self != null ==> self in tree.kids)
      reads this, tree.kids.Keys
    {
      && self != null && moved != null && MayHold(self.kind, moved.kind)
      && self.owner == moved.owner && !Below(tree, {root}, self, moved)
    }

    /** A handle is null, foreign, or one of this document's nodes. */
    ghost predicate Known(x: Node?)
      reads this
    {
      x == null || x.owner != allocator || x in tree.kids
    }

    method AllowMove(parent: Node?, child: Node?) returns (ok: bool)
      requires Valid() && (parent != null ==> parent in tree.kids) && Known(child)
      ensures ok <==> MayMove(parent, child)
      ensures ok ==> child in tree.up
    {
      AllowedIsHeld(TypeOf(parent), TypeOf(child));
      if !AllowInsertChild(TypeOf(parent), TypeOf(child)) {
        return false;
      }
      if parent.owner != child.owner {
        return false;
      }
      assert child in tree.kids && child != root;
      assert child in tree.up.Keys;
      var cur := parent;
      while cur != null
        invariant cur != null ==> cur in tree.kids
        invariant Below(tree, {root}, parent, child) <==> (cur != null && Below(tree, {root}, cur, child))
        decreases if cur == null then 0 else tree.rank[cur] + 1
      {
        if cur == child {
          return false;
        }
        ParentLink(cur);
        cur := cur.parent;
      }
      return true;
    }

    /** The parent field is the tree's parent. */
    lemma ParentLink(x: Node)
      requires Valid() && x in tree.kids
      ensures x in tree.up <==> x != root
      ensures x.parent == if x in tree.up then tree.up[x] else null
      ensures x in tree.up ==> x.parent in tree.kids && tree.rank[x.parent] < tree.rank[x]
    {
      assert x in tree.up <==> x in tree.up.Keys;
      if x in tree.up {
        var s := tree.kids[tree.up[x]];
        assert LinkedAt(tree.up[x], s, Place(s, x));
      }
    }

    /** Unlink, then link again: the whole new tree, and no node lost or doubled. */
    method Relink(self: Node, moved: Node, spot: Spot)
      requires Valid() && self in tree.kids && moved in tree.up && !Below(tree, {root}, self, moved)
      requires MayHold(self.kind, moved.kind)
      requires Sits(spot, tree.kids[self]) && ((spot.After? || spot.Before?) ==> spot.node != moved)
      modifies this`tree, tree.kids.Keys
      ensures Valid() && tree.kids.Keys == old(tree.kids.Keys)
      ensures SitsDetached(old(tree), root, self, moved, spot)
      ensures tree == Relinked(old(tree), root, self, moved, spot)
    {
      hide Forest, Below, Detach, Attach, Position, Sits, AllEncoded, Placed, MayHold;
      ghost var t := tree;
      ChildPlace(tree, {root}, moved);
      SpotStays(tree, root, self, moved, spot);
      MovedForest(tree, root, moved, self, Position(spot, Detach(tree, moved).kids[self]));
      Unlink(moved, {root});
      assert moved in {root} + {moved};
      Link(moved, self, spot, {root} + {moved});
      assert {root} + {moved} - {moved} == {root};
    }

    method AppendMove(self: Node?, moved: Node?) returns (r: Node?)
      requires Valid() && (self != null ==> self in tree.kids) && Known(moved)
      modifies this`tree, tree.kids.Keys
      ensures Valid() && tree.kids.Keys == old(tree.kids.Keys)
      ensures r == if old(MayMove(self, moved)) then moved else null
      ensures r == null ==> tree == old(tree)
      ensures r != null ==> SitsDetached(old(tree), root, self, moved, Last) &&
                            tree == Relinked(old(tree), root, self, moved, Last)
    {
      var ok := AllowMove(self, moved);
      if !ok {
        return null;
      }
      Relink(self, moved, Last);
      return moved;
    }

    method PrependMove(self: Node?, moved: Node?) returns (r: Node?)
      requires Valid() && (self != null ==> self in tree.kids) && Known(moved)
      modifies this`tree, tree.kids.Keys
      ensures Valid() && tree.kids.Keys == old(tree.kids.Keys)
      ensures r == if old(MayMove(self, moved)) then moved else null
      ensures r == null ==> tree == old(tree)
      ensures r != null ==> SitsDetached(old(tree), root, self, moved, First) &&
                            tree == Relinked(old(tree), root, self, moved, First)
    {
      var ok := AllowMove(self, moved);
      if !ok {
        return null;
      }
      Relink(self, moved, First);
      return moved;
    }

    method InsertMoveAfter(self: Node?, moved: Node?, node: Node?) returns (r: Node?)
      requires Valid() && (self != null ==> self in tree.kids) && Known(moved) && Sibling(node)
      modifies this`tree, tree.kids.Keys
      ensures Valid() && tree.kids.Keys == old(tree.kids.Keys)
      ensures r == if old(MayMove(self, moved)) && node != null && old(node.parent) == self && moved != node then moved else null
      ensures r == null ==> tree == old(tree)
      ensures r != null ==> SitsDetached(old(tree), root, self, moved, After(node)) &&
                            tree == Relinked(old(tree), root, self, moved, After(node))
    {
      var ok := AllowMove(self, moved);
      if !ok {
        return null;
      }
      if node == null || node.parent != self {
        return null;
      }
      if moved == node {
        return null;
      }
      ParentLink(node);
      Relink(self, moved, After(node));
      return moved;
    }

    method InsertMoveBefore(self: Node?, moved: Node?, node: Node?) returns (r: Node?)
      requires Valid() && (self != null ==> self in tree.kids) && Known(moved) && Sibling(node)
      modifies this`tree, tree.kids.Keys
      ensures Valid() && tree.kids.Keys == old(tree.kids.Keys)
      ensures r == if old(MayMove(self, moved)) && node != null && old(node.parent) == self && moved != node then moved else null
      ensures r == null ==> tree == old(tree)
      ensures r != null ==> SitsDetached(old(tree), root, self, moved, Before(node)) &&
                            tree == Relinked(old(tree), root, self, moved, Before(node))
    {
      var ok := AllowMove(self, moved);
      if !ok {
        return null;
      }
      if node == null || node.parent != self {
        return null;
      }
      if moved == node {
        return null;
      }
      ParentLink(node);
      Relink(self, moved, Before(node));
      return moved;
    }

    /** The given sibling, when it hangs under one of this document's nodes, is one of them. */
    ghost predicate Sibling(node: Node?)
      reads this, node
    {
      node == null || node in tree.kids || node.parent !in tree.kids
    }

    // ----- new children

    method AddChild(self: Node, kind: Kind, spot: Spot) returns (r: Node)
      requires Valid() && self in tree.kids && Sits(spot, tree.kids[self]) && MayHold(self.kind, kind)
      modifies this`tree, tree.kids.Keys
      ensures Valid() && fresh(r) && r.kind == kind
      ensures tree.kids == Inserted(old(tree.kids), self, r, spot)
    {
      hide Forest, Below, Attach, Position, Sits;
      assert kind != Null && kind != Document_;
      r := new Node(kind, allocator);
      ghost var t := tree;
      CreateForest(tree, {root}, r);
      CreateBelow(tree, {root}, r, self);
      tree := Create(tree, r);
      assert Encodes(r, []);
      assert AllEncoded(tree.kids);
      AttachKids(tree, {root} + {r}, r, self, Position(spot, tree.kids[self]));
      Link(r, self, spot, {root} + {r});
      assert {root} + {r} - {r} == {root};
    }

    method AppendChild(self: Node?, kind: Kind) returns (r: Node?)
      requires Valid() && (self != null ==> self in tree.kids)
      modifies this`tree, tree.kids.Keys
      ensures Valid() && (r != null <==> MayHold(TypeOf(self), kind))
      ensures r == null ==> tree == old(tree)
      ensures r != null ==> fresh(r) && r.kind == kind && Sits(Last, old(tree.kids[self])) &&
                            tree.kids == Inserted(old(tree.kids), self, r, Last)
    {
      AllowedIsHeld(TypeOf(self), kind);
      if !AllowInsertChild(TypeOf(self), kind) {
        return null;
      }
      r := AddChild(self, kind, Last);
    }

    method PrependChild(self: Node?, kind: Kind) returns (r: Node?)
      requires Valid() && (self != null ==> self in tree.kids)
      modifies this`tree, tree.kids.Keys
      ensures Valid() && (r != null <==> MayHold(TypeOf(self), kind))
      ensures r == null ==> tree == old(tree)
      ensures r != null ==> fresh(r) && r.kind == kind && Sits(First, old(tree.kids[self])) &&
                            tree.kids == Inserted(old(tree.kids), self, r, First)
    {
      AllowedIsHeld(TypeOf(self), kind);
      if !AllowInsertChild(TypeOf(self), kind) {
        return null;
      }
      r := AddChild(self, kind, First);
    }

    method InsertChildAfter(self: Node?, kind: Kind, node: Node?) returns (r: Node?)
      requires Valid() && (self != null ==> self in tree.kids) && Sibling(node)
      modifies this`tree, tree.kids.Keys
      ensures Valid() && (r != null <==> MayHold(TypeOf(self), kind) && node != null && old(node.parent) == self)
      ensures r == null ==> tree == old(tree)
      ensures r != null ==> fresh(r) && r.kind == kind && Sits(After(node), old(tree.kids[self])) &&
                            tree.kids == Inserted(old(tree.kids), self, r, After(node))
    {
      AllowedIsHeld(TypeOf(self), kind);
      if !AllowInsertChild(TypeOf(self), kind) {
        return null;
      }
      if node == null || node.parent != self {
        return null;
      }
      ParentLink(node);
      r := AddChild(self, kind, After(node));
    }

    method InsertChildBefore(self: Node?, kind: Kind, node: Node?) returns (r: Node?)
      requires Valid() && (self != null ==> self in tree.kids) && Sibling(node)
      modifies this`tree, tree.kids.Keys
      ensures Valid() && (r != null <==> MayHold(TypeOf(self), kind) && node != null && old(node.parent) == self)
      ensures r == null ==> tree == old(tree)
      ensures r != null ==> fresh(r) && r.kind == kind && Sits(Before(node), old(tree.kids[self])) &&
                            tree.kids == Inserted(old(tree.kids), self, r, Before(node))
    {
      AllowedIsHeld(TypeOf(self), kind);
      if !AllowInsertChild(TypeOf(self), kind) {
        return null;
      }
      if node == null || node.parent != self {
        return null;
      }
      ParentLink(node);
      r := AddChild(self, kind, Before(node));
    }

    // ----- removal

    /** Frees the children's subtrees first, then the node: every node below n, each once. */
    method DestroyNode(n: Node, ghost tops: set<Node>) returns (freed: seq<Node>)
      requires Linked(tops) && n in tree.kids
      ensures NoDup(freed) && Elems(freed) == Subtree(tree, tops, n)
      decreases Subtree(tree, tops, n)
    {
      hide Forest, Below, Subtree, NoDup;
      ghost var s := tree.kids[n];
      freed := [];
      NoDupEmpty<Node>();
      ghost var i := 0;
      var child := n.firstChild;
      while child != null
        invariant 0 <= i <= |s| && child == Nth(s, i)
        invariant NoDup(freed) && Elems(freed) == Under(tree, tops, n, i)
        decreases |s| - i
      {
        assert LinkedAt(n, s, i) && s[i] in s;
        var next := child.nextSibling;
        ChildSubtree(tree, tops, n, i);
        var below := DestroyNode(child, tops);
        NoDupJoin(freed, below);
        freed := freed + below;
        child := next;
        i := i + 1;
      }
      SubtreeSplit(tree, tops, n);
      NoDupOne(n);
      NoDupJoin(freed, [n]);
      freed := freed + [n];
    }

    method RemoveChild(self: Node?, n: Node?) returns (ok: bool, freed: seq<Node>)
      requires Valid() && (self != null ==> self in tree.kids) && Sibling(n)
      modifies this`tree, tree.kids.Keys
      ensures Valid() && (ok <==> self != null && n != null && old(n.parent) == self)
      ensures !ok ==> tree == old(tree) && freed == []
      ensures ok ==> n in old(tree.kids[self]) && NoDup(freed) && Elems(freed) == Subtree(old(tree), {root}, n)
      ensures ok ==> tree.kids == (old(tree.kids) - Elems(freed))[self := RemovedOne(old(tree.kids[self]), n)]
    {
      if self == null || n == null || n.parent != self {
        return false, [];
      }
      ParentLink(n);
      ok := true;
      freed := Discard(self, n);
    }

    method Discard(self: Node, n: Node) returns (freed: seq<Node>)
      requires Valid() && n in tree.up && tree.up[n] == self
      modifies this`tree, tree.kids.Keys
      ensures Valid() && NoDup(freed) && Elems(freed) == Subtree(old(tree), {root}, n)
      ensures n in old(tree.kids[self])
      ensures tree.kids == (old(tree.kids) - Elems(freed))[self := RemovedOne(old(tree.kids[self]), n)]
    {
      hide Forest, Below, Subtree, NoDup, Detach, Drop, AllEncoded, Roots, Placed;
      ghost var t := tree;
      ChildPlace(t, {root}, n);
      Unlink(n, {root});
      freed := DestroyNode(n, {root} + {n});
      DetachSubtree(t, {root}, n);
      DropForest(tree, {root} + {n}, n);
      DropPlaced(tree, {root} + {n}, n);
      assert {root} + {n} - {n} == {root};
      DropKids(t, {root}, n);
      DropEncoded(tree, {root} + {n}, n);
      RootsFewer({root} + {n}, {root});
      tree := Drop(tree, {root} + {n}, n);
    }
  }

  /** The spot still exists once the moved node is out. */
  ghost predicate SitsDetached(t: Tree<Node>, root: Node, self: Node, moved: Node, spot: Spot) {
    && Forest(t, {root}) && moved in t.up && self in t.kids
    && Forest(Detach(t, moved), {root} + {moved}) && Sits(spot, Detach(t, moved).kids[self])
  }

  ghost function Relinked(t: Tree<Node>, root: Node, self: Node, moved: Node, spot: Spot): Tree<Node>
    requires SitsDetached(t, root, self, moved, spot)
  {
    Moved(t, root, moved, self, Position(spot, Detach(t, moved).kids[self]))
  }

  lemma SpotStays(t: Tree<Node>, root: Node, self: Node, moved: Node, spot: Spot)
    requires Forest(t, {root}) && self in t.kids && moved in t.up
    requires Sits(spot, t.kids[self]) && ((spot.After? || spot.Before?) ==> spot.node != moved)
    ensures SitsDetached(t, root, self, moved, spot) && Detach(t, moved).kids.Keys == t.kids.Keys
  {
    assert moved in t.up.Keys;
    DetachForest(t, {root}, moved);
    var p := t.up[moved];
    WithoutMembers(t.kids[p], Place(t.kids[p], moved));
  }

  ghost function Inserted(kids: map<Node, seq<Node>>, self: Node, r: Node, spot: Spot): map<Node, seq<Node>>
    requires self in kids && Sits(spot, kids[self])
  {
    kids[r := []][self := With(kids[self], Position(spot, kids[self]), r)]
  }

  ghost function RemovedOne(s: seq<Node>, n: Node): seq<Node>
    requires n in s
  {
    Without(s, Place(s, n))
  }

  /** Unlinking a node keeps its subtree whole. */
  lemma DetachSubtree(t: Tree<Node>, tops: set<Node>, x: Node)
    requires Forest(t, tops) && x in t.up && Forest(Detach(t, x), tops + {x})
    ensures Subtree(Detach(t, x), tops + {x}, x) == Subtree(t, tops, x)
  {
    assert x in t.up.Keys;
    forall y | y in t.kids
      ensures Below(Detach(t, x), tops + {x}, y, x) <==> Below(t, tops, y, x)
    {
      DetachBelow(t, tops, x, y, x);
    }
  }

  lemma RootsFewer(tops: set<Node>, fewer: set<Node>)
    requires fewer <= tops && Roots(tops)
    ensures Roots(fewer)
  {
  }

  lemma DropEncoded(t: Tree<Node>, tops: set<Node>, x: Node)
    requires Forest(t, tops) && x in tops && AllEncoded(t.kids)
    ensures AllEncoded(Drop(t, tops, x).kids) && Drop(t, tops, x).kids.Keys <= t.kids.Keys
  {
    hide Encodes, Forest, Subtree;
    DropForest(t, tops, x);
    var u := Drop(t, tops, x);
    forall p | p in u.kids
      ensures forall y :: y in u.kids[p] ==> y in u.kids
    {
      ListsApart(u, tops - {x}, p);
    }
  }

  lemma DropKids(t: Tree<Node>, tops: set<Node>, x: Node)
    requires Forest(t, tops) && x in t.up && Forest(Detach(t, x), tops + {x})
    requires Subtree(Detach(t, x), tops + {x}, x) == Subtree(t, tops, x)
    ensures Drop(Detach(t, x), tops + {x}, x).kids ==
            (t.kids - Subtree(t, tops, x))[t.up[x] := RemovedOne(t.kids[t.up[x]], x)]
  {
    NotAboveParent(t, tops, x);
  }
}
