/** The tree that a document's node links encode: who is whose child, in which place. */
module DomTree {
  import opened Sequences

  /** Child sequences, parents, and a rank that grows from parent to child: the witness that nothing is its own ancestor. */
  datatype Tree<N(==)> = Tree(kids: map<N, seq<N>>, up: map<N, N>, rank: map<N, nat>)

  /** Trees standing side by side, one below each top: every other node sits in exactly one place of one child sequence. */
  ghost predicate Forest<N>(t: Tree<N>, tops: set<N>) {
    && t.rank.Keys == t.kids.Keys && t.up.Keys == t.kids.Keys - tops && tops <= t.kids.Keys
    && (forall p, x :: p in t.kids && x in t.kids[p] ==> x in t.up && t.up[x] == p)
    && (forall x :: x in t.up ==> t.up[x] in t.kids && x in t.kids[t.up[x]])
    && (forall p :: p in t.kids ==> NoDup(t.kids[p]))
    && (forall x :: x in t.up ==> t.rank[t.up[x]] < t.rank[x])
  }

  /** y is x or below it. */
  ghost predicate Below<N>(t: Tree<N>, tops: set<N>, y: N, x: N)
    requires Forest(t, tops) && y in t.kids
    decreases t.rank[y]
  {
    y == x || (y in t.up && Below(t, tops, t.up[y], x))
  }

  ghost function Subtree<N>(t: Tree<N>, tops: set<N>, x: N): set<N>
    requires Forest(t, tops)
  {
    set y | y in t.kids && Below(t, tops, y, x)
  }

  // ----- the edits

  /** A new node standing alone. */
  ghost function Create<N>(t: Tree<N>, x: N): Tree<N> {
    Tree(t.kids[x := []], t.up, t.rank[x := 0])
  }

  ghost function Detach<N>(t: Tree<N>, x: N): Tree<N>
    requires x in t.up && t.up[x] in t.kids && x in t.kids[t.up[x]]
  {
    var p := t.up[x];
    Tree(t.kids[p := Without(t.kids[p], Place(t.kids[p], x))], t.up - {x}, t.rank)
  }

  /** Ranks below x raised past that of its new parent. */
  ghost function Raised<N>(t: Tree<N>, tops: set<N>, x: N, p: N): map<N, nat>
    requires Forest(t, tops) && p in t.kids
  {
    map y | y in t.kids :: if Below(t, tops, y, x) then t.rank[y] + t.rank[p] + 1 else t.rank[y]
  }

  ghost function Attach<N>(t: Tree<N>, tops: set<N>, x: N, p: N, i: nat): Tree<N>
    requires Forest(t, tops) && p in t.kids && i <= |t.kids[p]|
  {
    Tree(t.kids[p := With(t.kids[p], i, x)], t.up[x := p], Raised(t, tops, x, p))
  }

  /** The tree without x and everything below it. */
  ghost function Drop<N>(t: Tree<N>, tops: set<N>, x: N): Tree<N>
    requires Forest(t, tops)
  {
    var gone := Subtree(t, tops, x);
    Tree(t.kids - gone, t.up - gone, t.rank - gone)
  }

  // ----- each edit keeps the forest

  lemma CreateForest<N>(t: Tree<N>, tops: set<N>, x: N)
    requires Forest(t, tops) && x !in t.kids
    ensures Forest(Create(t, x), tops + {x})
  {
    hide NoDup;
    var u := Create(t, x);
    assert u.up.Keys == u.kids.Keys - (tops + {x});
    assert forall p, y :: p in u.kids && y in u.kids[p] ==> p in t.kids && y in t.kids[p];
    forall p | p in u.kids
      ensures NoDup(u.kids[p])
    {
      if p == x {
        NoDupEmpty<N>();
      }
    }
  }

  lemma DetachForest<N>(t: Tree<N>, tops: set<N>, x: N)
    requires Forest(t, tops) && x in t.up
    ensures Forest(Detach(t, x), tops + {x}) && x !in tops
  {
    hide NoDup;
    var p := t.up[x];
    var u := Detach(t, x);
    WithoutMembers(t.kids[p], Place(t.kids[p], x));
    assert x in t.up.Keys && u.kids.Keys == t.kids.Keys && u.up.Keys == u.kids.Keys - (tops + {x});
    forall q, y | q in u.kids && y in u.kids[q]
      ensures y in u.up && u.up[y] == q
    {
      if q == p {
        assert u.kids[p] == Without(t.kids[p], Place(t.kids[p], x));
        assert y in t.kids[p] && y != x;
      } else {
        assert u.kids[q] == t.kids[q];
      }
    }
    forall y | y in u.up
      ensures u.up[y] in u.kids && y in u.kids[u.up[y]] && u.rank[u.up[y]] < u.rank[y]
    {
      assert y in t.up && u.up[y] == t.up[y];
    }
  }

  lemma AttachForest<N>(t: Tree<N>, tops: set<N>, x: N, p: N, i: nat)
    requires Forest(t, tops) && p in t.kids && i <= |t.kids[p]|
    requires x in tops && !Below(t, tops, p, x)
    ensures Forest(Attach(t, tops, x, p, i), tops - {x})
  {
    hide NoDup, With, Below;
    assert x !in t.up.Keys && x !in t.kids[p];
    WithMembers(t.kids[p], i, x);
    AttachPlaces(t, tops, x, p, i);
    var u := Attach(t, tops, x, p, i);
    assert u.kids.Keys == t.kids.Keys && u.up.Keys == u.kids.Keys - (tops - {x});
    forall y | y in u.up
      ensures u.rank[u.up[y]] < u.rank[y]
    {
      AttachRank(t, tops, x, p, y);
    }
  }

  /** Children and parents still tell the same story. */
  lemma AttachPlaces<N>(t: Tree<N>, tops: set<N>, x: N, p: N, i: nat)
    requires Forest(t, tops) && p in t.kids && i <= |t.kids[p]| && x in tops
    ensures var u := Attach(t, tops, x, p, i);
            && (forall q, y :: q in u.kids && y in u.kids[q] ==> y in u.up && u.up[y] == q)
            && (forall y :: y in u.up ==> u.up[y] in u.kids && y in u.kids[u.up[y]])
  {
    hide NoDup, With, Below, Raised;
    assert x !in t.up.Keys && x !in t.kids[p];
    var u := Attach(t, tops, x, p, i);
    forall q, y | q in u.kids && y in u.kids[q]
      ensures y in u.up && u.up[y] == q
    {
      if q == p {
        assert u.kids[q] == With(t.kids[p], i, x);
        WithHas(t.kids[p], i, x, y);
      } else {
        assert u.kids[q] == t.kids[q];
        assert y in t.kids[q];
      }
    }
    forall y | y in u.up
      ensures u.up[y] in u.kids && y in u.kids[u.up[y]]
    {
      assert y != x ==> y in t.up.Keys && y in t.kids[t.up[y]];
      WithHas(t.kids[p], i, x, y);
    }
  }

  /** Ranks still grow from parent to child. */
  lemma AttachRank<N>(t: Tree<N>, tops: set<N>, x: N, p: N, y: N)
    requires Forest(t, tops) && p in t.kids && x in tops && !Below(t, tops, p, x)
    requires y == x || y in t.up
    ensures var rank := Raised(t, tops, x, p); rank[if y == x then p else t.up[y]] < rank[y]
  {
    hide NoDup;
    if y != x {
      assert Below(t, tops, y, x) == Below(t, tops, t.up[y], x);
    }
  }

  lemma DropForest<N>(t: Tree<N>, tops: set<N>, x: N)
    requires Forest(t, tops) && x in tops
    ensures Forest(Drop(t, tops, x), tops - {x})
  {
    hide NoDup;
    var u := Drop(t, tops, x);
    forall y, z | y in u.kids && z in u.kids[y]
      ensures z in u.up && u.up[z] == y
    {
      assert z in t.up && t.up[z] == y && z in t.kids;
      assert Below(t, tops, z, x) == (z == x || Below(t, tops, y, x));
    }
    forall y | y in u.up
      ensures u.up[y] in u.kids
    {
      assert y in t.up && y in t.kids;
      assert Below(t, tops, y, x) == (y == x || Below(t, tops, t.up[y], x));
    }
    forall y | y in tops && y != x
      ensures y in u.kids
    {
      assert y !in t.up;
    }
  }

  // ----- what a forest is

  /** No node is below one of its own children: there are no cycles. */
  lemma {:induction false} BelowRank<N>(t: Tree<N>, tops: set<N>, y: N, x: N)
    requires Forest(t, tops) && y in t.kids && Below(t, tops, y, x)
    ensures x in t.kids && (y == x || t.rank[x] < t.rank[y])
    decreases t.rank[y]
  {
    if y != x {
      BelowRank(t, tops, t.up[y], x);
    }
  }

  /** With a single top, every node is reached from it. */
  lemma {:induction false} AllBelowTop<N>(t: Tree<N>, top: N, y: N)
    requires Forest(t, {top}) && y in t.kids
    ensures Below(t, {top}, y, top)
    decreases t.rank[y]
  {
    if y != top {
      AllBelowTop(t, top, t.up[y]);
    }
  }

  /** Detaching x changes no ancestry within x's subtree, and separates it from everything else. */
  lemma {:induction false} DetachBelow<N>(t: Tree<N>, tops: set<N>, x: N, y: N, z: N)
    requires Forest(t, tops) && x in t.up && y in t.kids && z in t.kids
    requires Forest(Detach(t, x), tops + {x})
    ensures Below(Detach(t, x), tops + {x}, y, z) <==>
            Below(t, tops, y, z) && (Below(t, tops, y, x) ==> Below(t, tops, z, x))
    decreases t.rank[y]
  {
    var u := Detach(t, x);
    if y == z {
    } else if y == x {
      if Below(t, tops, x, z) {
        BelowRank(t, tops, x, z);
        if Below(t, tops, z, x) {
          BelowRank(t, tops, z, x);
        }
      }
    } else if y in t.up {
      DetachBelow(t, tops, x, t.up[y], z);
      assert u.up[y] == t.up[y];
    } else {
      assert y !in u.up;
    }
  }

  /** Attaching x under p leaves the old ancestry and puts x's subtree under p and its ancestors. */
  lemma {:induction false} AttachBelow<N>(t: Tree<N>, tops: set<N>, x: N, p: N, i: nat, y: N, z: N)
    requires Forest(t, tops) && p in t.kids && i <= |t.kids[p]| && x in tops && !Below(t, tops, p, x)
    requires Forest(Attach(t, tops, x, p, i), tops - {x}) && y in t.kids && z in t.kids
    ensures Below(Attach(t, tops, x, p, i), tops - {x}, y, z) <==>
            Below(t, tops, y, z) || (Below(t, tops, y, x) && Below(t, tops, p, z))
    decreases t.rank[y]
  {
    var u := Attach(t, tops, x, p, i);
    assert u.kids.Keys == t.kids.Keys;
    if y == z {
    } else if y == x {
      AttachAbove(t, tops, x, p, i, p, z);
    } else if y in t.up {
      AttachBelow(t, tops, x, p, i, t.up[y], z);
      assert u.up[y] == t.up[y];
    } else {
      assert y !in u.up;
    }
  }

  /** Outside x's subtree nothing changes its ancestors. */
  lemma {:induction false} AttachAbove<N>(t: Tree<N>, tops: set<N>, x: N, p: N, i: nat, y: N, z: N)
    requires Forest(t, tops) && p in t.kids && i <= |t.kids[p]| && x in tops && !Below(t, tops, p, x)
    requires Forest(Attach(t, tops, x, p, i), tops - {x}) && y in t.kids && !Below(t, tops, y, x)
    ensures Below(Attach(t, tops, x, p, i), tops - {x}, y, z) <==> Below(t, tops, y, z)
    decreases t.rank[y]
  {
    var u := Attach(t, tops, x, p, i);
    assert u.kids.Keys == t.kids.Keys;
    if y in t.up {
      AttachAbove(t, tops, x, p, i, t.up[y], z);
    }
  }

  // ----- moving

  /** x taken out and put back under p, at place i of what p then holds. */
  ghost function Moved<N>(t: Tree<N>, top: N, x: N, p: N, i: nat): Tree<N>
    requires Forest(t, {top}) && x in t.up && p in t.kids && i <= |Detach(t, x).kids[p]|
    requires Forest(Detach(t, x), {top} + {x})
  {
    Attach(Detach(t, x), {top} + {x}, x, p, i)
  }

  /** A permitted move keeps one tree of the same nodes. */
  lemma MovedForest<N>(t: Tree<N>, top: N, x: N, p: N, i: nat)
    requires Forest(t, {top}) && x in t.up && p in t.kids && i <= |Detach(t, x).kids[p]|
    requires !Below(t, {top}, p, x)
    ensures Forest(Detach(t, x), {top} + {x}) && !Below(Detach(t, x), {top} + {x}, p, x)
    ensures Forest(Moved(t, top, x, p, i), {top}) && Moved(t, top, x, p, i).kids.Keys == t.kids.Keys
  {
    DetachForest(t, {top}, x);
    assert x in t.up.Keys;
    assert x in t.kids && Below(t, {top}, x, x);
    hide Forest;
    DetachBelow(t, {top}, x, p, x);
    AttachForest(Detach(t, x), {top} + {x}, x, p, i);
    assert {top} + {x} - {x} == {top};
  }

  /** The moved node takes its whole subtree along, and no other ancestry changes. */
  lemma MovedBelow<N>(t: Tree<N>, top: N, x: N, p: N, i: nat, y: N, z: N)
    requires Forest(t, {top}) && x in t.up && p in t.kids && i <= |Detach(t, x).kids[p]|
    requires !Below(t, {top}, p, x) && y in t.kids && z in t.kids
    requires Forest(Detach(t, x), {top} + {x}) && Forest(Moved(t, top, x, p, i), {top})
    ensures Below(Moved(t, top, x, p, i), {top}, y, z) <==>
            if Below(t, {top}, y, x) then (Below(t, {top}, z, x) && Below(t, {top}, y, z)) || Below(t, {top}, p, z)
            else Below(t, {top}, y, z)
  {
    var u := Detach(t, x);
    MovedForest(t, top, x, p, i);
    assert x in t.kids by {
      assert x in t.up.Keys;
    }
    assert Below(t, {top}, x, x);
    hide Forest, Attach, Detach;
    assert {top} + {x} - {x} == {top};
    AttachBelow(u, {top} + {x}, x, p, i, y, z);
    DetachBelow(t, {top}, x, y, z);
    DetachBelow(t, {top}, x, p, z);
    DetachBelow(t, {top}, x, y, x);
  }

  // ----- new nodes

  lemma {:induction false} CreateBelow<N>(t: Tree<N>, tops: set<N>, x: N, y: N)
    requires Forest(t, tops) && x !in t.kids && y in t.kids
    requires Forest(Create(t, x), tops + {x})
    ensures !Below(Create(t, x), tops + {x}, y, x)
    decreases t.rank[y]
  {
    if y in t.up {
      CreateBelow(t, tops, x, t.up[y]);
    }
  }

  // ----- subtrees, child by child

  /** Everything below one of the first i children of n. */
  ghost function Under<N>(t: Tree<N>, tops: set<N>, n: N, i: nat): set<N>
    requires Forest(t, tops) && n in t.kids && i <= |t.kids[n]|
  {
    if i == 0 then {} else Under(t, tops, n, i - 1) + Subtree(t, tops, t.kids[n][i - 1])
  }

  lemma {:induction false} BelowTransitive<N>(t: Tree<N>, tops: set<N>, y: N, x: N, w: N)
    requires Forest(t, tops) && y in t.kids && x in t.kids && Below(t, tops, y, x) && Below(t, tops, x, w)
    ensures Below(t, tops, y, w)
    decreases t.rank[y]
  {
    if y != x {
      BelowTransitive(t, tops, t.up[y], x, w);
    }
  }

  /** The ancestors of a node form a chain. */
  lemma {:induction false} BelowChain<N>(t: Tree<N>, tops: set<N>, y: N, a: N, b: N)
    requires Forest(t, tops) && y in t.kids && a in t.kids && b in t.kids
    requires Below(t, tops, y, a) && Below(t, tops, y, b)
    ensures Below(t, tops, a, b) || Below(t, tops, b, a)
    decreases t.rank[y]
  {
    if y != a && y != b {
      BelowChain(t, tops, t.up[y], a, b);
    }
  }

  /** Two children of one node have nothing below both. */
  lemma SiblingsApart<N>(t: Tree<N>, tops: set<N>, a: N, b: N, y: N)
    requires Forest(t, tops) && a in t.up && b in t.up && t.up[a] == t.up[b] && a != b && y in t.kids
    ensures !(Below(t, tops, y, a) && Below(t, tops, y, b))
  {
    assert a in t.up.Keys && b in t.up.Keys;
    assert !Below(t, tops, t.up[a], a) && !Below(t, tops, t.up[b], b) by {
      NotAboveParent(t, tops, a);
      NotAboveParent(t, tops, b);
    }
    if Below(t, tops, y, a) && Below(t, tops, y, b) {
      BelowChain(t, tops, y, a, b);
    }
  }

  lemma NotAboveParent<N>(t: Tree<N>, tops: set<N>, a: N)
    requires Forest(t, tops) && a in t.up
    ensures !Below(t, tops, t.up[a], a)
  {
    if Below(t, tops, t.up[a], a) {
      BelowRank(t, tops, t.up[a], a);
    }
  }

  /** A subtree is its node and the subtrees of its children. */
  lemma {:induction false} SubtreeSplit<N>(t: Tree<N>, tops: set<N>, n: N)
    requires Forest(t, tops) && n in t.kids
    ensures Subtree(t, tops, n) == Under(t, tops, n, |t.kids[n]|) + {n}
    ensures n !in Under(t, tops, n, |t.kids[n]|)
  {
    var s := t.kids[n];
    var left, right := Subtree(t, tops, n), Under(t, tops, n, |s|) + {n};
    forall y | y in left + right
      ensures y in left && y in right
    {
      SplitMember(t, tops, n, y);
    }
    assert left == right;
    UnderMember(t, tops, n, |s|, n);
    if j :| 0 <= j < |s| && n in Subtree(t, tops, s[j]) {
      NotAboveParent(t, tops, s[j]);
    }
  }

  lemma SplitMember<N>(t: Tree<N>, tops: set<N>, n: N, y: N)
    requires Forest(t, tops) && n in t.kids
    ensures y in Subtree(t, tops, n) <==> y in Under(t, tops, n, |t.kids[n]|) || y == n
  {
    var s := t.kids[n];
    UnderMember(t, tops, n, |s|, y);
    if y in t.kids && Below(t, tops, y, n) && y != n {
      var j := ChildAbove(t, tops, y, n);
    }
    if j :| 0 <= j < |s| && y in Subtree(t, tops, s[j]) {
      assert s[j] in t.up && s[j] in t.up.Keys;
      BelowTransitive(t, tops, y, s[j], n);
    }
  }

  lemma {:induction false} UnderMember<N>(t: Tree<N>, tops: set<N>, n: N, i: nat, y: N)
    requires Forest(t, tops) && n in t.kids && i <= |t.kids[n]|
    ensures y in Under(t, tops, n, i) <==> exists j :: 0 <= j < i && y in Subtree(t, tops, t.kids[n][j])
  {
    if i > 0 {
      UnderMember(t, tops, n, i - 1, y);
    }
  }

  lemma {:induction false} ChildAbove<N>(t: Tree<N>, tops: set<N>, y: N, n: N) returns (j: nat)
    requires Forest(t, tops) && n in t.kids && y in t.kids && Below(t, tops, y, n) && y != n
    ensures j < |t.kids[n]| && y in Subtree(t, tops, t.kids[n][j])
    decreases t.rank[y]
  {
    if t.up[y] == n {
      j := Place(t.kids[n], y);
    } else {
      j := ChildAbove(t, tops, t.up[y], n);
    }
  }

  /** The next child's subtree is new, and smaller than its parent's. */
  lemma ChildSubtree<N>(t: Tree<N>, tops: set<N>, n: N, i: nat)
    requires Forest(t, tops) && n in t.kids && i < |t.kids[n]|
    ensures Subtree(t, tops, t.kids[n][i]) < Subtree(t, tops, n)
    ensures Under(t, tops, n, i) !! Subtree(t, tops, t.kids[n][i])
  {
    var s := t.kids[n];
    assert s[i] in s;
    assert s[i] in t.up && s[i] in t.up.Keys;
    forall y | y in Subtree(t, tops, s[i])
      ensures y in Subtree(t, tops, n) && y !in Under(t, tops, n, i)
    {
      BelowTransitive(t, tops, y, s[i], n);
      UnderMember(t, tops, n, i, y);
      if j :| 0 <= j < i && y in Subtree(t, tops, s[j]) {
        assert s[j] in s;
        SiblingsApart(t, tops, s[j], s[i], y);
      }
    }
    NotAboveParent(t, tops, s[i]);
    assert n in Subtree(t, tops, n) && n !in Subtree(t, tops, s[i]);
  }
}
