/** The links in memory are those of the numbered document the query engine walks. */
module DomLinks {
  import opened Sequences
  import opened DomTree
  import opened Dom
  import opened DomDocument
  import opened DomNumbering
  import Documents
  import Walkers

  function Ref(s: seq<Node>, i: int): Node? {
    if 0 <= i < |s| then s[i] else null
  }

  /** All four links of the i-th node. */
  ghost predicate SameLinks(d: Documents.Doc, s: seq<Node>, i: nat)
    requires d.Valid() && d.Size() == |s| && i < |s|
    reads s
  {
    && s[i].parent == Ref(s, d.parent[i])
    && s[i].firstChild == Ref(s, Walkers.FirstChild(d, i))
    && s[i].nextSibling == Ref(s, Walkers.NextSibling(d, i))
    && s[i].prevSiblingC == Ref(s, Walkers.PrevSiblingC(d, i))
  }

  lemma RootLinks(doc: Document, s: seq<Node>, info: Node -> Label)
    requires doc.Valid() && Lists(doc.tree, doc.root, s) && Numbered(doc.tree, doc.root, s, info).Valid() && s != []
    ensures SameLinks(Numbered(doc.tree, doc.root, s, info), s, 0)
  {
    RootSpan(doc.tree, doc.root, s);
    FirstChildNamed(doc.tree, doc.root, s, info, 0);
  }

  lemma ChildLinks(doc: Document, s: seq<Node>, info: Node -> Label, i: nat)
    requires doc.Valid() && Lists(doc.tree, doc.root, s) && Numbered(doc.tree, doc.root, s, info).Valid() && 0 < i < |s|
    ensures SameLinks(Numbered(doc.tree, doc.root, s, info), s, i)
  {
    hide Forest, Pre, PreKids, NoDup, ParentAt, EndAt, Numbered, Encodes, LinkedAt, Lists, Names, Ref, Walkers.FirstChild,
      Walkers.NextSibling, Walkers.PrevSiblingC, Documents.Doc.Valid;
    var t, top := doc.tree, doc.root;
    ParentPlace(t, top, s, i);
    NumberedAt(t, top, s, info, i);
    var q := ParentAt(t, top, s, i);
    var k := WhichChild(t, top, s, q, i);
    FirstChildNamed(t, top, s, info, i);
    NextSiblingNamed(t, top, s, info, q, k);
    BackNamed(t, top, s, info, q, k);
    FirstInMemory(doc, s[i]);
    SiblingsInMemory(doc, s[q], k);
    var d := Numbered(t, top, s, info);
    RefNames(s, Walkers.FirstChild(d, i), FirstOf(t, s[i]));
    RefNames(s, Walkers.NextSibling(d, i), NextOf(t, s[q], k));
    RefNames(s, Walkers.PrevSiblingC(d, i), BackOf(t, s[q], k));
    RefNames(s, q, [s[q]]);
  }

  lemma RefNames(s: seq<Node>, i: int, x: seq<Node>)
    requires Names(s, i, x) || (0 <= i < |s| && x == [s[i]])
    ensures Ref(s, i) == if x == [] then null else x[0]
  {
  }

  lemma FirstInMemory(doc: Document, x: Node)
    requires doc.Valid() && x in doc.tree.kids
    ensures x.firstChild == if doc.tree.kids[x] == [] then null else doc.tree.kids[x][0]
  {
    hide Forest, LinkedAt;
    assert Encodes(x, doc.tree.kids[x]);
  }

  lemma SiblingsInMemory(doc: Document, p: Node, k: nat)
    requires doc.Valid() && p in doc.tree.kids && k < |doc.tree.kids[p]|
    ensures var s := doc.tree.kids[p];
            && s[k].parent == p
            && s[k].nextSibling == (if k + 1 < |s| then s[k + 1] else null)
            && s[k].prevSiblingC == s[if k == 0 then |s| - 1 else k - 1]
  {
    hide Forest;
    assert Encodes(p, doc.tree.kids[p]);
    assert LinkedAt(p, doc.tree.kids[p], k);
  }

  /** Every document in memory is a document of the model: listing its nodes in document order numbers them so that
      parent, first child, next sibling and back link are the model's. */
  lemma DocumentLinks(doc: Document, info: Node -> Label)
    requires doc.Valid()
    ensures doc.root in doc.tree.kids && Lists(doc.tree, doc.root, Pre(doc.tree, {doc.root}, doc.root))
    ensures var s := Pre(doc.tree, {doc.root}, doc.root);
            var d := Numbered(doc.tree, doc.root, s, info);
            d.Valid() && forall i :: 0 <= i < |s| ==> SameLinks(d, s, i)
  {
    ListsAll(doc.tree, doc.root);
    var s := Pre(doc.tree, {doc.root}, doc.root);
    NumberedValid(doc.tree, doc.root, s, info);
    hide Forest, Pre, Numbered, Lists;
    forall i | 0 <= i < |s|
      ensures SameLinks(Numbered(doc.tree, doc.root, s, info), s, i)
    {
      if i == 0 {
        RootLinks(doc, s, info);
      } else {
        ChildLinks(doc, s, info, i);
      }
    }
  }
}
