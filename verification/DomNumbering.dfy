/** Every tree of nodes can be numbered in document order: the documents of the query engine are the trees of the DOM. */
module DomNumbering {
  import opened Sequences
  import opened DomTree
  import Documents
  import Walkers

  // ----- preorder

  /** The nodes of n's subtree in document order. */
  ghost function Pre<N>(t: Tree<N>, tops: set<N>, n: N): seq<N>
    requires Forest(t, tops) && n in t.kids
    decreases Subtree(t, tops, n), |t.kids[n]| + 1
  {
    [n] + PreKids(t, tops, n, |t.kids[n]|)
  }

  /** The subtrees of the first i children of n, one after the other. */
  ghost function PreKids<N>(t: Tree<N>, tops: set<N>, n: N, i: nat): seq<N>
    requires Forest(t, tops) && n in t.kids && i <= |t.kids[n]|
    decreases Subtree(t, tops, n), i
  {
    if i == 0 then []
    else
      ChildSubtree(t, tops, n, i - 1);
      KidIn(t, tops, n, i - 1);
      PreKids(t, tops, n, i - 1) + Pre(t, tops, t.kids[n][i - 1])
  }

  lemma KidIn<N>(t: Tree<N>, tops: set<N>, n: N, i: nat)
    requires Forest(t, tops) && n in t.kids && i < |t.kids[n]|
    ensures var x := t.kids[n][i]; x in t.kids && x in t.up && t.up[x] == n && x !in tops
  {
    var x := t.kids[n][i];
    assert x in t.kids[n];
    assert x in t.up && x in t.up.Keys;
  }

  /** Each node of the subtree once, and no other. */
  lemma {:induction false} PreElems<N>(t: Tree<N>, tops: set<N>, n: N)
    requires Forest(t, tops) && n in t.kids
    ensures NoDup(Pre(t, tops, n)) && Elems(Pre(t, tops, n)) == Subtree(t, tops, n)
    decreases Subtree(t, tops, n), |t.kids[n]| + 1
  {
    hide Forest, Below, Subtree, NoDup;
    PreKidsElems(t, tops, n, |t.kids[n]|);
    SubtreeSplit(t, tops, n);
    NoDupOne(n);
    NoDupJoin([n], PreKids(t, tops, n, |t.kids[n]|));
  }

  lemma {:induction false} PreKidsElems<N>(t: Tree<N>, tops: set<N>, n: N, i: nat)
    requires Forest(t, tops) && n in t.kids && i <= |t.kids[n]|
    ensures NoDup(PreKids(t, tops, n, i)) && Elems(PreKids(t, tops, n, i)) == Under(t, tops, n, i)
    decreases Subtree(t, tops, n), i
  {
    hide Forest, Below, Subtree, NoDup;
    if i == 0 {
      NoDupEmpty<N>();
    } else {
      ChildSubtree(t, tops, n, i - 1);
      KidIn(t, tops, n, i - 1);
      PreKidsElems(t, tops, n, i - 1);
      PreElems(t, tops, t.kids[n][i - 1]);
      NoDupJoin(PreKids(t, tops, n, i - 1), Pre(t, tops, t.kids[n][i - 1]));
    }
  }

  // ----- subtrees are intervals

  /** The listing of y's subtree starts at position k of s. */
  ghost predicate At<N>(t: Tree<N>, tops: set<N>, s: seq<N>, k: nat, y: N)
    requires Forest(t, tops)
  {
    y in t.kids && k + |Pre(t, tops, y)| <= |s| && s[k..k + |Pre(t, tops, y)|] == Pre(t, tops, y)
  }

  lemma AtShift<N>(t: Tree<N>, tops: set<N>, a: seq<N>, b: seq<N>, c: seq<N>, k: nat, y: N)
    requires Forest(t, tops) && At(t, tops, b, k, y)
    ensures At(t, tops, a + b + c, |a| + k, y)
  {
    hide Forest, Pre;
    var n := |Pre(t, tops, y)|;
    assert (a + b + c)[|a| + k..|a| + k + n] == b[k..k + n];
  }

  /** Wherever a node stands in the listing of n, its own listing follows. */
  lemma {:induction false} Interval<N>(t: Tree<N>, tops: set<N>, n: N, k: nat)
    requires Forest(t, tops) && n in t.kids && k < |Pre(t, tops, n)|
    ensures At(t, tops, Pre(t, tops, n), k, Pre(t, tops, n)[k])
    decreases Subtree(t, tops, n), |t.kids[n]| + 1
  {
    hide Forest, Below, Subtree;
    var s := Pre(t, tops, n);
    if k == 0 {
      assert s[0..|s|] == s;
    } else {
      var m := |t.kids[n]|;
      IntervalKids(t, tops, n, m, k - 1);
      var rest := PreKids(t, tops, n, m);
      AtShift(t, tops, [n], rest, [], k - 1, rest[k - 1]);
      assert s == [n] + rest + [];
    }
  }

  lemma {:induction false} IntervalKids<N>(t: Tree<N>, tops: set<N>, n: N, i: nat, k: nat)
    requires Forest(t, tops) && n in t.kids && i <= |t.kids[n]| && k < |PreKids(t, tops, n, i)|
    ensures At(t, tops, PreKids(t, tops, n, i), k, PreKids(t, tops, n, i)[k])
    decreases Subtree(t, tops, n), i
  {
    hide Forest, Below, Subtree;
    ChildSubtree(t, tops, n, i - 1);
    KidIn(t, tops, n, i - 1);
    var a, b := PreKids(t, tops, n, i - 1), Pre(t, tops, t.kids[n][i - 1]);
    assert PreKids(t, tops, n, i) == a + b + [] && [] + a + b == a + b;
    if k < |a| {
      IntervalKids(t, tops, n, i - 1, k);
      AtShift(t, tops, [], a, b, k, a[k]);
    } else {
      Interval(t, tops, t.kids[n][i - 1], k - |a|);
      AtShift(t, tops, a, b, [], k - |a|, b[k - |a|]);
    }
  }

  // ----- the numbering

  /** s lists all nodes of the tree below top in document order. */
  ghost predicate Lists<N>(t: Tree<N>, top: N, s: seq<N>) {
    && Forest(t, {top}) && top in t.kids && s == Pre(t, {top}, top)
    && NoDup(s) && Elems(s) == t.kids.Keys
  }

  lemma ListsAll<N>(t: Tree<N>, top: N)
    requires Forest(t, {top}) && top in t.kids
    ensures Lists(t, top, Pre(t, {top}, top))
  {
    PreElems(t, {top}, top);
    forall y | y in t.kids
      ensures Below(t, {top}, y, top)
    {
      AllBelowTop(t, top, y);
    }
  }

  ghost function ParentAt<N>(t: Tree<N>, top: N, s: seq<N>, i: nat): int
    requires Lists(t, top, s) && i < |s|
  {
    if s[i] in t.up && t.up[s[i]] in s then Place(s, t.up[s[i]]) else -1
  }

  ghost function EndAt<N>(t: Tree<N>, top: N, s: seq<N>, i: nat): int
    requires Lists(t, top, s) && i < |s|
  {
    assert s[i] in Elems(s);
    i + |Pre(t, {top}, s[i])|
  }

  /** The part of the listing from i to its end is i's subtree. */
  lemma Span<N>(t: Tree<N>, top: N, s: seq<N>, i: nat)
    requires Lists(t, top, s) && i < |s|
    ensures s[i] in t.kids && i < EndAt(t, top, s, i) <= |s|
    ensures s[i..EndAt(t, top, s, i)] == Pre(t, {top}, s[i])
    ensures forall j :: 0 <= j < |s| ==> s[j] in t.kids && (i <= j < EndAt(t, top, s, i) <==> Below(t, {top}, s[j], s[i]))
  {
    hide Forest, Below;
    assert s[i] in Elems(s);
    Interval(t, {top}, top, i);
    PreElems(t, {top}, s[i]);
    var e := EndAt(t, top, s, i);
    forall j | 0 <= j < |s|
      ensures s[j] in t.kids && (i <= j < e <==> Below(t, {top}, s[j], s[i]))
    {
      assert s[j] in Elems(s);
      InPart(s, i, e, j);
      assert s[j] in Pre(t, {top}, s[i]) <==> s[j] in Subtree(t, {top}, s[i]);
    }
  }

  /** In a listing without repetitions, being in a part is standing in it. */
  lemma InPart<N>(s: seq<N>, i: nat, e: nat, j: nat)
    requires NoDup(s) && i <= e <= |s| && j < |s|
    ensures s[j] in s[i..e] <==> i <= j < e
  {
    if i <= j < e {
      assert s[i..e][j - i] == s[j];
    }
  }

  lemma ParentPlace<N>(t: Tree<N>, top: N, s: seq<N>, j: nat)
    requires Lists(t, top, s) && j < |s|
    ensures j == 0 <==> s[j] == top
    ensures j == 0 ==> ParentAt(t, top, s, j) == -1
    ensures j > 0 ==>
              && 0 <= ParentAt(t, top, s, j) < j < EndAt(t, top, s, ParentAt(t, top, s, j))
              && s[j] in t.up && s[ParentAt(t, top, s, j)] == t.up[s[j]]
  {
    hide Forest, Below, Pre, NoDup, EndAt;
    UpListed(t, top, s, j);
    OnlyTop(t, top, s, j);
    if s[j] != top {
      var q := Place(s, t.up[s[j]]);
      Span(t, top, s, q);
    }
  }

  lemma OnlyTop<N>(t: Tree<N>, top: N, s: seq<N>, j: nat)
    requires Lists(t, top, s) && j < |s|
    ensures j == 0 <==> s[j] == top
  {
    hide Forest, Below;
    assert s[0] == top;
    Only(s, 0);
  }

  lemma UpListed<N>(t: Tree<N>, top: N, s: seq<N>, j: nat)
    requires Lists(t, top, s) && j < |s|
    ensures s[j] in t.kids && (s[j] in t.up <==> s[j] != top)
    ensures s[j] in t.up ==>
              && t.up[s[j]] in s && t.up[s[j]] in t.kids && t.up[s[j]] != s[j] && Below(t, {top}, s[j], t.up[s[j]])
  {
    hide Pre, NoDup;
    assert s[j] in Elems(s);
    assert s[j] in t.up <==> s[j] in t.up.Keys;
    if s[j] in t.up {
      assert t.up[s[j]] in Elems(s);
      assert Below(t, {top}, t.up[s[j]], t.up[s[j]]);
    }
  }

  lemma BelowParent<N>(t: Tree<N>, tops: set<N>, y: N, x: N)
    requires Forest(t, tops) && y in t.kids && y != x && Below(t, tops, y, x)
    ensures y in t.up && t.up[y] in t.kids && Below(t, tops, t.up[y], x)
  {
  }

  /** Subtrees nest: the parent of a member of i's subtree is in it, */
  lemma NestedParent<N>(t: Tree<N>, top: N, s: seq<N>, i: nat, j: nat)
    requires Lists(t, top, s) && i < j < |s| && j < EndAt(t, top, s, i)
    ensures i <= ParentAt(t, top, s, j)
  {
    hide Forest, Below, Pre, NoDup, EndAt, ParentAt;
    ParentPlace(t, top, s, j);
    Span(t, top, s, i);
    Distinct(s, i, j);
    BelowParent(t, {top}, s[j], s[i]);
  }

  lemma Distinct<N>(s: seq<N>, i: nat, j: nat)
    requires NoDup(s) && i < j < |s|
    ensures s[i] != s[j]
  {
  }

  /** and so is its subtree. */
  lemma NestedEnd<N>(t: Tree<N>, top: N, s: seq<N>, i: nat, j: nat)
    requires Lists(t, top, s) && i < j < |s| && j < EndAt(t, top, s, i)
    ensures EndAt(t, top, s, j) <= EndAt(t, top, s, i)
  {
    hide Forest, Below, Pre, NoDup;
    Span(t, top, s, i);
    Span(t, top, s, j);
    var part := s[i..EndAt(t, top, s, i)];
    assert part[j - i] == s[j];
    Interval(t, {top}, s[i], j - i);
  }

  // ----- the document

  datatype Label = Label(kind: Documents.NodeKind, name: string, value: string, attrs: seq<Documents.Attr>)

  /** The document the tree is, with whatever its nodes are labelled. */
  ghost function Numbered<N>(t: Tree<N>, top: N, s: seq<N>, info: N -> Label): Documents.Doc
    requires Lists(t, top, s)
  {
    Documents.Doc(
      seq(|s|, i requires 0 <= i < |s| => ParentAt(t, top, s, i)),
      seq(|s|, i requires 0 <= i < |s| => EndAt(t, top, s, i)),
      seq(|s|, i requires 0 <= i < |s| => info(s[i]).kind),
      seq(|s|, i requires 0 <= i < |s| => info(s[i]).name),
      seq(|s|, i requires 0 <= i < |s| => info(s[i]).value),
      seq(|s|, i requires 0 <= i < |s| => info(s[i]).attrs))
  }

  lemma NumberedAt<N>(t: Tree<N>, top: N, s: seq<N>, info: N -> Label, i: nat)
    requires Lists(t, top, s) && i < |s|
    ensures var d := Numbered(t, top, s, info);
            && d.Size() == |s| && |d.end| == |s| && d.parent[i] == ParentAt(t, top, s, i) && d.end[i] == EndAt(t, top, s, i)
  {
    hide Lists, ParentAt, EndAt;
  }

  /** What validity asks of node j alone. */
  predicate PlacedAt(d: Documents.Doc, j: nat)
    requires |d.parent| == |d.end| && j < |d.parent|
  {
    j < d.end[j] <= |d.parent| && (j > 0 ==> 0 <= d.parent[j] < j < d.end[d.parent[j]])
  }

  /** What it asks of nodes i and j together. */
  predicate NestedAt(d: Documents.Doc, i: nat, j: nat)
    requires |d.parent| == |d.end| && i < |d.parent| && j < |d.parent|
  {
    i < j < d.end[i] ==> i <= d.parent[j] && d.end[j] <= d.end[i]
  }

  lemma MakeValid(d: Documents.Doc)
    requires 0 < |d.parent| == |d.end| == |d.kind| == |d.name| == |d.value| == |d.attrs|
    requires d.parent[0] == -1 && d.end[0] == |d.parent|
    requires forall j :: 0 <= j < |d.parent| ==> PlacedAt(d, j)
    requires forall i, j :: 0 <= i < |d.parent| && 0 <= j < |d.parent| ==> NestedAt(d, i, j)
    ensures d.Valid()
  {
    hide PlacedAt, NestedAt;
    forall j | 0 <= j < |d.parent|
      ensures j < d.end[j] <= |d.parent| && (j > 0 ==> 0 <= d.parent[j] < j < d.end[d.parent[j]])
    {
      Placed(d, j);
    }
    forall i, j {:trigger d.end[i], d.parent[j]} {:trigger d.end[i], d.end[j]} | 0 <= i < j < |d.parent| && j < d.end[i]
      ensures i <= d.parent[j] && d.end[j] <= d.end[i]
    {
      Nested(d, i, j);
    }
  }

  lemma Placed(d: Documents.Doc, j: nat)
    requires |d.parent| == |d.end| && j < |d.parent| && PlacedAt(d, j)
    ensures j < d.end[j] <= |d.parent| && (j > 0 ==> 0 <= d.parent[j] < j < d.end[d.parent[j]])
  {
  }

  lemma Nested(d: Documents.Doc, i: nat, j: nat)
    requires |d.parent| == |d.end| && i < j < |d.parent| && j < d.end[i] && NestedAt(d, i, j)
    ensures i <= d.parent[j] && d.end[j] <= d.end[i]
  {
  }

  /** Any tree, numbered, is a valid document. */
  lemma NumberedValid<N>(t: Tree<N>, top: N, s: seq<N>, info: N -> Label)
    requires Lists(t, top, s)
    ensures Numbered(t, top, s, info).Valid()
  {
    hide Lists, ParentAt, EndAt, Numbered, PlacedAt, NestedAt, Documents.Doc.Valid;
    var d := Numbered(t, top, s, info);
    RootSpan(t, top, s);
    NumberedSizes(t, top, s, info);
    NumberedAt(t, top, s, info, 0);
    forall j | 0 <= j < |s|
      ensures PlacedAt(d, j)
    {
      NumberedPlace(t, top, s, info, j);
    }
    forall i, j | 0 <= i < |s| && 0 <= j < |s|
      ensures NestedAt(d, i, j)
    {
      NumberedNested(t, top, s, info, i, j);
    }
    MakeValid(d);
  }

  lemma NumberedNested<N>(t: Tree<N>, top: N, s: seq<N>, info: N -> Label, i: nat, j: nat)
    requires Lists(t, top, s) && i < |s| && j < |s|
    ensures var d := Numbered(t, top, s, info); |d.parent| == |d.end| == |s| && NestedAt(d, i, j)
  {
    hide Lists, ParentAt, EndAt, Numbered;
    NumberedSizes(t, top, s, info);
    NumberedAt(t, top, s, info, i);
    NumberedAt(t, top, s, info, j);
    if i < j < EndAt(t, top, s, i) {
      NestedParent(t, top, s, i, j);
      NestedEnd(t, top, s, i, j);
    }
  }

  lemma NumberedSizes<N>(t: Tree<N>, top: N, s: seq<N>, info: N -> Label)
    requires Lists(t, top, s)
    ensures var d := Numbered(t, top, s, info);
            |d.parent| == |d.end| == |d.kind| == |d.name| == |d.value| == |d.attrs| == |s|
  {
    hide Lists, ParentAt, EndAt;
  }

  lemma NumberedPlace<N>(t: Tree<N>, top: N, s: seq<N>, info: N -> Label, j: nat)
    requires Lists(t, top, s) && j < |s|
    ensures var d := Numbered(t, top, s, info);
            |d.parent| == |d.end| == |s| && PlacedAt(d, j)
  {
    hide Lists, ParentAt, EndAt, Numbered;
    NumberedSizes(t, top, s, info);
    NumberedAt(t, top, s, info, j);
    Span(t, top, s, j);
    ParentPlace(t, top, s, j);
    if j > 0 {
      NumberedAt(t, top, s, info, ParentAt(t, top, s, j));
    }
  }

  lemma RootSpan<N>(t: Tree<N>, top: N, s: seq<N>)
    requires Lists(t, top, s)
    ensures |s| > 0 && ParentAt(t, top, s, 0) == -1 && EndAt(t, top, s, 0) == |s| && s[0] == top
  {
    assert s[0] == top;
    ParentPlace(t, top, s, 0);
  }

  // ----- children in the listing

  lemma {:induction false} PreKidsPrefix<N>(t: Tree<N>, tops: set<N>, n: N, i: nat, m: nat)
    requires Forest(t, tops) && n in t.kids && i <= m <= |t.kids[n]|
    ensures PreKids(t, tops, n, i) <= PreKids(t, tops, n, m)
    decreases m
  {
    hide Forest, Pre, Below, Subtree;
    if i < m {
      PreKidsPrefix(t, tops, n, i, m - 1);
      ChildSubtree(t, tops, n, m - 1);
      KidIn(t, tops, n, m - 1);
    }
  }

  /** Where the k-th child stands in its parent's listing, and where its subtree ends. */
  lemma KidPlace<N>(t: Tree<N>, tops: set<N>, n: N, k: nat)
    requires Forest(t, tops) && n in t.kids && k < |t.kids[n]|
    ensures var at := 1 + |PreKids(t, tops, n, k)|;
            && t.kids[n][k] in t.kids && at < |Pre(t, tops, n)| && Pre(t, tops, n)[at] == t.kids[n][k]
            && at + |Pre(t, tops, t.kids[n][k])| == 1 + |PreKids(t, tops, n, k + 1)| <= |Pre(t, tops, n)|
  {
    hide Forest, Below, Subtree;
    ChildSubtree(t, tops, n, k);
    KidIn(t, tops, n, k);
    var m := |t.kids[n]|;
    PreKidsPrefix(t, tops, n, k + 1, m);
    var kid := Pre(t, tops, t.kids[n][k]);
    assert PreKids(t, tops, n, k + 1) == PreKids(t, tops, n, k) + kid;
    assert kid[0] == t.kids[n][k];
    assert PreKids(t, tops, n, m)[|PreKids(t, tops, n, k)|] == kid[0];
  }

  /** The k-th child of the node at q, in the whole listing. */
  lemma KidAt<N>(t: Tree<N>, top: N, s: seq<N>, q: nat, k: nat)
    requires Lists(t, top, s) && q < |s| && s[q] in t.kids && k < |t.kids[s[q]]|
    ensures var at := q + 1 + |PreKids(t, {top}, s[q], k)|;
            && q < at < EndAt(t, top, s, q) <= |s| && s[at] == t.kids[s[q]][k]
            && EndAt(t, top, s, at) == q + 1 + |PreKids(t, {top}, s[q], k + 1)|
  {
    hide Forest, Below, Pre, PreKids, NoDup;
    Span(t, top, s, q);
    KidPlace(t, {top}, s[q], k);
    var at := 1 + |PreKids(t, {top}, s[q], k)|;
    assert s[q + at] == s[q..EndAt(t, top, s, q)][at];
  }

  lemma NoKids<N>(t: Tree<N>, top: N, s: seq<N>, q: nat)
    requires Lists(t, top, s) && q < |s| && s[q] in t.kids
    ensures EndAt(t, top, s, q) == q + 1 + |PreKids(t, {top}, s[q], |t.kids[s[q]]|)|
    ensures PreKids(t, {top}, s[q], 0) == []
  {
  }

  // ----- the links

  /** A link in the numbering names the same node, or none. */
  predicate Names<N(==)>(s: seq<N>, i: int, x: seq<N>) {
    if i == Walkers.NoNode then x == [] else 0 <= i < |s| && x == [s[i]]
  }

  ghost function FirstOf<N>(t: Tree<N>, x: N): seq<N>
    requires x in t.kids
  {
    if t.kids[x] == [] then [] else [t.kids[x][0]]
  }

  /** The sibling after the k-th child of p. */
  ghost function NextOf<N>(t: Tree<N>, p: N, k: nat): seq<N>
    requires p in t.kids
  {
    if k + 1 < |t.kids[p]| then [t.kids[p][k + 1]] else []
  }

  lemma FirstChildNamed<N>(t: Tree<N>, top: N, s: seq<N>, info: N -> Label, i: nat)
    requires Lists(t, top, s) && i < |s| && Numbered(t, top, s, info).Valid()
    ensures s[i] in t.kids && Names(s, Walkers.FirstChild(Numbered(t, top, s, info), i), FirstOf(t, s[i]))
  {
    hide Lists, ParentAt, EndAt, PreKids, Numbered, Documents.Doc.Valid;
    NumberedAt(t, top, s, info, i);
    Span(t, top, s, i);
    NoKids(t, top, s, i);
    if t.kids[s[i]] != [] {
      KidAt(t, top, s, i, 0);
    }
  }

  lemma NextSiblingNamed<N>(t: Tree<N>, top: N, s: seq<N>, info: N -> Label, q: nat, k: nat)
    requires Lists(t, top, s) && q < |s| && s[q] in t.kids && k < |t.kids[s[q]]| && Numbered(t, top, s, info).Valid()
    ensures var i := q + 1 + |PreKids(t, {top}, s[q], k)|;
            && i < |s| && s[i] == t.kids[s[q]][k]
            && Names(s, Walkers.NextSibling(Numbered(t, top, s, info), i), NextOf(t, s[q], k))
  {
    hide Forest, Pre, NoDup, PreKids, ParentAt, EndAt, Numbered, Documents.Doc.Valid;
    Documents.Bounds(Numbered(t, top, s, info));
    var i := q + 1 + |PreKids(t, {top}, s[q], k)|;
    KidAt(t, top, s, q, k);
    ParentIs(t, top, s, q, k, i);
    NumberedAt(t, top, s, info, i);
    NumberedAt(t, top, s, info, q);
    NoKids(t, top, s, q);
    if k + 1 < |t.kids[s[q]]| {
      KidAt(t, top, s, q, k + 1);
    }
  }

  lemma ParentIs<N>(t: Tree<N>, top: N, s: seq<N>, q: nat, k: nat, i: nat)
    requires Lists(t, top, s) && q < i < |s| && s[q] in t.kids && k < |t.kids[s[q]]| && s[i] == t.kids[s[q]][k]
    ensures ParentAt(t, top, s, i) == q
  {
    KidIn(t, {top}, s[q], k);
    ParentPlace(t, top, s, i);
    Only(s, q);
  }

  /** A node listed under q is one of q's children, at that child's place. */
  lemma WhichChild<N>(t: Tree<N>, top: N, s: seq<N>, q: nat, j: nat) returns (k: nat)
    requires Lists(t, top, s) && j < |s| && q < |s| && ParentAt(t, top, s, j) == q
    ensures s[q] in t.kids && k < |t.kids[s[q]]| && s[j] == t.kids[s[q]][k] && j == q + 1 + |PreKids(t, {top}, s[q], k)|
  {
    ParentPlace(t, top, s, j);
    assert s[q] in Elems(s) && s[j] in t.kids[s[q]];
    k := Place(t.kids[s[q]], s[j]);
    KidAt(t, top, s, q, k);
    Only(s, j);
  }

  /** The cyclic back link: the child before, or the last child for the first one. */
  ghost function BackOf<N>(t: Tree<N>, p: N, k: nat): seq<N>
    requires p in t.kids && k < |t.kids[p]|
  {
    [t.kids[p][if k == 0 then |t.kids[p]| - 1 else k - 1]]
  }

  lemma FirstHasPlace<N>(t: Tree<N>, top: N, s: seq<N>, q: nat, k: nat)
    requires Lists(t, top, s) && q < |s| && s[q] in t.kids && k < |t.kids[s[q]]|
    ensures |PreKids(t, {top}, s[q], k)| == 0 <==> k == 0
  {
    if k > 0 {
      KidPlace(t, {top}, s[q], k - 1);
    }
  }

  lemma LastNamed<N>(t: Tree<N>, top: N, s: seq<N>, info: N -> Label, q: nat, b: nat)
    requires Lists(t, top, s) && q < |s| && b < |s| && ParentAt(t, top, s, b) == q && Numbered(t, top, s, info).Valid()
    requires Walkers.NextSibling(Numbered(t, top, s, info), b) == Walkers.NoNode
    ensures s[q] in t.kids && t.kids[s[q]] != [] && s[b] == t.kids[s[q]][|t.kids[s[q]]| - 1]
  {
    hide Forest, Pre, NoDup, PreKids, ParentAt, EndAt, Walkers.NextSibling, Numbered, Documents.Doc.Valid;
    var j := WhichChild(t, top, s, q, b);
    NextSiblingNamed(t, top, s, info, q, j);
  }

  lemma BeforeNamed<N>(t: Tree<N>, top: N, s: seq<N>, info: N -> Label, q: nat, b: nat, k: nat)
    requires Lists(t, top, s) && q < |s| && b < |s| && ParentAt(t, top, s, b) == q && Numbered(t, top, s, info).Valid()
    requires s[q] in t.kids && k < |t.kids[s[q]]|
    requires var n := Walkers.NextSibling(Numbered(t, top, s, info), b); 0 <= n < |s| && s[n] == t.kids[s[q]][k]
    ensures k > 0 && s[b] == t.kids[s[q]][k - 1]
  {
    hide Pre, NoDup, PreKids, ParentAt, EndAt, Walkers.NextSibling, Numbered, Forest, Documents.Doc.Valid;
    var j := WhichChild(t, top, s, q, b);
    NextSiblingNamed(t, top, s, info, q, j);
    assert j + 1 < |t.kids[s[q]]| && t.kids[s[q]][j + 1] == t.kids[s[q]][k];
    OnlyChild(t, {top}, s[q], j + 1, k);
  }

  lemma BackNamed<N>(t: Tree<N>, top: N, s: seq<N>, info: N -> Label, q: nat, k: nat)
    requires Lists(t, top, s) && q < |s| && s[q] in t.kids && k < |t.kids[s[q]]| && Numbered(t, top, s, info).Valid()
    ensures var i := q + 1 + |PreKids(t, {top}, s[q], k)|;
            && i < |s| && s[i] == t.kids[s[q]][k]
            && Names(s, Walkers.PrevSiblingC(Numbered(t, top, s, info), i), BackOf(t, s[q], k))
  {
    hide Forest, Pre, NoDup, PreKids, ParentAt, EndAt, Numbered, Walkers.NextSibling, Walkers.PrevSiblingC, Documents.Doc.Valid;
    var d := Numbered(t, top, s, info);
    var i := q + 1 + |PreKids(t, {top}, s[q], k)|;
    KidAt(t, top, s, q, k);
    ParentIs(t, top, s, q, k, i);
    FirstHasPlace(t, top, s, q, k);
    NumberedAt(t, top, s, info, i);
    assert d.parent[i] == q && (i == q + 1 <==> k == 0);
    Walkers.PrevSiblingLink(d, i);
    BackParent(d, i);
    var b := Walkers.PrevSiblingC(d, i);
    NumberedAt(t, top, s, info, b);
    assert ParentAt(t, top, s, b) == d.parent[b] == q;
    if k == 0 {
      LastNamed(t, top, s, info, q, b);
    } else {
      NextIs(d, b, i);
      BeforeNamed(t, top, s, info, q, b, k);
    }
  }

  lemma OnlyChild<N>(t: Tree<N>, tops: set<N>, p: N, a: nat, b: nat)
    requires Forest(t, tops) && p in t.kids && a < |t.kids[p]| && b < |t.kids[p]| && t.kids[p][a] == t.kids[p][b]
    ensures a == b
  {
  }

  lemma BackParent(d: Documents.Doc, i: nat)
    requires d.Valid() && i < d.Size()
    ensures d.parent[Walkers.PrevSiblingC(d, i)] == d.parent[i]
  {
  }

  lemma NextIs(d: Documents.Doc, b: nat, i: nat)
    requires d.Valid() && b < d.Size() && i < d.Size() && d.end[b] == i && Walkers.NextSibling(d, b) != Walkers.NoNode
    ensures Walkers.NextSibling(d, b) == i
  {
  }
}
