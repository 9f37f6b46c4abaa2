/** The axis walks over the parent, child and sibling links of a document. */
module Walkers {
  import opened Sequences
  import opened Documents
  import opened Axes

  // ----- links

  /** Absent link. */
  const NoNode: int := -1

  function FirstChild(d: Doc, i: nat): int
    requires d.Valid() && i < d.Size()
  {
    if i + 1 < d.end[i] then i + 1 else NoNode
  }

  function NextSibling(d: Doc, i: nat): int
    requires d.Valid() && i < d.Size()
  {
    if d.parent[i] >= 0 && d.end[i] < d.end[d.parent[i]] then d.end[i] else NoNode
  }

  lemma FirstChildLink(d: Doc, i: nat)
    requires d.Valid() && i < d.Size()
    ensures FirstChild(d, i) != NoNode ==> d.parent[FirstChild(d, i)] == i
    ensures FirstChild(d, i) == NoNode ==> d.end[i] == i + 1
  {
  }

  lemma NextSiblingLink(d: Doc, i: nat)
    requires d.Valid() && i < d.Size()
    ensures NextSibling(d, i) != NoNode ==> d.end[i] < d.Size() && d.parent[d.end[i]] == d.parent[i]
    ensures NextSibling(d, i) == NoNode && d.parent[i] >= 0 ==> d.end[i] == d.end[d.parent[i]]
  {
    if NextSibling(d, i) != NoNode {
      var p, s := d.parent[i], d.end[i];
      assert d.end[p] <= d.Size();
      assert p <= d.parent[s];
      var q := d.parent[s];
      assert s < d.end[q];
      assert q < i ==> q <= p;
    } else if d.parent[i] >= 0 {
      assert i > 0 && i < d.end[d.parent[i]];
    }
  }

  /** The last node of the sibling chain that starts at i. */
  function LastSibling(d: Doc, i: nat): (k: nat)
    requires d.Valid() && i < d.Size()
    ensures i <= k < d.Size() && d.parent[k] == d.parent[i] && NextSibling(d, k) == NoNode
    decreases d.Size() - i
  {
    NextSiblingLink(d, i);
    if NextSibling(d, i) == NoNode then i else LastSibling(d, NextSibling(d, i))
  }

  /** The sibling whose subtree ends where i begins, searched from an earlier sibling j. */
  function SiblingBefore(d: Doc, j: nat, i: nat): (k: nat)
    requires d.Valid() && j < i < d.Size() && d.parent[j] == d.parent[i] >= 0
    ensures j <= k < i && d.parent[k] == d.parent[i] && d.end[k] == i
    decreases i - j
  {
    NextSiblingLink(d, j);
    SiblingsApart(d, j, i);
    if d.end[j] == i then j else SiblingBefore(d, d.end[j], i)
  }

  /** Siblings do not overlap. */
  lemma SiblingsApart(d: Doc, j: nat, i: nat)
    requires d.Valid() && j < i < d.Size() && d.parent[j] == d.parent[i] >= 0
    ensures d.end[j] <= i && NextSibling(d, j) == d.end[j]
  {
    assert i < d.end[d.parent[i]];
  }

  /** The cyclic back link: the previous sibling, or the last one for a first child. */
  function PrevSiblingC(d: Doc, i: nat): (k: nat)
    requires d.Valid() && i < d.Size()
    ensures k < d.Size()
  {
    if d.parent[i] < 0 || i == d.parent[i] + 1 then LastSibling(d, i)
    else
      FirstChildLink(d, d.parent[i]);
      SiblingBefore(d, d.parent[i] + 1, i)
  }

  /** The back link of a first child has no next sibling; any other back link is the node just before. */
  lemma PrevSiblingLink(d: Doc, i: nat)
    requires d.Valid() && i < d.Size()
    ensures NextSibling(d, PrevSiblingC(d, i)) == NoNode <==> d.parent[i] < 0 || i == d.parent[i] + 1
    ensures NextSibling(d, PrevSiblingC(d, i)) != NoNode ==>
              d.end[PrevSiblingC(d, i)] == i && d.parent[PrevSiblingC(d, i)] == d.parent[i]
  {
    if !(d.parent[i] < 0 || i == d.parent[i] + 1) {
      SiblingsApart(d, PrevSiblingC(d, i), i);
    }
  }

  // ----- what a walk must collect

  predicate Hit(d: Doc, axis: Axis, test: NodeTest, i: nat, j: nat)
    requires d.Valid() && i < d.Size() && j < d.Size()
  {
    Reaches(d, axis, i, j) && TestNode(d, test, j)
  }

  /** Hits in [lo, hi), upwards. */
  function Up(d: Doc, axis: Axis, test: NodeTest, i: nat, lo: nat, hi: nat): seq<XNode>
    requires d.Valid() && i < d.Size() && hi <= d.Size()
  {
    if hi <= lo then []
    else Up(d, axis, test, i, lo, hi - 1) + (if Hit(d, axis, test, i, hi - 1) then [N(hi - 1)] else [])
  }

  /** Hits in [lo, hi), downwards. */
  function Down(d: Doc, axis: Axis, test: NodeTest, i: nat, lo: nat, hi: nat): seq<XNode>
    requires d.Valid() && i < d.Size() && hi <= d.Size()
    decreases hi - lo
  {
    if hi <= lo then []
    else Down(d, axis, test, i, lo + 1, hi) + (if Hit(d, axis, test, i, lo) then [N(lo)] else [])
  }

  lemma {:induction false} UpMembers(d: Doc, axis: Axis, test: NodeTest, i: nat, lo: nat, hi: nat)
    requires d.Valid() && i < d.Size() && hi <= d.Size()
    ensures Ascending(Up(d, axis, test, i, lo, hi))
    ensures forall x :: x in Up(d, axis, test, i, lo, hi) <==> x.N? && lo <= x.i < hi && Hit(d, axis, test, i, x.i)
    decreases hi
  {
    hide Hit, Doc.Valid;
    if lo < hi {
      UpMembers(d, axis, test, i, lo, hi - 1);
    }
  }

  lemma {:induction false} DownMembers(d: Doc, axis: Axis, test: NodeTest, i: nat, lo: nat, hi: nat)
    requires d.Valid() && i < d.Size() && hi <= d.Size()
    ensures Descending(Down(d, axis, test, i, lo, hi))
    ensures forall x :: x in Down(d, axis, test, i, lo, hi) <==> x.N? && lo <= x.i < hi && Hit(d, axis, test, i, x.i)
    decreases hi - lo
  {
    hide Hit, Doc.Valid;
    if lo < hi {
      DownMembers(d, axis, test, i, lo + 1, hi);
    }
  }

  lemma {:induction false} UpSkip(d: Doc, axis: Axis, test: NodeTest, i: nat, lo: nat, mid: nat, hi: nat)
    requires d.Valid() && i < d.Size() && lo <= mid <= hi <= d.Size()
    requires forall j :: mid <= j < hi ==> !Hit(d, axis, test, i, j)
    ensures Up(d, axis, test, i, lo, hi) == Up(d, axis, test, i, lo, mid)
    decreases hi
  {
    hide Hit, Doc.Valid;
    if mid < hi {
      UpSkip(d, axis, test, i, lo, mid, hi - 1);
    }
  }

  lemma {:induction false} DownSkip(d: Doc, axis: Axis, test: NodeTest, i: nat, lo: nat, mid: nat, hi: nat)
    requires d.Valid() && i < d.Size() && lo <= mid <= hi <= d.Size()
    requires forall j :: lo <= j < mid ==> !Hit(d, axis, test, i, j)
    ensures Down(d, axis, test, i, lo, hi) == Down(d, axis, test, i, mid, hi)
    decreases mid - lo
  {
    hide Hit, Doc.Valid;
    if lo < mid {
      DownSkip(d, axis, test, i, lo + 1, mid, hi);
    }
  }

  /** Later hits come after earlier ones. */
  lemma {:induction false} UpPrefix(d: Doc, axis: Axis, test: NodeTest, i: nat, lo: nat, mid: nat, hi: nat)
    requires d.Valid() && i < d.Size() && lo <= mid <= hi <= d.Size()
    ensures Up(d, axis, test, i, lo, mid) <= Up(d, axis, test, i, lo, hi)
    decreases hi
  {
    hide Hit, Doc.Valid;
    if mid < hi {
      UpPrefix(d, axis, test, i, lo, mid, hi - 1);
    }
  }

  lemma {:induction false} DownPrefix(d: Doc, axis: Axis, test: NodeTest, i: nat, lo: nat, mid: nat, hi: nat)
    requires d.Valid() && i < d.Size() && lo <= mid <= hi <= d.Size()
    ensures Down(d, axis, test, i, mid, hi) <= Down(d, axis, test, i, lo, hi)
    decreases mid - lo
  {
    hide Hit, Doc.Valid;
    if lo < mid {
      DownPrefix(d, axis, test, i, lo + 1, mid, hi);
    }
  }

  lemma SelectsIsHit(d: Doc, axis: Axis, test: NodeTest, i: nat, y: XNode)
    requires d.Valid() && i < d.Size() && axis != Attribute
    ensures Selects(d, axis, test, N(i), y) <==> y.N? && y.i < d.Size() && Hit(d, axis, test, i, y.i)
  {
  }

  lemma DescendingUnique(s: seq<XNode>, t: seq<XNode>)
    requires Descending(s) && Descending(t) && Elems(s) == Elems(t)
    ensures s == t
  {
    hide Ascending, Descending;
    DescendingReverse(s);
    DescendingReverse(t);
    ElemsReverse(s);
    ElemsReverse(t);
    AscendingUnique(Reverse(s), Reverse(t));
    assert forall k :: 0 <= k < |s| ==> s[k] == Reverse(s)[|s| - 1 - k] == t[k];
  }

  /** The full walk of a node: all hits, in axis order. */
  lemma WalkIsStep(d: Doc, axis: Axis, test: NodeTest, i: nat)
    requires d.Valid() && i < d.Size() && axis != Attribute
    ensures StepNodes(d, axis, test, N(i)) ==
            if IsReverse(axis) then Down(d, axis, test, i, 0, d.Size()) else Up(d, axis, test, i, 0, d.Size())
  {
    hide Up, Down, StepNodes, Selects, Hit, Ascending, Descending, IsReverse, Doc.Valid;
    var s := StepNodes(d, axis, test, N(i));
    StepNodesOrdered(d, axis, test, N(i));
    UpMembers(d, axis, test, i, 0, d.Size());
    DownMembers(d, axis, test, i, 0, d.Size());
    var t := if IsReverse(axis) then Down(d, axis, test, i, 0, d.Size()) else Up(d, axis, test, i, 0, d.Size());
    forall y ensures y in s <==> y in t {
      SelectsIsHit(d, axis, test, i, y);
    }
    if IsReverse(axis) {
      DescendingUnique(s, t);
    } else {
      AscendingUnique(s, t);
    }
  }

  /** One more visited node, upwards. */
  lemma UpStep(d: Doc, axis: Axis, test: NodeTest, i: nat, cur: nat)
    requires d.Valid() && i < d.Size() && cur < d.Size()
    ensures Up(d, axis, test, i, 0, cur + 1) ==
            Up(d, axis, test, i, 0, cur) + (if Hit(d, axis, test, i, cur) then [N(cur)] else [])
  {
    hide Doc.Valid, Hit;
  }

  /** One more visited node, downwards. */
  lemma DownStep(d: Doc, axis: Axis, test: NodeTest, i: nat, cur: nat)
    requires d.Valid() && i < d.Size() && cur < d.Size()
    ensures Down(d, axis, test, i, cur, d.Size()) ==
            Down(d, axis, test, i, cur + 1, d.Size()) + (if Hit(d, axis, test, i, cur) then [N(cur)] else [])
  {
    hide Doc.Valid, Hit;
  }

  lemma UpNone(d: Doc, axis: Axis, test: NodeTest, i: nat, hi: nat)
    requires d.Valid() && i < d.Size() && hi <= d.Size()
    requires forall j :: 0 <= j < hi ==> !Hit(d, axis, test, i, j)
    ensures Up(d, axis, test, i, 0, hi) == []
  {
    hide Doc.Valid, Hit;
    UpSkip(d, axis, test, i, 0, 0, hi);
  }

  lemma DownNone(d: Doc, axis: Axis, test: NodeTest, i: nat, lo: nat)
    requires d.Valid() && i < d.Size() && lo <= d.Size()
    requires forall j :: lo <= j < d.Size() ==> !Hit(d, axis, test, i, j)
    ensures Down(d, axis, test, i, lo, d.Size()) == []
  {
    hide Doc.Valid, Hit;
    DownSkip(d, axis, test, i, lo, d.Size(), d.Size());
  }

  /** The first hit of an upward walk is all a stopped walk collects. */
  lemma StopUp(d: Doc, axis: Axis, test: NodeTest, i: nat, cur: nat)
    requires d.Valid() && i < d.Size() && cur < d.Size() && axis != Attribute && !IsReverse(axis)
    requires Up(d, axis, test, i, 0, cur) == [] && Hit(d, axis, test, i, cur)
    ensures [N(cur)] == Head(StepNodes(d, axis, test, N(i)))
  {
    hide Doc.Valid, Hit, StepNodes;
    WalkIsStep(d, axis, test, i);
    UpStep(d, axis, test, i, cur);
    UpPrefix(d, axis, test, i, 0, cur + 1, d.Size());
  }

  lemma StopDown(d: Doc, axis: Axis, test: NodeTest, i: nat, cur: nat)
    requires d.Valid() && i < d.Size() && cur < d.Size() && IsReverse(axis)
    requires Down(d, axis, test, i, cur + 1, d.Size()) == [] && Hit(d, axis, test, i, cur)
    ensures [N(cur)] == Head(StepNodes(d, axis, test, N(i)))
  {
    hide Doc.Valid, Hit, StepNodes;
    WalkIsStep(d, axis, test, i);
    DownStep(d, axis, test, i, cur);
    DownPrefix(d, axis, test, i, 0, cur, d.Size());
  }

  // ----- the walks

  /** No child or sibling of i starts inside the subtree of one. */
  lemma InsideSibling(d: Doc, axis: Axis, test: NodeTest, i: nat, c: nat)
    requires d.Valid() && i < d.Size() && c < d.Size()
    requires (axis == Child && d.parent[c] == i) || (axis == FollowingSibling && i <= c && d.parent[c] == d.parent[i])
    ensures forall j :: c + 1 <= j < d.end[c] ==> !Hit(d, axis, test, i, j)
  {
  }

  /** Visiting one child or following sibling accounts for its whole subtree. */
  lemma VisitSibling(d: Doc, axis: Axis, test: NodeTest, i: nat, c: nat)
    requires d.Valid() && i < d.Size() && c < d.Size()
    requires (axis == Child && d.parent[c] == i) || (axis == FollowingSibling && i < c && d.parent[c] == d.parent[i])
    ensures Hit(d, axis, test, i, c) <==> TestNode(d, test, c)
    ensures Up(d, axis, test, i, 0, d.end[c]) == Up(d, axis, test, i, 0, c) + (if TestNode(d, test, c) then [N(c)] else [])
  {
    hide Up, TestNode;
    UpStep(d, axis, test, i, c);
    InsideSibling(d, axis, test, i, c);
    UpSkip(d, axis, test, i, 0, c + 1, d.end[c]);
  }

  method WalkChildren(d: Doc, test: NodeTest, i: nat, once: bool) returns (r: seq<XNode>)
    requires d.Valid() && i < d.Size()
    ensures r == Stop(StepNodes(d, Child, test, N(i)), once)
  {
    hide Up, Down, StepNodes, NextSibling, Hit, TestNode, Doc.Valid;
    Bounds(d);
    WalkIsStep(d, Child, test, i);
    r := [];
    var c := FirstChild(d, i);
    NoChildOutside(d, test, i);
    UpNone(d, Child, test, i, i + 1);
    FirstChildLink(d, i);
    while c != NoNode
      invariant c == NoNode || (0 <= c < d.Size() && d.parent[c] == i)
      invariant r == Up(d, Child, test, i, 0, if c == NoNode then d.end[i] else c)
      invariant once ==> r == []
      decreases if c == NoNode then 0 else d.Size() - c
    {
      VisitSibling(d, Child, test, i, c);
      if TestNode(d, test, c) {
        if once {
          StopUp(d, Child, test, i, c);
          return [N(c)];
        }
        r := r + [N(c)];
      }
      NextSiblingLink(d, c);
      NextSiblingIs(d, c);
      c := NextSibling(d, c);
    }
    UpSkip(d, Child, test, i, 0, d.end[i], d.Size());
  }

  lemma NoChildOutside(d: Doc, test: NodeTest, i: nat)
    requires d.Valid() && i < d.Size()
    ensures forall j :: 0 <= j < d.Size() && !Below(d, i, j) ==> !Hit(d, Child, test, i, j)
  {
  }

  lemma NextSiblingIs(d: Doc, i: nat)
    requires d.Valid() && i < d.Size()
    ensures NextSibling(d, i) == NoNode || NextSibling(d, i) == d.end[i]
  {
  }

  method WalkFollowingSiblings(d: Doc, test: NodeTest, i: nat, once: bool) returns (r: seq<XNode>)
    requires d.Valid() && i < d.Size()
    ensures r == Stop(StepNodes(d, FollowingSibling, test, N(i)), once)
  {
    hide Up, Down, StepNodes, NextSibling, Hit, TestNode, Doc.Valid;
    Bounds(d);
    WalkIsStep(d, FollowingSibling, test, i);
    r := [];
    NextSiblingLink(d, i);
    NextSiblingIs(d, i);
    var c := NextSibling(d, i);
    ghost var last := if d.parent[i] < 0 then d.Size() else d.end[d.parent[i]];
    RootEnds(d);
    NoSiblingBefore(d, test, i);
    UpNone(d, FollowingSibling, test, i, d.end[i]);
    while c != NoNode
      invariant c == NoNode || (i < c < d.Size() && d.parent[c] == d.parent[i])
      invariant r == Up(d, FollowingSibling, test, i, 0, if c == NoNode then last else c)
      invariant once ==> r == []
      decreases if c == NoNode then 0 else d.Size() - c
    {
      VisitSibling(d, FollowingSibling, test, i, c);
      if TestNode(d, test, c) {
        if once {
          StopUp(d, FollowingSibling, test, i, c);
          return [N(c)];
        }
        r := r + [N(c)];
      }
      NextSiblingLink(d, c);
      NextSiblingIs(d, c);
      c := NextSibling(d, c);
    }
    NoSiblingAfter(d, test, i);
    UpSkip(d, FollowingSibling, test, i, 0, last, d.Size());
  }

  lemma RootEnds(d: Doc)
    requires d.Valid()
    ensures d.end[0] == d.Size() && forall i :: 0 <= i < d.Size() && d.parent[i] < 0 ==> i == 0
  {
  }

  lemma NoSiblingBefore(d: Doc, test: NodeTest, i: nat)
    requires d.Valid() && i < d.Size()
    ensures forall j :: 0 <= j < d.end[i] ==> !Hit(d, FollowingSibling, test, i, j)
  {
  }

  lemma NoSiblingAfter(d: Doc, test: NodeTest, i: nat)
    requires d.Valid() && i < d.Size()
    ensures forall j :: (if d.parent[i] < 0 then d.Size() else d.end[d.parent[i]]) <= j < d.Size() ==>
              !Hit(d, FollowingSibling, test, i, j)
  {
  }

  /** No sibling starts inside the subtree of an earlier one. */
  lemma InsidePreceding(d: Doc, test: NodeTest, i: nat, c: nat)
    requires d.Valid() && i < d.Size() && c < i && d.parent[c] == d.parent[i]
    ensures forall j :: c + 1 <= j < d.end[c] ==> !Hit(d, PrecedingSibling, test, i, j)
  {
  }

  method WalkPrecedingSiblings(d: Doc, test: NodeTest, i: nat, once: bool) returns (r: seq<XNode>)
    requires d.Valid() && i < d.Size()
    ensures r == Stop(StepNodes(d, PrecedingSibling, test, N(i)), once)
  {
    hide Up, Down, StepNodes, NextSibling, PrevSiblingC, Doc.Valid;
    Bounds(d);
    WalkIsStep(d, PrecedingSibling, test, i);
    r := [];
    DownNone(d, PrecedingSibling, test, i, i);
    ghost var done := i;
    var c := PrevSiblingC(d, i);
    while NextSibling(d, c) != NoNode
      invariant 0 <= c < d.Size() && 0 <= done <= i && d.parent[done] == d.parent[i]
      invariant c == PrevSiblingC(d, done)
      invariant r == Down(d, PrecedingSibling, test, i, done, d.Size())
      invariant once ==> r == []
      decreases done
    {
      PrevSiblingLink(d, done);
      InsidePreceding(d, test, i, c);
      DownSkip(d, PrecedingSibling, test, i, c + 1, done, d.Size());
      if TestNode(d, test, c) {
        if once {
          StopDown(d, PrecedingSibling, test, i, c);
          return [N(c)];
        }
        r := r + [N(c)];
      }
      DownStep(d, PrecedingSibling, test, i, c);
      done := c;
      c := PrevSiblingC(d, c);
    }
    PrevSiblingLink(d, done);
    DownSkip(d, PrecedingSibling, test, i, 0, done, d.Size());
  }

  /** Climb until there is a next sibling; fails at the stop node or above the root. */
  method Climb(d: Doc, start: nat, stop: int) returns (ok: bool, next: int)
    requires d.Valid() && start < d.Size() && (stop == NoNode || (0 <= stop < d.Size() && Below(d, stop, start)))
    ensures ok ==> next == d.end[start] < d.Size() && (stop != NoNode ==> next < d.end[stop])
    ensures !ok ==> d.end[start] == if stop == NoNode then d.Size() else d.end[stop]
  {
    hide Doc.Valid;
    Bounds(d);
    RootEnds(d);
    var cur: int := start;
    while NextSibling(d, cur) == NoNode
      invariant 0 <= cur <= start && d.end[cur] == d.end[start]
      invariant stop != NoNode ==> Below(d, stop, cur)
      decreases cur
    {
      NextSiblingLink(d, cur);
      if stop != NoNode {
        Nests(d, stop, cur);
      }
      cur := d.parent[cur];
      if cur == stop {
        return false, NoNode;
      }
    }
    NextSiblingLink(d, cur);
    if stop != NoNode {
      Nests(d, stop, cur);
    }
    return true, NextSibling(d, cur);
  }

  method WalkDescendants(d: Doc, test: NodeTest, i: nat, once: bool) returns (r: seq<XNode>)
    requires d.Valid() && i < d.Size()
    ensures r == Stop(StepNodes(d, Descendant, test, N(i)), once)
  {
    hide Up, Down, StepNodes, Doc.Valid;
    Bounds(d);
    WalkIsStep(d, Descendant, test, i);
    r := [];
    var cur := FirstChild(d, i);
    UpNone(d, Descendant, test, i, i + 1);
    UpSkip(d, Descendant, test, i, 0, d.end[i], d.Size());
    while cur != NoNode
      invariant cur == NoNode || (0 <= cur < d.Size() && Below(d, i, cur))
      invariant r == Up(d, Descendant, test, i, 0, if cur == NoNode then d.end[i] else cur)
      invariant once ==> r == []
      decreases if cur == NoNode then 0 else d.Size() - cur
    {
      if TestNode(d, test, cur) {
        if once {
          StopUp(d, Descendant, test, i, cur);
          return [N(cur)];
        }
        r := r + [N(cur)];
      }
      UpStep(d, Descendant, test, i, cur);
      Nests(d, i, cur);
      if FirstChild(d, cur) != NoNode {
        cur := FirstChild(d, cur);
      } else {
        FirstChildLink(d, cur);
        var ok, next := Climb(d, cur, i);
        cur := if ok then next else NoNode;
      }
    }
  }

  method WalkFollowing(d: Doc, test: NodeTest, i: nat, once: bool) returns (r: seq<XNode>)
    requires d.Valid() && i < d.Size()
    ensures r == Stop(StepNodes(d, Following, test, N(i)), once)
  {
    hide Up, Down, StepNodes, Doc.Valid;
    Bounds(d);
    WalkIsStep(d, Following, test, i);
    r := [];
    UpNone(d, Following, test, i, d.end[i]);
    var ok, next := Climb(d, i, NoNode);
    var cur := if ok then next else NoNode;
    while cur != NoNode
      invariant cur == NoNode || d.end[i] <= cur < d.Size()
      invariant r == Up(d, Following, test, i, 0, if cur == NoNode then d.Size() else cur)
      invariant once ==> r == []
      decreases if cur == NoNode then 0 else d.Size() - cur
    {
      if TestNode(d, test, cur) {
        if once {
          StopUp(d, Following, test, i, cur);
          return [N(cur)];
        }
        r := r + [N(cur)];
      }
      UpStep(d, Following, test, i, cur);
      if FirstChild(d, cur) != NoNode {
        cur := FirstChild(d, cur);
      } else {
        FirstChildLink(d, cur);
        ok, next := Climb(d, cur, NoNode);
        cur := if ok then next else NoNode;
      }
    }
  }

  method NodeIsAncestor(d: Doc, p: nat, node: nat) returns (yes: bool)
    requires d.Valid() && p < d.Size() && node < d.Size()
    ensures yes <==> p == node || Below(d, p, node)
  {
    hide Doc.Valid;
    Bounds(d);
    var cur: int := node;
    while cur != NoNode && cur != p
      invariant NoNode <= cur <= node
      invariant (p == node || Below(d, p, node)) <==> cur != NoNode && (p == cur || Below(d, p, cur))
      decreases cur
    {
      ParentStep(d, p, cur);
      cur := d.parent[cur];
    }
    yes := cur == p;
  }

  /** Being below p passes to the parent. */
  lemma ParentStep(d: Doc, p: nat, cur: nat)
    requires d.Valid() && p < d.Size() && cur < d.Size() && p != cur
    ensures Below(d, p, cur) <==> d.parent[cur] != NoNode && (p == d.parent[cur] || Below(d, p, d.parent[cur]))
  {
    if cur > 0 {
      var q := d.parent[cur];
      assert cur < d.end[q];
      if p < q < d.end[p] {
        assert d.end[q] <= d.end[p];
      }
      if p < cur < d.end[p] {
        assert p <= q;
      }
    }
  }

  method WalkAncestors(d: Doc, test: NodeTest, i: nat, once: bool) returns (r: seq<XNode>)
    requires d.Valid() && i < d.Size()
    ensures r == Stop(StepNodes(d, Ancestor, test, N(i)), once)
  {
    hide Up, Down, StepNodes, Doc.Valid;
    Bounds(d);
    WalkIsStep(d, Ancestor, test, i);
    r := [];
    DownNone(d, Ancestor, test, i, i);
    ghost var done := i;
    var cur := d.parent[i];
    while cur != NoNode
      invariant 0 <= done <= i && cur == d.parent[done] && (done == i || Below(d, done, i))
      invariant r == Down(d, Ancestor, test, i, done, d.Size())
      invariant once ==> r == []
      decreases cur
    {
      AncestorsGap(d, test, i, done);
      DownSkip(d, Ancestor, test, i, cur + 1, done, d.Size());
      ParentStep(d, cur, done);
      InParent(d, done);
      Nests(d, cur, done);
      if TestNode(d, test, cur) {
        if once {
          StopDown(d, Ancestor, test, i, cur);
          return [N(cur)];
        }
        r := r + [N(cur)];
      }
      DownStep(d, Ancestor, test, i, cur);
      done := cur;
      cur := d.parent[cur];
    }
    assert done == 0;
  }

  /** Nothing between a node and its parent is an ancestor. */
  lemma AncestorsGap(d: Doc, test: NodeTest, i: nat, done: nat)
    requires d.Valid() && i < d.Size() && done <= i && (done == i || Below(d, done, i)) && d.parent[done] != NoNode
    ensures forall j :: d.parent[done] < j < done ==> !Hit(d, Ancestor, test, i, j)
  {
    forall j | d.parent[done] < j < done
      ensures !Below(d, j, i)
    {
    }
  }

  /** Leave a node towards its predecessors: everything passed on the way up is an ancestor. */
  method ExitBackwards(d: Doc, i: nat) returns (cur: int)
    requires d.Valid() && i < d.Size()
    ensures cur == NoNode ==> forall j :: 0 <= j < i ==> Below(d, j, i)
    ensures cur != NoNode ==> 0 <= cur < d.Size() && d.end[cur] <= i && forall j :: d.end[cur] <= j < i ==> Below(d, j, i)
  {
    hide PrevSiblingC, NextSibling, Below, Doc.Valid;
    Bounds(d);
    cur := i;
    while NextSibling(d, PrevSiblingC(d, cur)) == NoNode
      invariant 0 <= cur <= i
      invariant forall j :: cur <= j < i ==> Below(d, j, i)
      decreases cur
    {
      PrevSiblingLink(d, cur);
      var up := d.parent[cur];
      if up == NoNode {
        return NoNode;
      }
      FirstChildBelow(d, i, cur);
      cur := up;
    }
    PrevSiblingLink(d, cur);
    cur := PrevSiblingC(d, cur);
  }

  /** Leaving a first child upwards passes over its parent alone, an ancestor like all before. */
  lemma FirstChildBelow(d: Doc, i: nat, cur: nat)
    requires d.Valid() && cur <= i < d.Size() && d.parent[cur] >= 0 && cur == d.parent[cur] + 1
    requires cur == i || Below(d, cur, i)
    ensures Below(d, d.parent[cur], i) && d.parent[cur] < cur
  {
    ParentStep(d, d.parent[cur], cur);
    assert d.end[cur] <= d.end[d.parent[cur]];
  }

  /** From a visited leaf, visit the ancestors left behind until one has a previous sibling. */
  method ClimbBackwards(d: Doc, test: NodeTest, i: nat, once: bool, leaf: nat, found: seq<XNode>) returns (cur: int, r: seq<XNode>)
    requires d.Valid() && i < d.Size() && leaf < i
    requires found == Down(d, Preceding, test, i, leaf, d.Size()) && (once ==> found == [])
    ensures cur == NoNode ==> r == Stop(StepNodes(d, Preceding, test, N(i)), once)
    ensures cur != NoNode ==>
              && 0 <= cur < d.Size() && d.end[cur] <= leaf
              && r == Down(d, Preceding, test, i, d.end[cur], d.Size()) && (once ==> r == [])
  {
    hide Up, Down, StepNodes, NextSibling, PrevSiblingC, Doc.Valid;
    Bounds(d);
    WalkIsStep(d, Preceding, test, i);
    cur, r := leaf, found;
    while NextSibling(d, PrevSiblingC(d, cur)) == NoNode
      invariant 0 <= cur <= leaf
      invariant r == Down(d, Preceding, test, i, cur, d.Size())
      invariant once ==> r == []
      decreases cur
    {
      PrevSiblingLink(d, cur);
      cur := d.parent[cur];
      if cur == NoNode {
        return;
      }
      var inside := NodeIsAncestor(d, cur, i);
      if !inside && TestNode(d, test, cur) {
        if once {
          StopDown(d, Preceding, test, i, cur);
          return NoNode, [N(cur)];
        }
        r := r + [N(cur)];
      }
      DownStep(d, Preceding, test, i, cur);
    }
    PrevSiblingLink(d, cur);
    cur := PrevSiblingC(d, cur);
  }

  lemma VisitLeaf(d: Doc, test: NodeTest, i: nat, cur: nat)
    requires d.Valid() && i < d.Size() && cur < i && d.end[cur] == cur + 1
    ensures Hit(d, Preceding, test, i, cur) <==> TestNode(d, test, cur)
    ensures Down(d, Preceding, test, i, cur, d.Size()) ==
            Down(d, Preceding, test, i, cur + 1, d.Size()) + (if TestNode(d, test, cur) then [N(cur)] else [])
  {
    hide Down, TestNode;
    DownStep(d, Preceding, test, i, cur);
  }

  lemma NothingPasses(d: Doc, test: NodeTest, i: nat, lo: nat)
    requires d.Valid() && i < d.Size() && lo <= i
    requires forall j :: lo <= j < i ==> Below(d, j, i)
    ensures forall j :: lo <= j < d.Size() ==> !Hit(d, Preceding, test, i, j)
  {
  }

  method WalkPreceding(d: Doc, test: NodeTest, i: nat, once: bool) returns (r: seq<XNode>)
    requires d.Valid() && i < d.Size()
    ensures r == Stop(StepNodes(d, Preceding, test, N(i)), once)
  {
    hide Up, Down, StepNodes, NextSibling, PrevSiblingC, Hit, TestNode, Doc.Valid;
    Bounds(d);
    WalkIsStep(d, Preceding, test, i);
    r := [];
    var cur := ExitBackwards(d, i);
    NothingPasses(d, test, i, if cur == NoNode then 0 else d.end[cur]);
    DownNone(d, Preceding, test, i, if cur == NoNode then 0 else d.end[cur]);
    while cur != NoNode
      invariant cur != NoNode ==>
                  && 0 <= cur < d.Size() && d.end[cur] <= i
                  && r == Down(d, Preceding, test, i, d.end[cur], d.Size()) && (once ==> r == [])
      invariant cur == NoNode ==> r == Stop(StepNodes(d, Preceding, test, N(i)), once)
      decreases if cur == NoNode then 0 else d.end[cur], if cur == NoNode then 0 else d.Size() - cur
    {
      FirstChildLink(d, cur);
      if FirstChild(d, cur) != NoNode {
        LastChildEnds(d, cur);
        cur := PrevSiblingC(d, FirstChild(d, cur));
      } else {
        // a leaf has nothing below it
        VisitLeaf(d, test, i, cur);
        if TestNode(d, test, cur) {
          if once {
            StopDown(d, Preceding, test, i, cur);
            return [N(cur)];
          }
          r := r + [N(cur)];
        }
        cur, r := ClimbBackwards(d, test, i, once, cur, r);
      }
    }
  }

  /** The last child's subtree ends with its parent's. */
  lemma LastChildEnds(d: Doc, i: nat)
    requires d.Valid() && i < d.Size() && FirstChild(d, i) != NoNode
    ensures PrevSiblingC(d, FirstChild(d, i)) > i && d.end[PrevSiblingC(d, FirstChild(d, i))] == d.end[i]
  {
    FirstChildLink(d, i);
    NextSiblingLink(d, LastSibling(d, FirstChild(d, i)));
  }
}
