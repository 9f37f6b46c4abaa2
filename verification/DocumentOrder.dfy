/** Comparing two nodes by climbing parent links and scanning siblings. */
module DocumentOrder {
  import opened Documents
  import opened Walkers

  /** Distance to the root; an absent node lies one above the root. */
  function Depth(d: Doc, i: int): (k: int)
    requires d.Valid() && NoNode <= i < d.Size()
    ensures k >= NoNode && (k == NoNode <==> i == NoNode) && (k == 0 <==> i == 0)
    decreases i
  {
    if i == NoNode then NoNode else if i == 0 then 0 else 1 + Depth(d, d.parent[i])
  }

  lemma DepthParent(d: Doc, i: nat)
    requires d.Valid() && i < d.Size()
    ensures NoNode <= d.parent[i] < d.Size() && Depth(d, d.parent[i]) == Depth(d, i) - 1
  {
  }

  /** a is i or one of its ancestors. */
  predicate Over(d: Doc, a: int, i: int)
    requires d.Valid() && 0 <= a < d.Size() && 0 <= i < d.Size()
  {
    a == i || Below(d, a, i)
  }

  lemma OverParent(d: Doc, a: nat, i: nat)
    requires d.Valid() && a < d.Size() && i < d.Size() && Over(d, a, i) && d.parent[a] != NoNode
    ensures Over(d, d.parent[a], i)
  {
    assert a > 0 && a < d.end[d.parent[a]];
    assert d.end[a] <= d.end[d.parent[a]];
  }

  /** Distinct siblings order everything below them. */
  lemma SiblingsDecide(d: Doc, a: nat, b: nat, i: nat, j: nat)
    requires d.Valid() && a < d.Size() && b < d.Size() && i < d.Size() && j < d.Size()
    requires a != b && d.parent[a] == d.parent[b] && Over(d, a, i) && Over(d, b, j)
    ensures d.parent[a] != NoNode && (a < b <==> i < j) && i != j
  {
    if a < b {
      SiblingsApart(d, a, b);
    } else {
      SiblingsApart(d, b, a);
    }
  }

  method NodeIsBeforeSibling(d: Doc, ln: nat, rn: nat) returns (before: bool)
    requires d.Valid() && ln < d.Size() && rn < d.Size() && ln != rn
    requires d.parent[ln] == d.parent[rn] != NoNode
    ensures before <==> ln < rn
  {
    var ls: int, rs: int := ln, rn;
    while ls != NoNode && rs != NoNode
      invariant ls == NoNode || (ln <= ls < d.Size() && d.parent[ls] == d.parent[ln])
      invariant rs == NoNode || (rn <= rs < d.Size() && d.parent[rs] == d.parent[ln])
      invariant ln < rn ==> ls != NoNode && ls <= rn
      invariant rn < ln ==> rs != NoNode && rs <= ln
      decreases if ls == NoNode then 0 else d.Size() - ls
    {
      if ls == rn {
        return true;
      }
      if rs == ln {
        return false;
      }
      if ln < rn {
        SiblingsApart(d, ls, rn);
      } else {
        SiblingsApart(d, rs, ln);
      }
      NextSiblingLink(d, ls);
      NextSiblingLink(d, rs);
      ls := NextSibling(d, ls);
      rs := NextSibling(d, rs);
    }
    before := rs == NoNode;
  }

  /** Climb both nodes in step until their parents agree. */
  method Meet(d: Doc, l: nat, r: nat) returns (lp: int, rp: int)
    requires d.Valid() && l < d.Size() && r < d.Size() && l != r
    ensures NoNode <= lp < d.Size() && NoNode <= rp < d.Size() && lp != rp
    ensures lp != NoNode && rp != NoNode ==> d.parent[lp] == d.parent[rp] && Over(d, lp, l) && Over(d, rp, r)
    ensures Depth(d, l) - Depth(d, lp) == Depth(d, r) - Depth(d, rp)
  {
    lp, rp := l, r;
    while lp != NoNode && rp != NoNode && d.parent[lp] != d.parent[rp]
      invariant NoNode <= lp < d.Size() && NoNode <= rp < d.Size() && lp != rp
      invariant lp != NoNode ==> Over(d, lp, l)
      invariant rp != NoNode ==> Over(d, rp, r)
      invariant Depth(d, l) - Depth(d, lp) == Depth(d, r) - Depth(d, rp)
      decreases lp
    {
      if d.parent[lp] != NoNode {
        OverParent(d, lp, l);
      }
      if d.parent[rp] != NoNode {
        OverParent(d, rp, r);
      }
      lp := d.parent[lp];
      rp := d.parent[rp];
    }
  }

  /** Climb node as many steps as spare has ancestors, itself included. */
  method Lift(d: Doc, node: nat, spare: int) returns (up: int)
    requires d.Valid() && node < d.Size() && NoNode <= spare < d.Size() && Depth(d, spare) < Depth(d, node)
    ensures 0 <= up < d.Size() && Over(d, up, node) && Depth(d, up) == Depth(d, node) - Depth(d, spare) - 1
    ensures spare == NoNode ==> up == node
  {
    hide Depth, Over;
    assert Over(d, node, node) by { OverSelf(d, node); }
    up := node;
    var s := spare;
    while s != NoNode
      invariant NoNode <= s < d.Size() && 0 <= up < d.Size() && Over(d, up, node)
      invariant Depth(d, up) - Depth(d, s) == Depth(d, node) - Depth(d, spare) && Depth(d, s) < Depth(d, up)
      invariant spare == NoNode ==> up == node && s == NoNode
      decreases s
    {
      DepthParent(d, up);
      DepthParent(d, s);
      OverParent(d, up, node);
      s := d.parent[s];
      up := d.parent[up];
    }
  }

  /** Compare below the common parent of two distinct nodes of equal depth. */
  method CompareLevel(d: Doc, l: nat, r: nat, ghost ln: nat, ghost rn: nat) returns (before: bool)
    requires d.Valid() && l < d.Size() && r < d.Size() && ln < d.Size() && rn < d.Size()
    requires l != r && Depth(d, l) == Depth(d, r) && Over(d, l, ln) && Over(d, r, rn)
    ensures before <==> ln < rn
  {
    hide Depth, Over;
    var lp, rp := Meet(d, l, r);
    SameLevel(d, l, r, lp, rp);
    OverTrans(d, lp, l, ln);
    OverTrans(d, rp, r, rn);
    SiblingsDecide(d, lp, rp, ln, rn);
    before := NodeIsBeforeSibling(d, lp, rp);
  }

  /** For two distinct nodes the comparison is the comparison of their document positions. */
  method NodeIsBefore(d: Doc, ln: nat, rn: nat) returns (before: bool)
    requires d.Valid() && ln < d.Size() && rn < d.Size() && ln != rn
    ensures before <==> ln < rn
  {
    hide Depth, Doc.Valid;
    var lp, rp := Meet(d, ln, rn);
    if lp != NoNode && rp != NoNode {
      SiblingsDecide(d, lp, rp, ln, rn);
      before := NodeIsBeforeSibling(d, lp, rp);
      return;
    }
    var leftHigher := lp == NoNode;
    var l := Lift(d, ln, lp);
    var r := Lift(d, rn, rp);
    if l == r {
      return leftHigher;
    }
    before := CompareLevel(d, l, r, ln, rn);
  }

  lemma OverSelf(d: Doc, a: nat)
    requires d.Valid() && a < d.Size()
    ensures Over(d, a, a)
  {
  }

  lemma OverTrans(d: Doc, a: nat, b: nat, c: nat)
    requires d.Valid() && a < d.Size() && b < d.Size() && c < d.Size() && Over(d, a, b) && Over(d, b, c)
    ensures Over(d, a, c)
  {
    if a != b && b != c {
      assert d.end[b] <= d.end[a];
    }
  }

  /** Nodes of equal depth meet below a common parent. */
  lemma SameLevel(d: Doc, l: nat, r: nat, lp: int, rp: int)
    requires d.Valid() && l < d.Size() && r < d.Size() && Depth(d, l) == Depth(d, r)
    requires NoNode <= lp < d.Size() && NoNode <= rp < d.Size() && lp != rp
    requires Depth(d, l) - Depth(d, lp) == Depth(d, r) - Depth(d, rp)
    ensures lp != NoNode && rp != NoNode
  {
  }

  /** The document-order comparator on tree nodes and attributes. Its only difference from
      document order is that an attribute compares before itself. */
  method IsBefore(d: Doc, lhs: XNode, rhs: XNode) returns (before: bool)
    requires d.Valid() && InDoc(d, lhs) && InDoc(d, rhs)
    ensures before <==> Compares(lhs, rhs)
  {
    if lhs.A? && rhs.A? && lhs.i == rhs.i {
      var a := lhs.k;
      while a < |d.attrs[lhs.i]|
        invariant lhs.k <= a <= |d.attrs[lhs.i]|
        invariant !(lhs.k <= rhs.k < a)
      {
        if a == rhs.k {
          return true;
        }
        a := a + 1;
      }
      return false;
    }
    if lhs.A? && rhs.N? && lhs.i == rhs.i {
      return false;
    }
    if rhs.A? && lhs.N? && lhs.i == rhs.i {
      return true;
    }
    if lhs.i == rhs.i {
      return false;
    }
    before := NodeIsBefore(d, lhs.i, rhs.i);
  }
}
