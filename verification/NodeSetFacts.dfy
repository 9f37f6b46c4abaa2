/** Node arrays with honest tags: their first node, sorting, deduplication and agreement with sets. */
module NodeSetFacts {
  import opened Sequences
  import opened SortSpec
  import opened Documents
  import opened XPathSyntax
  import opened XPathMeaning
  import opened XPathEval

  ghost predicate IsLeast(x: XNode, S: set<XNode>) {
    x in S && forall y :: y in S ==> y == x || Before(x, y)
  }

  /** The array ns is a good enough answer for the set S in this mode. */
  ghost predicate Covers(d: Doc, ns: NodeSet, S: set<XNode>, mode: Mode) {
    && Honest(d, ns)
    && (forall x :: x in S ==> InDoc(d, x))
    && Elems(ns.nodes) <= S
    && (mode == All ==> Elems(ns.nodes) == S)
    && (S != {} ==> ns.nodes != [])
    && (mode == First ==> forall x :: IsLeast(x, S) ==> x in ns.nodes)
  }

  /** Same scalar, or a node array that covers the set. */
  ghost predicate Agrees(d: Doc, v: Value, m: Meaning, mode: Mode) {
    match (v, m)
    case (Scalar(a), Scalar(b)) => a == b
    case (Nodes(ns), Nodes(S)) => Covers(d, ns, S, mode)
    case _ => false
  }

  lemma ListingLeast(d: Doc, S: set<XNode>)
    requires d.Valid() && forall x :: x in S ==> InDoc(d, x)
    ensures S == {} <==> Listing(d, S) == []
    ensures S != {} ==> IsLeast(Listing(d, S)[0], S)
  {
    ListingSorted(d, S);
    var s := Listing(d, S);
    ElemsEmpty(s);
    if S != {} {
      forall y | y in S ensures y == s[0] || Before(s[0], y) {
        var j :| 0 <= j < |s| && s[j] == y;
      }
    }
  }

  lemma LeastUnique(x: XNode, y: XNode, S: set<XNode>)
    requires IsLeast(x, S) && IsLeast(y, S)
    ensures x == y
  {
  }

  lemma {:induction false} MinNodeLeast(s: seq<XNode>)
    requires s != []
    ensures IsLeast(MinNode(s), Elems(s))
  {
    if |s| > 1 {
      MinNodeLeast(s[..|s| - 1]);
      assert s == s[..|s| - 1] + [s[|s| - 1]];
      assert Elems(s) == Elems(s[..|s| - 1]) + {s[|s| - 1]};
    }
  }

  /** first() is the least node whatever the tag says. */
  lemma FirstNodeLeast(d: Doc, ns: NodeSet)
    requires Honest(d, ns) && ns.nodes != []
    ensures IsLeast(FirstNode(ns), Elems(ns.nodes))
  {
    match ns.tag
    case Unsorted => MinNodeLeast(ns.nodes);
    case Sorted =>
    case SortedReverse =>
  }

  /** In first mode the array shows the same first node as the whole set, in any mode the same emptiness. */
  lemma LookAgrees(d: Doc, v: Value, m: Meaning, mode: Mode)
    requires d.Valid() && Agrees(d, v, m, mode)
    ensures mode != Any ==> Look(v) == View(d, m)
    ensures ToBool(Look(v)) == ToBool(View(d, m))
  {
    if v.Nodes? {
      var ns, S := v.ns, m.ns;
      ListingLeast(d, S);
      ElemsEmpty(ns.nodes);
      if ns.nodes != [] {
        FirstNodeLeast(d, ns);
        var x, y := FirstNode(ns), Listing(d, S)[0];
        assert InDoc(d, x) && InDoc(d, y);
        if mode != Any {
          assert y in Elems(ns.nodes);
          LeastUnique(x, y, S);
        }
      }
    }
  }

  lemma {:induction false} ChainAscends(s: seq<XNode>, i: nat, j: nat)
    requires forall k :: 0 <= k < |s| - 1 ==> Before(s[k], s[k + 1])
    requires i < j < |s|
    ensures Before(s[i], s[j])
  {
    if i + 1 < j {
      ChainAscends(s, i, j - 1);
    }
    assert Before(s[j - 1], s[j - 1 + 1]);
  }

  lemma {:induction false} ChainDescends(s: seq<XNode>, i: nat, j: nat)
    requires NoDup(s)
    requires forall k :: 0 <= k < |s| - 1 ==> !Before(s[k], s[k + 1])
    requires i < j < |s|
    ensures Before(s[j], s[i])
  {
    if i + 1 < j {
      ChainDescends(s, i, j - 1);
    }
    assert !Before(s[j - 1], s[j - 1 + 1]);
  }

  /** Neighbours that agree on a direction make the whole array ordered. */
  lemma GetOrderHonest(d: Doc, s: seq<XNode>)
    requires Honest(d, NodeSet(Unsorted, s))
    ensures Honest(d, NodeSet(GetOrder(s), s))
  {
    if GetOrder(s) == Sorted && |s| >= 2 {
      forall i, j | 0 <= i < j < |s| ensures Before(s[i], s[j]) {
        ChainAscends(s, i, j);
      }
    } else if GetOrder(s) == SortedReverse {
      forall i, j | 0 <= i < j < |s| ensures Before(s[j], s[i]) {
        ChainDescends(s, i, j);
      }
    }
  }

  lemma BeforeTotal()
    ensures StrictTotal(Before)
  {
  }

  lemma SortAscends(d: Doc, s: seq<XNode>)
    requires Honest(d, NodeSet(Unsorted, s))
    ensures Ascending(SortBy(s, Before)) && Elems(SortBy(s, Before)) == Elems(s)
  {
    BeforeTotal();
    var t := SortBy(s, Before);
    SortBySorted(s, Before);
    SameElems(s, t);
    NoDupSize(s);
    forall i, j | 0 <= i < j < |t| ensures Before(t[i], t[j]) {
      if t[i] == t[j] {
        RepeatShrinks(t, i, j);
      }
    }
  }

  lemma RepeatShrinks<T>(t: seq<T>, i: nat, j: nat)
    requires i < j < |t| && t[i] == t[j]
    ensures |Elems(t)| < |t|
  {
    var r := t[..j] + t[j + 1..];
    forall x ensures x in t <==> x in r {
      if x in t {
        var k :| 0 <= k < |t| && t[k] == x;
        if k < j { assert r[k] == x; } else if k > j { assert r[k - 1] == x; } else { assert r[i] == x; }
      }
    }
    assert Elems(t) == Elems(r);
    ElemsBound(r);
  }

  lemma {:induction false} ElemsBound<T>(s: seq<T>)
    ensures |Elems(s)| <= |s|
  {
    if s == [] {
      assert Elems(s) == {};
    } else {
      ElemsBound(s[..|s| - 1]);
      assert Elems(s) == Elems(s[..|s| - 1]) + {s[|s| - 1]};
    }
  }

  /** Sorting an honest set lists it in document order. */
  lemma SortDoLists(d: Doc, ns: NodeSet)
    requires d.Valid() && Honest(d, ns)
    ensures SortDo(ns) == NodeSet(Sorted, Listing(d, Elems(ns.nodes)))
  {
    if ns.tag == Unsorted {
      GetOrderHonest(d, ns.nodes);
    }
    DescendingReverse(ns.nodes);
    ElemsReverse(ns.nodes);
    SortAscends(d, NodeSet(Unsorted, ns.nodes).nodes);
    var s := SortDo(ns).nodes;
    assert Elems(s) == Elems(ns.nodes) && Ascending(s);
    assert forall x :: x in s ==> x in Elems(ns.nodes);
    ListingUnique(d, s);
  }

  lemma DeduplicateHonest(env: Env, s: seq<XNode>)
    requires ValidEnv(env) && forall x :: x in s ==> InDoc(env.d, x)
    ensures Honest(env.d, NodeSet(Unsorted, Deduplicate(env, s)))
    ensures Elems(Deduplicate(env, s)) == Elems(s)
  {
    var less := (a, b) => env.addr(a) < env.addr(b);
    SortUniqueOnce(s, less);
    var t := Deduplicate(env, s);
    assert forall x :: x in t ==> x in Elems(s);
  }

  // ----- sums and sizes do not depend on the order of the array

  lemma PlusLaws(a: Number, b: Number, c: Number)
    ensures Plus(Plus(a, b), c) == Plus(Plus(a, c), b)
  {
  }

  /** Moving one node of the array to the end does not change the sum. */
  lemma {:induction false} SumMove(env: Env, s: seq<XNode>, i: nat)
    requires i < |s|
    ensures SumOf(env, s) == Plus(SumOf(env, s[..i] + s[i + 1..]), NodeNumber(env, s[i]))
  {
    var n := |s| - 1;
    if i == n {
      assert s[..i] + s[i + 1..] == s[..n];
    } else {
      SumMove(env, s[..n], i);
      var r := s[..i] + s[i + 1..];
      assert r[..|r| - 1] == s[..n][..i] + s[..n][i + 1..];
      assert r[|r| - 1] == s[n];
      PlusLaws(SumOf(env, r[..|r| - 1]), NodeNumber(env, s[i]), NodeNumber(env, s[n]));
    }
  }

  lemma {:induction false} SumSame(env: Env, s: seq<XNode>, t: seq<XNode>)
    requires NoDup(s) && NoDup(t) && Elems(s) == Elems(t)
    ensures SumOf(env, s) == SumOf(env, t)
    decreases |s|
  {
    ElemsEmpty(s);
    ElemsEmpty(t);
    if s != [] {
      var n := |s| - 1;
      assert s[n] in Elems(t);
      var i :| 0 <= i < |t| && t[i] == s[n];
      var r := t[..i] + t[i + 1..];
      SumMove(env, t, i);
      RemoveElem(s, n);
      RemoveElem(t, i);
      assert s[..n] + s[n + 1..] == s[..n];
      SumSame(env, s[..n], r);
    }
  }

  lemma RemoveElem<T>(s: seq<T>, i: nat)
    requires NoDup(s) && i < |s|
    ensures NoDup(s[..i] + s[i + 1..]) && Elems(s[..i] + s[i + 1..]) == Elems(s) - {s[i]}
  {
    var r := s[..i] + s[i + 1..];
    forall x ensures x in r <==> x in s && x != s[i] {
      if x in s && x != s[i] {
        var k :| 0 <= k < |s| && s[k] == x;
        assert r[if k < i then k else k - 1] == x;
      }
    }
  }
}
