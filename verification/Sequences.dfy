/** Order-preserving selections, reversal and element sets of sequences. */
module Sequences {

  function Filter<T>(s: seq<T>, p: T -> bool): seq<T> {
    if s == [] then []
    else Filter(s[..|s| - 1], p) + (if p(s[|s| - 1]) then [s[|s| - 1]] else [])
  }

  /** The elements of s whose flag is set. */
  function Pick<T>(s: seq<T>, keep: seq<bool>): seq<T>
    requires |keep| == |s|
  {
    if s == [] then []
    else Pick(s[..|s| - 1], keep[..|s| - 1]) + (if keep[|s| - 1] then [s[|s| - 1]] else [])
  }

  /** At most the first element: what a search that stops at its first hit collects. */
  function Head<T>(s: seq<T>): seq<T> {
    if s == [] then [] else [s[0]]
  }

  /** `Head` when the search stops early, everything when it does not. */
  function Stop<T>(s: seq<T>, once: bool): seq<T> {
    if once then Head(s) else s
  }

  function Reverse<T>(s: seq<T>): (r: seq<T>)
    ensures |r| == |s|
    ensures forall i :: 0 <= i < |s| ==> r[i] == s[|s| - 1 - i]
  {
    seq(|s|, i requires 0 <= i < |s| => s[|s| - 1 - i])
  }

  function Elems<T>(s: seq<T>): set<T> {
    set x | x in s
  }

  ghost predicate NoDup<T>(s: seq<T>) {
    forall i, j :: 0 <= i < j < |s| ==> s[i] != s[j]
  }

  lemma {:induction false} FilterMember<T>(s: seq<T>, p: T -> bool, x: T)
    ensures x in Filter(s, p) <==> x in s && p(x)
  {
    if s != [] {
      FilterMember(s[..|s| - 1], p, x);
      assert s == s[..|s| - 1] + [s[|s| - 1]];
    }
  }

  lemma {:induction false} PickMember<T>(s: seq<T>, keep: seq<bool>, x: T)
    requires |keep| == |s|
    ensures x in Pick(s, keep) <==> exists i :: 0 <= i < |s| && s[i] == x && keep[i]
  {
    if s != [] {
      PickMember(s[..|s| - 1], keep[..|s| - 1], x);
      if x in Pick(s[..|s| - 1], keep[..|s| - 1]) {
        var i :| 0 <= i < |s| - 1 && s[..|s| - 1][i] == x && keep[..|s| - 1][i];
        assert s[i] == x && keep[i];
      }
      if i :| 0 <= i < |s| && s[i] == x && keep[i] {
        if i < |s| - 1 {
          assert s[..|s| - 1][i] == x && keep[..|s| - 1][i];
        }
      }
    }
  }

  /** Picking keeps any pairwise relation, such as an order or distinctness. */
  lemma {:induction false} PickPairwise<T>(s: seq<T>, keep: seq<bool>, rel: (T, T) -> bool)
    requires |keep| == |s|
    requires forall i, j :: 0 <= i < j < |s| ==> rel(s[i], s[j])
    ensures forall i, j :: 0 <= i < j < |Pick(s, keep)| ==> rel(Pick(s, keep)[i], Pick(s, keep)[j])
  {
    if s != [] {
      var n := |s| - 1;
      PickPairwise(s[..n], keep[..n], rel);
      var r := Pick(s[..n], keep[..n]);
      forall i | 0 <= i < |r|
        ensures rel(r[i], s[n])
      {
        PickMember(s[..n], keep[..n], r[i]);
        var k :| 0 <= k < n && s[..n][k] == r[i] && keep[..n][k];
        assert rel(s[k], s[n]);
      }
    }
  }

  lemma {:induction false} FilterPairwise<T>(s: seq<T>, p: T -> bool, rel: (T, T) -> bool)
    requires forall i, j :: 0 <= i < j < |s| ==> rel(s[i], s[j])
    ensures forall i, j :: 0 <= i < j < |Filter(s, p)| ==> rel(Filter(s, p)[i], Filter(s, p)[j])
  {
    if s != [] {
      var n := |s| - 1;
      FilterPairwise(s[..n], p, rel);
      var r := Filter(s[..n], p);
      forall i | 0 <= i < |r|
        ensures rel(r[i], s[n])
      {
        FilterMember(s[..n], p, r[i]);
        var k :| 0 <= k < n && s[..n][k] == r[i];
        assert rel(s[k], s[n]);
      }
    }
  }

  lemma {:induction false} NoDupSize<T>(s: seq<T>)
    requires NoDup(s)
    ensures |Elems(s)| == |s|
  {
    if s == [] {
      assert Elems(s) == {};
    } else {
      var n := |s| - 1;
      NoDupSize(s[..n]);
      assert Elems(s) == Elems(s[..n]) + {s[n]};
    }
  }

  lemma ElemsEmpty<T>(s: seq<T>)
    ensures s == [] <==> Elems(s) == {}
  {
    if s != [] {
      assert s[0] in Elems(s);
    }
  }

  lemma ElemsConcat<T>(s: seq<T>, t: seq<T>)
    ensures Elems(s + t) == Elems(s) + Elems(t)
  {
  }

  lemma ElemsReverse<T>(s: seq<T>)
    ensures Elems(Reverse(s)) == Elems(s)
  {
    forall x | x in s
      ensures x in Reverse(s)
    {
      var i :| 0 <= i < |s| && s[i] == x;
      assert Reverse(s)[|s| - 1 - i] == x;
    }
  }

  // ----- one element taken out or put in

  function Without<T>(s: seq<T>, i: nat): seq<T>
    requires i < |s|
  {
    s[..i] + s[i + 1..]
  }

  function With<T>(s: seq<T>, i: nat, x: T): seq<T>
    requires i <= |s|
  {
    s[..i] + [x] + s[i..]
  }

  ghost function Place<T>(s: seq<T>, x: T): (i: nat)
    requires x in s
    ensures i < |s| && s[i] == x
  {
    var i :| 0 <= i < |s| && s[i] == x;
    i
  }

  /** A member of a sequence without repetitions has one position. */
  lemma Only<T>(s: seq<T>, k: nat)
    requires NoDup(s) && k < |s|
    ensures forall j :: 0 <= j < |s| && s[j] == s[k] ==> j == k
  {
  }

  lemma WithAt<T>(s: seq<T>, i: nat, x: T)
    requires i <= |s|
    ensures var r := With(s, i, x);
            && |r| == |s| + 1
            && forall j :: 0 <= j <= |s| ==> r[j] == if j < i then s[j] else if j == i then x else s[j - 1]
  {
  }

  lemma WithoutIndex<T>(s: seq<T>, k: nat, i: nat)
    requires k < |s| && i < |s| - 1
    ensures |Without(s, k)| == |s| - 1 && Without(s, k)[i] == if i < k then s[i] else s[i + 1]
  {
  }

  lemma WithoutAt<T>(s: seq<T>, i: nat)
    requires i < |s|
    ensures var r := Without(s, i);
            |r| == |s| - 1 && forall j :: 0 <= j < |s| - 1 ==> r[j] == if j < i then s[j] else s[j + 1]
  {
  }

  lemma NoDupEmpty<T>()
    ensures NoDup<T>([])
  {
  }

  lemma WithoutMembers<T>(s: seq<T>, i: nat)
    requires NoDup(s) && i < |s|
    ensures NoDup(Without(s, i))
    ensures forall x :: x in Without(s, i) <==> x in s && x != s[i]
  {
    var r := Without(s, i);
    forall x | x in s && x != s[i]
      ensures x in r
    {
      var k := Place(s, x);
      assert r[if k < i then k else k - 1] == x;
    }
  }

  lemma WithHas<T>(s: seq<T>, i: nat, x: T, y: T)
    requires i <= |s|
    ensures y in With(s, i, x) <==> y in s || y == x
  {
    var r := With(s, i, x);
    if y in s {
      var k :| 0 <= k < |s| && s[k] == y;
      assert r[if k < i then k else k + 1] == y;
    }
    assert r[i] == x;
  }

  lemma WithMembers<T>(s: seq<T>, i: nat, x: T)
    requires NoDup(s) && i <= |s| && x !in s
    ensures NoDup(With(s, i, x))
    ensures forall y :: y in With(s, i, x) <==> y in s || y == x
  {
    var r := With(s, i, x);
    forall y | y in s || y == x
      ensures y in r
    {
      if y == x {
        assert r[i] == x;
      } else {
        var k := Place(s, y);
        assert r[if k < i then k else k + 1] == y;
      }
    }
  }

  lemma NoDupOne<T>(n: T)
    ensures NoDup([n]) && Elems([n]) == {n}
  {
  }

  lemma NoDupJoin<T>(a: seq<T>, b: seq<T>)
    requires NoDup(a) && NoDup(b) && Elems(a) !! Elems(b)
    ensures NoDup(a + b) && Elems(a + b) == Elems(a) + Elems(b)
  {
    forall i, j | 0 <= i < j < |a + b|
      ensures (a + b)[i] != (a + b)[j]
    {
      if i < |a| <= j {
        assert a[i] in Elems(a) && b[j - |a|] in Elems(b);
      }
    }
  }
}
