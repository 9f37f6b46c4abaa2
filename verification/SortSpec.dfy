/** What sorting a node array and dropping its duplicates must produce. */
module SortSpec {
  import opened Sequences

  /** A strict weak order whose ties are equal elements. */
  ghost predicate StrictTotal<T(!new)>(less: (T, T) -> bool) {
    && (forall a :: !less(a, a))
    && (forall a, b, c :: less(a, b) && less(b, c) ==> less(a, c))
    && (forall a, b :: a != b ==> less(a, b) || less(b, a))
  }

  ghost predicate SortedBy<T>(s: seq<T>, less: (T, T) -> bool) {
    forall i, j :: 0 <= i < j < |s| ==> !less(s[j], s[i])
  }

  ghost predicate StrictlySortedBy<T>(s: seq<T>, less: (T, T) -> bool) {
    forall i, j :: 0 <= i < j < |s| ==> less(s[i], s[j])
  }

  function Insert<T>(s: seq<T>, x: T, less: (T, T) -> bool): seq<T> {
    if s != [] && less(x, s[|s| - 1]) then Insert(s[..|s| - 1], x, less) + [s[|s| - 1]]
    else s + [x]
  }

  function SortBy<T>(s: seq<T>, less: (T, T) -> bool): seq<T> {
    if s == [] then [] else Insert(SortBy(s[..|s| - 1], less), s[|s| - 1], less)
  }

  /** s without elements equal to the one just before them. */
  function Unique<T(==)>(s: seq<T>): seq<T> {
    if |s| <= 1 then s
    else Unique(s[..|s| - 1]) + (if s[|s| - 1] == s[|s| - 2] then [] else [s[|s| - 1]])
  }

  lemma {:induction false} InsertPermutes<T>(s: seq<T>, x: T, less: (T, T) -> bool)
    ensures multiset(Insert(s, x, less)) == multiset(s) + multiset{x}
  {
    if s != [] && less(x, s[|s| - 1]) {
      InsertPermutes(s[..|s| - 1], x, less);
      assert s == s[..|s| - 1] + [s[|s| - 1]];
    }
  }

  lemma {:induction false} InsertSorted<T(!new)>(s: seq<T>, x: T, less: (T, T) -> bool)
    requires StrictTotal(less) && SortedBy(s, less)
    ensures SortedBy(Insert(s, x, less), less)
  {
    if s != [] && less(x, s[|s| - 1]) {
      var s', l := s[..|s| - 1], s[|s| - 1];
      InsertSorted(s', x, less);
      var r := Insert(s', x, less);
      forall i | 0 <= i < |r| ensures !less(l, r[i]) {
        InsertPermutes(s', x, less);
        assert r[i] in multiset(s') + multiset{x};
        assert r[i] in s' || r[i] == x;
      }
      assert Insert(s, x, less) == r + [l];
    } else if s != [] {
      var l := s[|s| - 1];
      forall i | 0 <= i < |s| ensures !less(x, s[i]) {
        assert !less(l, s[i]);
        assert l == s[i] || less(s[i], l);
      }
      assert Insert(s, x, less) == s + [x];
    }
  }

  lemma {:induction false} SortBySorted<T(!new)>(s: seq<T>, less: (T, T) -> bool)
    requires StrictTotal(less)
    ensures SortedBy(SortBy(s, less), less)
    ensures multiset(SortBy(s, less)) == multiset(s)
  {
    hide Insert, StrictTotal;
    if s != [] {
      SortBySorted(s[..|s| - 1], less);
      InsertSorted(SortBy(s[..|s| - 1], less), s[|s| - 1], less);
      InsertPermutes(SortBy(s[..|s| - 1], less), s[|s| - 1], less);
      assert s == s[..|s| - 1] + [s[|s| - 1]];
    }
  }

  lemma SameElems<T>(s: seq<T>, t: seq<T>)
    requires multiset(s) == multiset(t)
    ensures Elems(s) == Elems(t) && |s| == |t|
  {
    assert |multiset(s)| == |multiset(t)|;
    forall x ensures x in s <==> x in t {
      assert x in s <==> x in multiset(s);
      assert x in t <==> x in multiset(t);
    }
  }

  lemma SameLast<T(!new)>(s: seq<T>, t: seq<T>, less: (T, T) -> bool)
    requires StrictTotal(less) && SortedBy(s, less) && SortedBy(t, less)
    requires Elems(s) == Elems(t) && s != [] && t != []
    ensures s[|s| - 1] == t[|t| - 1]
  {
    var a, b := s[|s| - 1], t[|t| - 1];
    assert a in Elems(t) && b in Elems(s);
    var i :| 0 <= i < |t| && t[i] == a;
    var j :| 0 <= j < |s| && s[j] == b;
    assert !less(b, a) && !less(a, b);
  }

  lemma MultisetInit<T>(s: seq<T>)
    requires s != []
    ensures multiset(s[..|s| - 1]) == multiset(s) - multiset{s[|s| - 1]}
  {
    assert s == s[..|s| - 1] + [s[|s| - 1]];
  }

  lemma SortedInit<T(!new)>(s: seq<T>, less: (T, T) -> bool)
    requires SortedBy(s, less) && s != []
    ensures SortedBy(s[..|s| - 1], less)
  {
  }

  /** Sorting has one answer. */
  lemma {:induction false} SortedUnique<T(!new)>(s: seq<T>, t: seq<T>, less: (T, T) -> bool)
    requires StrictTotal(less) && SortedBy(s, less) && SortedBy(t, less)
    requires multiset(s) == multiset(t)
    ensures s == t
  {
    hide StrictTotal, SortedBy;
    SameElems(s, t);
    if s != [] {
      SameLast(s, t, less);
      InitSame(s, t);
      SortedInit(s, less);
      SortedInit(t, less);
      SortedUnique(s[..|s| - 1], t[..|t| - 1], less);
      assert s == s[..|s| - 1] + [s[|s| - 1]] && t == t[..|t| - 1] + [t[|t| - 1]];
    }
  }

  lemma InitSame<T>(s: seq<T>, t: seq<T>)
    requires s != [] && t != [] && multiset(s) == multiset(t) && s[|s| - 1] == t[|t| - 1]
    ensures multiset(s[..|s| - 1]) == multiset(t[..|t| - 1])
  {
    MultisetInit(s);
    MultisetInit(t);
  }

  lemma {:induction false} UniqueStrict<T(!new)>(s: seq<T>, less: (T, T) -> bool)
    requires StrictTotal(less) && SortedBy(s, less)
    ensures StrictlySortedBy(Unique(s), less)
    ensures Elems(Unique(s)) == Elems(s)
    ensures s != [] ==> Unique(s) != [] && Unique(s)[|Unique(s)| - 1] == s[|s| - 1]
  {
    if |s| > 1 {
      var n := |s| - 1;
      UniqueStrict(s[..n], less);
      assert s == s[..n] + [s[n]];
      ElemsConcat(s[..n], [s[n]]);
      ElemsConcat(Unique(s[..n]), [s[n]]);
      assert s[n - 1] in Elems(s[..n]);
    }
  }

  /** sort followed by unique keeps each element exactly once. */
  lemma SortUniqueOnce<T(!new)>(s: seq<T>, less: (T, T) -> bool)
    requires StrictTotal(less)
    ensures NoDup(Unique(SortBy(s, less)))
    ensures Elems(Unique(SortBy(s, less))) == Elems(s)
    ensures StrictlySortedBy(Unique(SortBy(s, less)), less)
  {
    SortBySorted(s, less);
    UniqueStrict(SortBy(s, less), less);
    SameElems(s, SortBy(s, less));
  }
}
