/** The in-place sort of node arrays: three-way quicksort with insertion sort for short ranges. */
module NodeSort {
  import opened Sequences
  import opened SortSpec

  /** Exchange two cells of the range [lo, hi). */
  method Swap<T>(a: array<T>, i: nat, j: nat, ghost lo: nat, ghost hi: nat)
    requires lo <= i < hi <= a.Length && lo <= j < hi
    modifies a
    ensures a[i] == old(a[j]) && a[j] == old(a[i])
    ensures forall k :: 0 <= k < a.Length && k != i && k != j ==> a[k] == old(a[k])
    ensures multiset(a[lo..hi]) == old(multiset(a[lo..hi]))
  {
    ghost var s := a[lo..hi];
    a[i], a[j] := a[j], a[i];
    assert a[lo..hi] == s[i - lo := s[j - lo]][j - lo := s[i - lo]];
  }

  /** The comparator decides distinct elements as the order does; what it says of an element and itself is open. */
  ghost predicate Decides<T(!new)>(less: (T, T) -> bool, order: (T, T) -> bool) {
    forall x, y :: x != y ==> less(x, y) == order(x, y)
  }

  /** [b, e) holds the pivot v, no larger elements lie in [l, b), no smaller ones in [e, g). */
  ghost predicate Bands<T>(s: seq<T>, v: T, order: (T, T) -> bool, l: int, b: int, e: int, g: int)
  {
    && 0 <= l <= b < e <= g <= |s|
    && (forall k :: b <= k < e ==> s[k] == v)
    && (forall k :: l <= k < b ==> !order(v, s[k]))
    && (forall k :: e <= k < g ==> !order(s[k], v))
  }

  /** Scan right of the larger band; equal elements join the pivot band. */
  method ScanRight<T(==, !new)>(a: array<T>, lo: nat, hi: nat, v: T, less: (T, T) -> bool, ghost order: (T, T) -> bool, l: nat, b: nat, e0: nat, g0: nat)
    returns (e: nat, g: nat)
    requires StrictTotal(order) && Decides(less, order) && lo <= l && hi <= a.Length && g0 <= hi && Bands(a[..], v, order, l, b, e0, g0)
    modifies a
    ensures e0 <= e && g0 <= g <= hi && Bands(a[..], v, order, l, b, e, g)
    ensures g < hi ==> !order(v, a[g])
    ensures multiset(a[lo..hi]) == old(multiset(a[lo..hi]))
    ensures forall k :: 0 <= k < a.Length && !(e0 <= k < hi) ==> a[k] == old(a[k])
  {
    hide StrictTotal, Decides;
    e, g := e0, g0;
    while g < hi
      invariant e0 <= e && g0 <= g <= hi && Bands(a[..], v, order, l, b, e, g)
      invariant multiset(a[lo..hi]) == old(multiset(a[lo..hi]))
      invariant forall k :: 0 <= k < a.Length && !(e0 <= k < hi) ==> a[k] == old(a[k])
    {
      Decided(less, order, v, a[g]);
      DecidedApart(less, order, v, a[g]);
      if !less(v, a[g]) {
        if a[g] == v {
          Swap(a, g, e, lo, hi);
          e := e + 1;
        } else {
          return;
        }
      }
      g := g + 1;
    }
  }

  /** Scan left of the smaller band; equal elements join the pivot band. */
  method ScanLeft<T(==, !new)>(a: array<T>, lo: nat, hi: nat, v: T, less: (T, T) -> bool, ghost order: (T, T) -> bool, l0: nat, b0: nat, e: nat, g: nat)
    returns (l: nat, b: nat)
    requires StrictTotal(order) && Decides(less, order) && lo <= l0 && hi <= a.Length && g <= hi && Bands(a[..], v, order, l0, b0, e, g)
    modifies a
    ensures lo <= l <= l0 && b <= b0 && Bands(a[..], v, order, l, b, e, g)
    ensures l > lo ==> !order(a[l - 1], v)
    ensures multiset(a[lo..hi]) == old(multiset(a[lo..hi]))
    ensures forall k :: 0 <= k < a.Length && !(lo <= k < b0) ==> a[k] == old(a[k])
  {
    hide StrictTotal, Decides;
    l, b := l0, b0;
    while l > lo
      invariant lo <= l <= l0 && b <= b0 && Bands(a[..], v, order, l, b, e, g)
      invariant multiset(a[lo..hi]) == old(multiset(a[lo..hi]))
      invariant forall k :: 0 <= k < a.Length && !(lo <= k < b0) ==> a[k] == old(a[k])
    {
      Decided(less, order, a[l - 1], v);
      DecidedApart(less, order, a[l - 1], v);
      if !less(a[l - 1], v) {
        if v == a[l - 1] {
          b := b - 1;
          Swap(a, l - 1, b, lo, hi);
        } else {
          return;
        }
      }
      l := l - 1;
    }
  }

  /** The run of elements equal to the pivot around it. */
  method Expand<T(==)>(a: array<T>, lo: nat, mid: nat, hi: nat, ghost order: (T, T) -> bool) returns (b: nat, e: nat)
    requires lo <= mid < hi <= a.Length
    ensures lo <= b < e <= hi && Bands(a[..], a[mid], order, b, b, e, e)
  {
    var v := a[mid];
    b, e := mid, mid + 1;
    while b != lo && a[b - 1] == a[b]
      invariant lo <= b <= mid && forall k :: b <= k <= mid ==> a[k] == v
    {
      b := b - 1;
    }
    while e != hi && a[e] == a[b]
      invariant mid < e <= hi && forall k :: b <= k < e ==> a[k] == v
    {
      e := e + 1;
    }
  }

  /** A large element on the left and a small one on the right change places. */
  method Exchange<T(!new)>(a: array<T>, lo: nat, hi: nat, v: T, ghost order: (T, T) -> bool, l: nat, b: nat, e: nat, g: nat)
    requires lo < l && g < hi <= a.Length && Bands(a[..], v, order, l, b, e, g)
    requires !order(a[l - 1], v) && !order(v, a[g])
    modifies a
    ensures Bands(a[..], v, order, l - 1, b, e, g + 1)
    ensures multiset(a[lo..hi]) == old(multiset(a[lo..hi]))
    ensures forall k :: 0 <= k < a.Length && !(lo <= k < hi) ==> a[k] == old(a[k])
  {
    Swap(a, g, l - 1, lo, hi);
  }

  lemma BandsBounds<T>(s: seq<T>, v: T, less: (T, T) -> bool, l: int, b: int, e: int, g: int)
    requires Bands(s, v, less, l, b, e, g)
    ensures 0 <= l <= b < e <= g <= |s|
  {
  }

  /** Three-way partition of [lo, hi) around the element at mid. */
  method Partition<T(==, !new)>(a: array<T>, lo: nat, mid: nat, hi: nat, less: (T, T) -> bool, ghost order: (T, T) -> bool) returns (eqbeg: nat, eqend: nat)
    requires StrictTotal(order) && Decides(less, order) && lo <= mid < hi <= a.Length
    modifies a
    ensures lo <= eqbeg < eqend <= hi && Bands(a[..], old(a[mid]), order, lo, eqbeg, eqend, hi)
    ensures multiset(a[lo..hi]) == old(multiset(a[lo..hi]))
    ensures forall k :: 0 <= k < a.Length && !(lo <= k < hi) ==> a[k] == old(a[k])
  {
    hide StrictTotal, Bands, Decides;
    var v := a[mid];
    eqbeg, eqend := Expand(a, lo, mid, hi, order);
    var ltend, gtbeg := eqbeg, eqend;
    while true
      invariant lo <= ltend && gtbeg <= hi && Bands(a[..], v, order, ltend, eqbeg, eqend, gtbeg)
      invariant multiset(a[lo..hi]) == old(multiset(a[lo..hi]))
      invariant forall k :: 0 <= k < a.Length && !(lo <= k < hi) ==> a[k] == old(a[k])
      decreases ltend + hi - gtbeg
    {
      BandsBounds(a[..], v, order, ltend, eqbeg, eqend, gtbeg);
      eqend, gtbeg := ScanRight(a, lo, hi, v, less, order, ltend, eqbeg, eqend, gtbeg);
      BandsBounds(a[..], v, order, ltend, eqbeg, eqend, gtbeg);
      ghost var right := if gtbeg < hi then a[gtbeg] else v;
      ltend, eqbeg := ScanLeft(a, lo, hi, v, less, order, ltend, eqbeg, eqend, gtbeg);
      BandsBounds(a[..], v, order, ltend, eqbeg, eqend, gtbeg);
      if gtbeg == hi && ltend == lo {
        return;
      }
      if gtbeg == hi {
        ltend, eqbeg, eqend := ShiftLeft(a, lo, hi, v, order, ltend, eqbeg, eqend, gtbeg);
      } else if ltend == lo {
        assert a[gtbeg] == right;
        eqbeg, eqend, gtbeg := ShiftRight(a, lo, hi, v, order, ltend, eqbeg, eqend, gtbeg);
      } else {
        assert a[gtbeg] == right;
        Exchange(a, lo, hi, v, order, ltend, eqbeg, eqend, gtbeg);
        ltend, gtbeg := ltend - 1, gtbeg + 1;
      }
    }
  }

  /** Make room for a large element found on the left by moving the pivot band down. */
  method ShiftLeft<T(==, !new)>(a: array<T>, lo: nat, hi: nat, v: T, ghost order: (T, T) -> bool, l0: nat, b0: nat, e0: nat, g: nat)
    returns (l: nat, b: nat, e: nat)
    requires lo < l0 && hi <= a.Length && g <= hi && Bands(a[..], v, order, l0, b0, e0, g)
    requires !order(a[l0 - 1], v)
    modifies a
    ensures l == l0 - 1 && lo <= l && Bands(a[..], v, order, l, b, e, g)
    ensures multiset(a[lo..hi]) == old(multiset(a[lo..hi]))
    ensures forall k :: 0 <= k < a.Length && !(lo <= k < hi) ==> a[k] == old(a[k])
  {
    l, b := l0 - 1, b0 - 1;
    if l != b {
      Swap(a, l, b, lo, hi);
    }
    e := e0 - 1;
    Swap(a, b, e, lo, hi);
  }

  /** Make room for a small element found on the right by moving the pivot band up. */
  method ShiftRight<T(==, !new)>(a: array<T>, lo: nat, hi: nat, v: T, ghost order: (T, T) -> bool, l: nat, b0: nat, e0: nat, g0: nat)
    returns (b: nat, e: nat, g: nat)
    requires lo <= l && hi <= a.Length && g0 < hi && Bands(a[..], v, order, l, b0, e0, g0)
    requires !order(v, a[g0])
    modifies a
    ensures g == g0 + 1 && Bands(a[..], v, order, l, b, e, g)
    ensures multiset(a[lo..hi]) == old(multiset(a[lo..hi]))
    ensures forall k :: 0 <= k < a.Length && !(lo <= k < hi) ==> a[k] == old(a[k])
  {
    if e0 != g0 {
      Swap(a, b0, e0, lo, hi);
    }
    e := e0 + 1;
    Swap(a, g0, b0, lo, hi);
    g, b := g0 + 1, b0 + 1;
  }

  method Median3<T(!new)>(a: array<T>, first: nat, middle: nat, last: nat, less: (T, T) -> bool, ghost lo: nat, ghost hi: nat)
    requires lo <= first < hi <= a.Length && lo <= middle < hi && lo <= last < hi
    modifies a
    ensures multiset(a[lo..hi]) == old(multiset(a[lo..hi]))
    ensures forall k :: 0 <= k < a.Length && !(lo <= k < hi) ==> a[k] == old(a[k])
  {
    if less(a[middle], a[first]) { Swap(a, middle, first, lo, hi); }
    if less(a[last], a[middle]) { Swap(a, last, middle, lo, hi); }
    if less(a[middle], a[first]) { Swap(a, middle, first, lo, hi); }
  }

  lemma Probes(first: int, middle: int, last: int, step: int)
    requires first + 40 < last && middle == first + (last + 1 - first) / 2 && step == (last - first + 1) / 8
    ensures 0 < step && first + 2 * step <= middle - step && middle + step <= last - 2 * step
  {
  }

  /** Median of three, or of nine for long ranges; every probe stays inside [first, last]. */
  method Median<T(!new)>(a: array<T>, first: nat, middle: nat, last: nat, less: (T, T) -> bool)
    requires first < last < a.Length && middle == first + (last + 1 - first) / 2
    modifies a
    ensures multiset(a[first..last + 1]) == old(multiset(a[first..last + 1]))
    ensures forall k :: 0 <= k < a.Length && !(first <= k <= last) ==> a[k] == old(a[k])
  {
    if last - first <= 40 {
      Median3(a, first, middle, last, less, first, last + 1);
    } else {
      MedianOfNine(a, first, middle, last, less);
    }
  }

  method MedianOfNine<T(!new)>(a: array<T>, first: nat, middle: nat, last: nat, less: (T, T) -> bool)
    requires first + 40 < last < a.Length && middle == first + (last + 1 - first) / 2
    modifies a
    ensures multiset(a[first..last + 1]) == old(multiset(a[first..last + 1]))
    ensures forall k :: 0 <= k < a.Length && !(first <= k <= last) ==> a[k] == old(a[k])
  {
    var step := (last - first + 1) / 8;
    Probes(first, middle, last, step);
    Median3(a, first, first + step, first + 2 * step, less, first, last + 1);
    Median3(a, middle - step, middle, middle + step, less, first, last + 1);
    Median3(a, last - 2 * step, last - step, last, less, first, last + 1);
    Median3(a, first + step, middle, last - step, less, first, last + 1);
  }

  // ----- insertion sort

  /** Putting x at h in a sorted sequence, no larger elements before and no smaller ones after, is inserting it. */
  lemma InsertAt<T(!new)>(s: seq<T>, x: T, order: (T, T) -> bool, h: nat)
    requires StrictTotal(order) && SortedBy(s, order) && h <= |s|
    requires forall k :: 0 <= k < h ==> !order(x, s[k])
    requires forall k :: h <= k < |s| ==> !order(s[k], x)
    ensures s[..h] + [x] + s[h..] == Insert(s, x, order)
  {
    hide StrictTotal, Insert, SortedBy;
    var t := s[..h] + [x] + s[h..];
    PutSorted(s, x, order, h);
    PutMultiset(s, x, h);
    InsertPermutes(s, x, order);
    InsertSorted(s, x, order);
    SortedUnique(t, Insert(s, x, order), order);
  }

  lemma PutMultiset<T>(s: seq<T>, x: T, h: nat)
    requires h <= |s|
    ensures multiset(s[..h] + [x] + s[h..]) == multiset(s) + multiset{x}
  {
    assert s == s[..h] + s[h..];
  }

  lemma PutSorted<T(!new)>(s: seq<T>, x: T, order: (T, T) -> bool, h: nat)
    requires SortedBy(s, order) && h <= |s|
    requires forall k :: 0 <= k < h ==> !order(x, s[k])
    requires forall k :: h <= k < |s| ==> !order(s[k], x)
    ensures SortedBy(s[..h] + [x] + s[h..], order)
  {
    var t := s[..h] + [x] + s[h..];
    forall i, j | 0 <= i < j < |t|
      ensures !order(t[j], t[i])
    {
      assert t[i] == if i < h then s[i] else if i == h then x else s[i - 1];
      assert t[j] == if j < h then s[j] else if j == h then x else s[j - 1];
    }
  }

  method InsertionSort<T(!new)>(a: array<T>, lo: nat, hi: nat, less: (T, T) -> bool, ghost order: (T, T) -> bool)
    requires StrictTotal(order) && Decides(less, order) && lo < hi <= a.Length
    modifies a
    ensures a[lo..hi] == SortBy(old(a[lo..hi]), order)
    ensures forall k :: 0 <= k < a.Length && !(lo <= k < hi) ==> a[k] == old(a[k])
  {
    hide Insert, StrictTotal, Decides, SortedBy;
    ghost var was := a[lo..hi];
    var it := lo + 1;
    SingleSorted(was, order);
    assert a[lo..it] == was[..1];
    while it < hi
      invariant lo < it <= hi
      invariant a[lo..it] == SortBy(was[..it - lo], order)
      invariant forall k :: 0 <= k < a.Length && !(lo <= k < it) ==> a[k] == old(a[k])
    {
      ghost var done := a[lo..it];
      SortBySorted(was[..it - lo], order);
      InsertHole(a, lo, it, less, order);
      assert was[..it + 1 - lo][..it - lo] == was[..it - lo];
      assert was[..it + 1 - lo][it - lo] == was[it - lo];
      it := it + 1;
    }
    assert was[..hi - lo] == was;
  }

  lemma SingleSorted<T(!new)>(s: seq<T>, less: (T, T) -> bool)
    requires s != []
    ensures SortBy(s[..1], less) == s[..1]
  {
    assert s[..1][..0] == [];
    assert SortBy(s[..1][..0], less) == [];
  }

  /** No element of a sorted sequence is smaller than what its first is not smaller than. */
  lemma FrontIsLeast<T(!new)>(s: seq<T>, x: T, order: (T, T) -> bool)
    requires StrictTotal(order) && SortedBy(s, order) && s != [] && !order(s[0], x)
    ensures forall k :: 0 <= k < |s| ==> !order(s[k], x)
  {
    forall k | 0 <= k < |s| ensures !order(s[k], x) {
      assert k == 0 || !order(s[k], s[0]);
    }
  }

  /** Everything before an element not larger than x is not larger than x. */
  lemma BeforeIsLess<T(!new)>(s: seq<T>, x: T, order: (T, T) -> bool, h: nat)
    requires StrictTotal(order) && SortedBy(s, order) && 0 < h <= |s| && !order(x, s[h - 1])
    ensures forall k :: 0 <= k < h ==> !order(x, s[k])
  {
    forall k | 0 <= k < h ensures !order(x, s[k]) {
      assert k == h - 1 || !order(s[h - 1], s[k]);
    }
  }

  lemma Decided<T(!new)>(less: (T, T) -> bool, order: (T, T) -> bool, x: T, y: T)
    requires StrictTotal(order) && Decides(less, order)
    ensures less(x, y) ==> !order(y, x)
    ensures !less(x, y) ==> !order(x, y)
  {
  }

  lemma DecidedApart<T(!new)>(less: (T, T) -> bool, order: (T, T) -> bool, x: T, y: T)
    requires StrictTotal(order) && Decides(less, order)
    ensures !order(x, x) && (less(x, y) && x != y ==> order(x, y))
  {
  }

  /** Move [lo, it) one cell up. */
  method CopyBackwards<T>(a: array<T>, lo: nat, it: nat)
    requires lo <= it < a.Length
    modifies a
    ensures a[lo + 1..it + 1] == old(a[lo..it])
    ensures forall k :: 0 <= k < a.Length && !(lo < k <= it) ==> a[k] == old(a[k])
  {
    var h := it;
    while h != lo
      invariant lo <= h <= it
      invariant forall k :: h < k <= it ==> a[k] == old(a[k - 1])
      invariant forall k :: 0 <= k < a.Length && !(h < k <= it) ==> a[k] == old(a[k])
    {
      a[h] := a[h - 1];
      h := h - 1;
    }
  }

  /** Insert the element at it into the sorted range before it. */
  method InsertHole<T(!new)>(a: array<T>, lo: nat, it: nat, less: (T, T) -> bool, ghost order: (T, T) -> bool)
    requires StrictTotal(order) && Decides(less, order) && lo < it < a.Length && SortedBy(a[lo..it], order)
    modifies a
    ensures a[lo..it + 1] == Insert(old(a[lo..it]), old(a[it]), order)
    ensures forall k :: 0 <= k < a.Length && !(lo <= k <= it) ==> a[k] == old(a[k])
  {
    hide Insert, StrictTotal, SortedBy, Decides;
    ghost var s := a[lo..it];
    var val := a[it];
    assert a[lo] == s[0];
    if less(val, a[lo]) {
      // nothing is smaller
      Decided(less, order, val, s[0]);
      FrontIsLeast(s, val, order);
      InsertAt(s, val, order, 0);
      CopyBackwards(a, lo, it);
      a[lo] := val;
      assert a[lo..it + 1] == s[..0] + [val] + s[0..];
    } else {
      MoveHole(a, lo, it, less, order);
    }
  }

  /** Move elements the comparator puts after val up until the hole is where val belongs. */
  method ShiftHole<T(!new)>(a: array<T>, lo: nat, it: nat, val: T, less: (T, T) -> bool) returns (hole: nat)
    requires lo < it < a.Length && !less(val, a[lo])
    modifies a
    ensures lo < hole <= it && !less(val, old(a[hole - 1]))
    ensures forall k :: lo <= k < hole ==> a[k] == old(a[k])
    ensures forall k :: hole <= k < it ==> a[k + 1] == old(a[k]) && less(val, old(a[k]))
    ensures forall k :: 0 <= k < a.Length && !(lo <= k <= it) ==> a[k] == old(a[k])
  {
    hole := it;
    while less(val, a[hole - 1])
      invariant lo < hole <= it
      invariant forall k :: lo <= k < hole ==> a[k] == old(a[k])
      invariant forall k :: hole <= k < it ==> a[k + 1] == old(a[k]) && less(val, old(a[k]))
      invariant forall k :: 0 <= k < a.Length && !(lo <= k <= it) ==> a[k] == old(a[k])
      decreases hole
    {
      a[hole] := a[hole - 1];
      hole := hole - 1;
    }
  }

  method MoveHole<T(!new)>(a: array<T>, lo: nat, it: nat, less: (T, T) -> bool, ghost order: (T, T) -> bool)
    requires lo < it < a.Length && !less(a[it], a[lo])
    requires StrictTotal(order) && Decides(less, order) && SortedBy(a[lo..it], order)
    modifies a
    ensures a[lo..it + 1] == Insert(old(a[lo..it]), old(a[it]), order)
    ensures forall k :: 0 <= k < a.Length && !(lo <= k <= it) ==> a[k] == old(a[k])
  {
    hide Insert, StrictTotal, SortedBy, Decides;
    ghost var was := a[..];
    assert was[lo..it] == a[lo..it];
    var val := a[it];
    var hole := ShiftHole(a, lo, it, val, less);
    a[hole] := val;
    InsertedAt(was, a[..], lo, it, hole, val, less, order);
    assert a[..][lo..it + 1] == a[lo..it + 1];
  }

  lemma InsertedAt<T(!new)>(was: seq<T>, now: seq<T>, lo: nat, it: nat, hole: nat, val: T, less: (T, T) -> bool, order: (T, T) -> bool)
    requires StrictTotal(order) && Decides(less, order)
    requires |was| == |now| && lo < hole <= it < |was| && now[hole] == val && !less(val, was[hole - 1])
    requires SortedBy(was[lo..it], order)
    requires forall k :: lo <= k < hole ==> now[k] == was[k]
    requires forall k :: hole <= k < it ==> now[k + 1] == was[k] && less(val, was[k])
    ensures now[lo..it + 1] == Insert(was[lo..it], val, order)
  {
    hide Insert, StrictTotal, Decides, SortedBy;
    var s, t := was[lo..it], now[lo..it + 1];
    var h := hole - lo;
    assert s[h - 1] == was[hole - 1];
    Decided(less, order, val, s[h - 1]);
    BeforeIsLess(s, val, order, h);
    forall k | h <= k < |s|
      ensures !order(s[k], val)
    {
      assert s[k] == was[k + lo];
      Decided(less, order, val, s[k]);
    }
    InsertAt(s, val, order, h);
    forall k | h < k < |t| ensures t[k] == s[k - 1] {
      assert now[(k - 1 + lo) + 1] == was[k - 1 + lo];
    }
    HoleFilled(t, s, h, val);
  }

  lemma HoleFilled<T>(t: seq<T>, s: seq<T>, h: nat, val: T)
    requires h <= |s| && |t| == |s| + 1 && t[h] == val
    requires forall k :: 0 <= k < h ==> t[k] == s[k]
    requires forall k :: h < k < |t| ==> t[k] == s[k - 1]
    ensures t == s[..h] + [val] + s[h..]
  {
  }

  // ----- putting sorted parts together

  lemma SortedWithin<T(!new)>(s: seq<T>, p: T -> bool, less: (T, T) -> bool)
    requires StrictTotal(less) && forall k :: 0 <= k < |s| ==> p(s[k])
    ensures |SortBy(s, less)| == |s| && forall k :: 0 <= k < |s| ==> p(SortBy(s, less)[k])
  {
    SortBySorted(s, less);
    var t := SortBy(s, less);
    SameElems(s, t);
    forall k | 0 <= k < |s| ensures p(t[k]) {
      assert t[k] in Elems(s);
    }
  }

  /** Sorting a partitioned range is sorting its outer parts. */
  lemma SortSplit<T(!new)>(s: seq<T>, b: nat, e: nat, v: T, less: (T, T) -> bool, t: seq<T>)
    requires StrictTotal(less) && Bands(s, v, less, 0, b, e, |s|)
    requires multiset(t) == multiset(s)
    ensures SortBy(t, less) == SortBy(s[..b], less) + s[b..e] + SortBy(s[e..], less)
    ensures |SortBy(s[..b], less)| == b && |SortBy(s[e..], less)| == |s| - e
  {
    hide StrictTotal, SortBy, SortedBy;
    var l, m, g := SortBy(s[..b], less), s[b..e], SortBy(s[e..], less);
    SortBySorted(s[..b], less);
    SortBySorted(s[e..], less);
    SortBySorted(t, less);
    SortedWithin(s[..b], x => !less(v, x), less);
    SortedWithin(s[e..], x => !less(x, v), less);
    SortedJoin(l, m, g, v, less);
    assert s == s[..b] + s[b..e] + s[e..];
    assert multiset(l + m + g) == multiset(s);
    SortedUnique(SortBy(t, less), l + m + g, less);
  }

  lemma SortedJoin<T(!new)>(l: seq<T>, m: seq<T>, g: seq<T>, v: T, less: (T, T) -> bool)
    requires StrictTotal(less) && SortedBy(l, less) && SortedBy(g, less)
    requires forall k :: 0 <= k < |l| ==> !less(v, l[k])
    requires forall k :: 0 <= k < |m| ==> m[k] == v
    requires forall k :: 0 <= k < |g| ==> !less(g[k], v)
    ensures SortedBy(l + m + g, less)
  {
    var s := l + m + g;
    forall i, j | 0 <= i < j < |s| ensures !less(s[j], s[i]) {
      assert i < |l| ==> s[i] == l[i];
      assert j < |l| ==> s[j] == l[j];
      assert i >= |l| + |m| ==> s[i] == g[i - |l| - |m|];
      assert j >= |l| + |m| ==> s[j] == g[j - |l| - |m|];
    }
  }

  function Pow2(n: nat): nat {
    if n == 0 then 1 else 2 * Pow2(n - 1)
  }

  /** Pick a pivot and split [b, e) around it. */
  method Split<T(==, !new)>(a: array<T>, b: nat, e: nat, less: (T, T) -> bool, ghost order: (T, T) -> bool) returns (x: nat, y: nat)
    requires StrictTotal(order) && Decides(less, order) && b + 32 < e <= a.Length
    modifies a
    ensures b <= x < y <= e
    ensures SortBy(old(a[b..e]), order) == SortBy(a[b..x], order) + a[x..y] + SortBy(a[y..e], order)
    ensures |SortBy(a[b..x], order)| == x - b && |SortBy(a[y..e], order)| == e - y
    ensures forall k :: 0 <= k < a.Length && !(b <= k < e) ==> a[k] == old(a[k])
  {
    hide SortBy, StrictTotal, Decides, Bands, SortedBy;
    ghost var before := a[b..e];
    var middle := b + (e - b) / 2;
    Median(a, b, middle, e - 1, less);
    x, y := Partition(a, b, middle, e, less, order);
    ghost var s := a[..][b..e];
    assert s == a[b..e];
    BandsSlice(a[..], s[x - b], order, b, x, y, e);
    SortSplit(s, x - b, y - b, s[x - b], order, before);
    Slices(a[..], b, x, y, e);
    assert a[..][b..x] == a[b..x] && a[..][x..y] == a[x..y] && a[..][y..e] == a[y..e];
  }

  lemma Slices<T>(s: seq<T>, b: nat, x: nat, y: nat, e: nat)
    requires b <= x <= y <= e <= |s|
    ensures s[b..e][..x - b] == s[b..x] && s[b..e][x - b..y - b] == s[x..y] && s[b..e][y - b..] == s[y..e]
  {
    Slice(s, b, e, 0, x - b);
    Slice(s, b, e, x - b, y - b);
    Slice(s, b, e, y - b, e - b);
    var r := s[b..e];
    assert r[..x - b] == r[0..x - b] && r[y - b..] == r[y - b..e - b];
  }

  lemma Slice<T>(s: seq<T>, b: nat, e: nat, i: nat, j: nat)
    requires b <= e <= |s| && i <= j <= e - b
    ensures s[b..e][i..j] == s[b + i..b + j]
  {
    var l, r := s[b..e][i..j], s[b + i..b + j];
    assert |l| == |r|;
    forall k | 0 <= k < |l|
      ensures l[k] == r[k]
    {
      assert l[k] == s[b..e][i + k];
    }
  }

  /** One round: split [b, e), sort the smaller side, keep the larger one for the next round. */
  method Narrow<T(==, !new)>(a: array<T>, b: nat, e: nat, less: (T, T) -> bool, ghost order: (T, T) -> bool) returns (b': nat, e': nat, ghost inner: nat)
    requires StrictTotal(order) && Decides(less, order) && b + 32 < e <= a.Length
    modifies a
    ensures b <= b' <= e' <= e && e' - b' < e - b
    ensures SortBy(old(a[b..e]), order) == a[b..b'] + SortBy(a[b'..e'], order) + a[e'..e]
    ensures |SortBy(a[b'..e'], order)| == e' - b'
    ensures forall k :: 0 <= k < a.Length && !(b <= k < e) ==> a[k] == old(a[k])
    ensures Pow2(inner + 1) <= 1 + (e - b)
    decreases e - b, 0
  {
    hide SortBy, StrictTotal, Decides;
    var x, y := Split(a, b, e, less, order);
    ghost var l, m, g := a[b..x], a[x..y], a[y..e];
    // loop on the larger side
    if x - b > e - y {
      inner := Sort(a, y, e, less, order);
      assert a[b..x] == l && a[x..e] == m + a[y..e] && a[b..b] == [];
      return b, x, inner;
    } else {
      inner := Sort(a, b, x, less, order);
      assert a[y..e] == g && a[b..y] == a[b..x] + m && a[e..e] == [];
      return y, e, inner;
    }
  }

  lemma SortLength<T(!new)>(s: seq<T>, order: (T, T) -> bool)
    requires StrictTotal(order)
    ensures |SortBy(s, order)| == |s|
  {
    hide StrictTotal, SortBy;
    SortBySorted(s, order);
    SameElems(s, SortBy(s, order));
  }

  lemma PowZero()
    ensures Pow2(0) == 1
  {
  }

  /** With any comparator that decides distinct elements as a strict total order does, sorts [lo, hi) by that order
      and leaves the rest alone; depth is how deep the recursion went, at most
      logarithmic because only the smaller side is sorted by a recursive call. */
  method Sort<T(==, !new)>(a: array<T>, lo: nat, hi: nat, less: (T, T) -> bool, ghost order: (T, T) -> bool) returns (ghost depth: nat)
    requires StrictTotal(order) && Decides(less, order) && lo <= hi <= a.Length
    modifies a
    ensures a[lo..hi] == SortBy(old(a[lo..hi]), order)
    ensures forall k :: 0 <= k < a.Length && !(lo <= k < hi) ==> a[k] == old(a[k])
    ensures Pow2(depth) <= 1 + (hi - lo)
    decreases hi - lo, 1
  {
    hide SortBy, StrictTotal, Decides, SortedBy, Pow2;
    ghost var target := SortBy(a[lo..hi], order);
    SortLength(a[lo..hi], order);
    PowZero();
    var b, e := lo, hi;
    depth := 0;
    while e - b > 32
      invariant lo <= b <= e <= hi
      invariant SortBy(a[b..e], order) == target[b - lo..e - lo]
      invariant forall k :: lo <= k < b || e <= k < hi ==> a[k] == target[k - lo]
      invariant forall k :: 0 <= k < a.Length && !(lo <= k < hi) ==> a[k] == old(a[k])
      invariant Pow2(depth) <= 1 + (hi - lo)
      decreases e - b
    {
      var b', e', inner := Narrow(a, b, e, less, order);
      Narrowed(a[..], target, lo, hi, b, b', e', e, SortBy(a[b'..e'], order));
      b, e := b', e';
      if inner + 1 > depth {
        depth := inner + 1;
      }
    }
    if b != e {
      InsertionSort(a, b, e, less, order);
      Placed(a[..], target, lo, b, e);
    }
    assert a[lo..hi] == target;
  }

  /** After a round the finished parts are in place and the open part still sorts to its share. */
  lemma Narrowed<T>(s: seq<T>, target: seq<T>, lo: nat, hi: nat, b: nat, b': nat, e': nat, e: nat, m: seq<T>)
    requires lo <= b <= b' <= e' <= e <= hi <= |s| && |target| == hi - lo && |m| == e' - b'
    requires forall k :: lo <= k < b || e <= k < hi ==> s[k] == target[k - lo]
    requires target[b - lo..e - lo] == s[b..b'] + m + s[e'..e]
    ensures forall k :: lo <= k < b' || e' <= k < hi ==> s[k] == target[k - lo]
    ensures m == target[b' - lo..e' - lo]
  {
    Glue(target, lo, b, b', e', e, s[b..b'], m, s[e'..e]);
    Placed(s, target, lo, b, b');
    Placed(s, target, lo, e', e);
  }

  lemma Placed<T>(s: seq<T>, target: seq<T>, lo: nat, x: nat, y: nat)
    requires lo <= x <= y <= |s| && y - lo <= |target| && s[x..y] == target[x - lo..y - lo]
    ensures forall k :: x <= k < y ==> s[k] == target[k - lo]
  {
    forall k | x <= k < y ensures s[k] == target[k - lo] {
      assert s[k] == s[x..y][k - x] == target[x - lo..y - lo][k - x];
    }
  }

  lemma BandsSlice<T>(s: seq<T>, v: T, less: (T, T) -> bool, lo: nat, b: nat, e: nat, hi: nat)
    requires hi <= |s| && lo <= b < e <= hi && exists w :: Bands(s, w, less, lo, b, e, hi)
    requires v == s[b]
    ensures Bands(s[lo..hi], v, less, 0, b - lo, e - lo, hi - lo)
  {
    var w :| Bands(s, w, less, lo, b, e, hi);
  }

  /** The three sorted parts of a range of the target sit at their places in it. */
  lemma Glue<T>(target: seq<T>, lo: nat, b: nat, x: nat, y: nat, e: nat, l: seq<T>, m: seq<T>, g: seq<T>)
    requires lo <= b <= x <= y <= e && e - lo <= |target|
    requires |l| == x - b && |m| == y - x && |g| == e - y
    requires target[b - lo..e - lo] == l + m + g
    ensures target[b - lo..x - lo] == l && target[x - lo..y - lo] == m && target[y - lo..e - lo] == g
  {
    var t := target[b - lo..e - lo];
    assert forall i :: 0 <= i < |t| ==> t[i] == target[b - lo + i];
    assert forall i :: 0 <= i < |l| ==> l[i] == t[i] == target[b - lo + i];
    assert forall i :: 0 <= i < |m| ==> m[i] == t[x - b + i] == target[x - lo + i];
    assert forall i :: 0 <= i < |g| ==> g[i] == t[y - b + i] == target[y - lo + i];
  }

  // ----- unique

  /** The longest head without equal neighbours. */
  method SkipHead<T(==)>(a: array<T>, hi: nat) returns (begin: nat)
    requires 0 < hi <= a.Length
    ensures begin < hi && Unique(a[..begin + 1]) == a[..begin + 1]
  {
    begin := 0;
    while hi - begin > 1 && a[begin] != a[begin + 1]
      invariant 0 <= begin < hi
      invariant Unique(a[..begin + 1]) == a[..begin + 1]
    {
      UniqueStep(a[..], begin + 1);
      assert a[..][..begin + 2] == a[..begin + 2] && a[..][..begin + 1] == a[..begin + 1];
      assert a[..begin + 2] == a[..begin + 1] + [a[begin + 1]];
      begin := begin + 1;
    }
  }

  /** Compact [0, hi) to elements that differ from the one kept before them. */
  method UniqueInPlace<T(==)>(a: array<T>, hi: nat) returns (end: nat)
    requires hi <= a.Length
    modifies a
    ensures end <= hi && a[..end] == Unique(old(a[..hi]))
    ensures a[hi..] == old(a[hi..])
  {
    hide Unique;
    UniqueNone<T>();
    if hi == 0 {
      return 0;
    }
    // nothing to move yet
    var begin := SkipHead(a, hi);
    ghost var was := a[..hi];
    var write := begin;
    begin := begin + 1;
    assert a[..write + 1] == was[..begin];
    while begin != hi
      invariant 0 <= write < begin <= hi
      invariant a[..write + 1] == Unique(was[..begin]) && a[write] == was[begin - 1]
      invariant forall k :: begin <= k < a.Length ==> a[k] == old(a[k])
    {
      UniqueStep(was, begin);
      if a[begin] != a[write] {
        write := write + 1;
        a[write] := a[begin];
        assert a[..write + 1] == a[..write] + [was[begin]];
        begin := begin + 1;
      } else {
        begin := begin + 1;
      }
    }
    assert was[..hi] == was;
    return write + 1;
  }

  lemma UniqueNone<T>()
    ensures Unique<T>([]) == []
  {
  }

  lemma UniqueStep<T>(s: seq<T>, n: nat)
    requires 0 < n < |s|
    ensures Unique(s[..n + 1]) == Unique(s[..n]) + (if s[n] == s[n - 1] then [] else [s[n]])
  {
    assert s[..n + 1][..n] == s[..n];
  }
}
