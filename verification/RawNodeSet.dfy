/** The growable node array behind a node set, with its order tag. */
module RawNodeSets {
  import opened Sequences
  import opened SortSpec
  import opened Documents
  import opened XPathMeaning
  import opened XPathEval
  import NodeSort
  import NodeSetFacts

  /** r is s with its first b and last b elements exchanged. */
  ghost predicate SwappedEnds(s: seq<XNode>, r: seq<XNode>, b: nat) {
    && |r| == |s| && 2 * b <= |s|
    && forall k :: 0 <= k < |s| ==> r[k] == s[if b <= k < |s| - b then k else |s| - 1 - k]
  }

  lemma NoneSwapped(s: seq<XNode>)
    ensures SwappedEnds(s, s, 0)
  {
  }

  lemma SwapEnds(s: seq<XNode>, r: seq<XNode>, b: nat)
    requires SwappedEnds(s, r, b) && |s| - 2 * b > 1
    ensures var e := |s| - b - 1; |r| == |s| && SwappedEnds(s, r[b := r[e]][e := r[b]], b + 1)
  {
  }

  lemma AllSwapped(s: seq<XNode>, r: seq<XNode>, b: nat)
    requires SwappedEnds(s, r, b) && |s| - 2 * b <= 1
    ensures r == Reverse(s)
  {
    forall k | 0 <= k < |s| ensures r[k] == Reverse(s)[k] {
      assert b <= k < |s| - b ==> k == |s| - 1 - k;
    }
  }

  class RawNodeSet {
    var tag: Tag
    var data: array<XNode>
    var count: nat

    ghost predicate Valid()
      reads this
    {
      count <= data.Length
    }

    /** The value this object stands for. */
    ghost function Value(): NodeSet
      requires Valid()
      reads this, data
    {
      NodeSet(tag, data[..count])
    }

    constructor ()
      ensures Valid() && fresh(data) && Value() == NodeSet(Unsorted, [])
    {
      tag := Unsorted;
      data := new XNode[0](_ => Null);
      count := 0;
    }

    method PushBack(x: XNode)
      requires Valid()
      modifies this, data
      ensures Valid() && (data == old(data) || fresh(data))
      ensures Value() == NodeSet(old(tag), old(Value().nodes) + [x])
    {
      if count == data.Length {
        // 1.5x rule
        var grown := new XNode[data.Length + data.Length / 2 + 1](_ => Null);
        forall i | 0 <= i < count {
          grown[i] := data[i];
        }
        data := grown;
      }
      data[count] := x;
      count := count + 1;
    }

    method Truncate(n: nat)
      requires Valid() && n <= count
      modifies this`count
      ensures Valid() && Value() == NodeSet(tag, old(Value().nodes)[..n])
    {
      count := n;
    }

    /** The order of the array, found by comparing neighbours. */
    method Order() returns (t: Tag)
      requires Valid()
      ensures t == GetOrder(data[..count])
    {
      ghost var s := data[..count];
      if count < 2 {
        return Sorted;
      }
      var first := Compares(data[0], data[1]);
      var it := 1;
      while it + 1 < count
        invariant 1 <= it < count
        invariant forall i :: 0 <= i < it ==> Compares(s[i], s[i + 1]) == first
      {
        if Compares(data[it], data[it + 1]) != first {
          assert Compares(s[it], s[it + 1]) != Compares(s[0], s[1]);
          return Unsorted;
        }
        it := it + 1;
      }
      return if first then Sorted else SortedReverse;
    }

    method ReverseAll()
      requires Valid()
      modifies data
      ensures Valid() && data[..count] == Reverse(old(data[..count]))
    {
      hide Reverse, SwappedEnds;
      ghost var s := data[..count];
      var b, e := 0, count;
      NoneSwapped(s);
      while e - b > 1
        invariant 0 <= b <= e <= count && b + e == count
        invariant SwappedEnds(s, data[..count], b)
      {
        e := e - 1;
        ghost var was := data[..count];
        data[b], data[e] := data[e], data[b];
        assert data[..count] == was[b := was[e]][e := was[b]];
        SwapEnds(s, was, b);
        b := b + 1;
      }
      AllSwapped(s, data[..count], b);
    }

    /** Bring the array into document order. */
    method SortDo()
      requires Valid()
      modifies this`tag, data
      ensures Valid() && Value() == XPathEval.SortDo(old(Value()))
    {
      NodeSetFacts.BeforeTotal();
      var order := tag;
      if order == Unsorted {
        order := Order();
        if order == Unsorted {
          ghost var depth := NodeSort.Sort(data, 0, count, Compares, Before);
          assert data[0..count] == data[..count];
          order := Sorted;
          tag := Sorted;
          return;
        }
      }
      if order != Sorted {
        ReverseAll();
      }
      tag := Sorted;
    }

    /** Sort by address and drop repetitions. */
    method RemoveDuplicates(env: Env)
      requires Valid() && ValidEnv(env)
      modifies this`count, data
      ensures Valid() && tag == old(tag)
      ensures old(tag) == Unsorted ==> data[..count] == Deduplicate(env, old(data[..count]))
      ensures old(tag) != Unsorted ==> data[..count] == Unique(old(data[..count]))
    {
      hide Unique, SortBy;
      if tag == Unsorted {
        var less := (a: XNode, b: XNode) => env.addr(a) < env.addr(b);
        ghost var depth := NodeSort.Sort(data, 0, count, less, less);
        assert data[0..count] == data[..count];
      }
      count := NodeSort.UniqueInPlace(data, count);
    }

    method First() returns (x: XNode)
      requires Valid()
      ensures x == FirstNode(Value())
    {
      ghost var s := data[..count];
      if count == 0 {
        return Null;
      }
      match tag {
        case Sorted => return data[0];
        case SortedReverse => return data[count - 1];
        case Unsorted =>
          x := data[0];
          var it := 1;
          while it < count
            invariant 1 <= it <= count
            invariant x == MinNode(s[..it])
          {
            assert s[..it + 1][..it] == s[..it];
            if Compares(data[it], x) {
              x := data[it];
            }
            it := it + 1;
          }
          assert s[..count] == s;
      }
    }
  }
}
