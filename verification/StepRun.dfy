/** One location step on a node array: fill, filter the new tail in place, drop repetitions. */
module StepRun {
  import opened Sequences
  import opened Documents
  import opened Axes
  import opened XPathSyntax
  import opened XPathMeaning
  import opened XPathEval
  import opened RawNodeSets
  import StepFill

  /** How a predicate's value is asked for. */
  function TestMode(e: Expr): Mode {
    if TypeOf(e) == TNumber then First else Any
  }

  /** Does x pass at position i of size? */
  predicate Tried(env: Env, e: Expr, x: XNode, i: nat, size: nat) {
    Passes(env, e, Look(Eval(env, e, Ctx(x, i, size), TestMode(e))), i)
  }

  lemma TruthAt(env: Env, e: Expr, s: seq<XNode>, i: nat)
    requires i < |s|
    ensures EvalTruths(env, e, s)[i] == Tried(env, e, s[i], i + 1, |s|)
  {
    hide Eval, Look, Passes;
  }

  /** Compact data[first..size] to the nodes that pass at their position, stopping after the first if asked. */
  method FilterTail(env: Env, e: Expr, data: array<XNode>, first: nat, size: nat, once: bool) returns (last: nat)
    requires first <= size <= data.Length
    modifies data
    ensures first <= last <= size
    ensures data[first..last] == Stop(Pick(old(data[first..size]), EvalTruths(env, e, old(data[first..size]))), once)
    ensures data[..first] == old(data[..first])
  {
    hide Pick, EvalTruths, Tried;
    ghost var was := data[first..size];
    ghost var keep := EvalTruths(env, e, was);
    StepFill.PickEmpty(was, keep);
    last := first;
    var it, i := first, 1;
    while it < size
      invariant first <= last <= it <= size && i == it - first + 1
      invariant data[first..last] == Pick(was[..it - first], keep[..it - first])
      invariant forall k :: it <= k < size ==> data[k] == was[k - first]
      invariant data[..first] == old(data[..first])
      invariant once ==> last == first
    {
      StepFill.PickStep(was, keep, it - first);
      TruthAt(env, e, was, it - first);
      if Tried(env, e, data[it], i, size - first) {
        Move(data, first, last, it);
        last := last + 1;
        if once {
          StepFill.PickPrefix(was, keep, it - first + 1);
          return;
        }
      }
      it, i := it + 1, i + 1;
    }
    assert was[..size - first] == was && keep[..size - first] == keep;
  }

  /** One more node kept. */
  method Move(data: array<XNode>, first: nat, last: nat, it: nat)
    requires first <= last <= it < data.Length
    modifies data
    ensures data[first..last + 1] == old(data[first..last]) + [old(data[it])]
    ensures data[..first] == old(data[..first]) && forall k :: it < k < data.Length ==> data[k] == old(data[k])
  {
    data[last] := data[it];
  }

  /** Keep the one node a constant position names, without trying the others. */
  method KeepConstant(er: Number, data: array<XNode>, first: nat, size: nat) returns (last: nat)
    requires first <= size <= data.Length
    modifies data
    ensures first <= last <= size && data[first..last] == PickConstant(old(data[first..size]), er)
    ensures data[..first] == old(data[..first])
  {
    last := first;
    if er.Fin? && er.r >= 1.0 && er.r <= (size - first) as real {
      var eri := er.r.Floor;
      if er.r == eri as real {
        var r := data[first + eri - 1];
        data[last] := r;
        last := last + 1;
      }
    }
  }

  lemma Cut(s: seq<XNode>, i: nat, j: nat)
    requires i <= j <= |s|
    ensures s[..j] == s[..i] + s[i..j]
  {
  }

  method ApplyPredicate(env: Env, e: Expr, test: Test, ns: RawNodeSet, first: nat, once: bool)
    requires ns.Valid() && first <= ns.count
    modifies ns`count, ns.data
    ensures ns.Valid() && first <= ns.count
    ensures ns.Value().nodes ==
            old(ns.Value().nodes)[..first] + XPathEval.ApplyPredicate(env, e, test, old(ns.Value().nodes)[first..], once)
  {
    hide Eval, Pick, EvalTruths, PickConstant;
    ghost var was := ns.Value().nodes;
    assert was[first..] == ns.data[first..ns.count];
    if ns.count == first {
      assert was == was[..first] + [];
      return;
    }
    var last: nat;
    ghost var want := XPathEval.ApplyPredicate(env, e, test, was[first..], once);
    assert |was[first..]| == ns.count - first > 0 && ns.data[..first] == was[..first];
    if test == Constant || test == ConstantOne {
      var er := ToNum(env, Look(Eval(env, e, Ctx(Null, 1, ns.count - first), First)));
      last := KeepConstant(er, ns.data, first, ns.count);
    } else {
      last := FilterTail(env, e, ns.data, first, ns.count, once);
    }
    assert ns.data[first..last] == want && ns.data[..first] == was[..first];
    Cut(ns.data[..], first, last);
    ns.Truncate(last);
    assert ns.Value().nodes == ns.data[..last] == ns.data[..][..last];
    assert ns.Value().nodes == was[..first] + want;
  }

  /** Later predicates see only what earlier ones left. */
  method ApplyPredicates(env: Env, preds: Preds, ns: RawNodeSet, first: nat, mode: Mode)
    requires ns.Valid() && first <= ns.count
    modifies ns`count, ns.data
    ensures ns.Valid() && first <= ns.count
    ensures ns.Value().nodes == old(ns.Value().nodes)[..first] +
            XPathEval.ApplyPredicates(env, preds, old(ns.Value().nodes)[first..], EvalOnce(old(ns.tag), mode))
  {
    hide XPathEval.ApplyPredicate;
    ghost var was := ns.Value().nodes;
    ghost var want := XPathEval.ApplyPredicates(env, preds, was[first..], EvalOnce(ns.tag, mode));
    if ns.count == first {
      NothingLeft(env, preds, EvalOnce(ns.tag, mode));
      assert was == was[..first] + [];
      return;
    }
    var lastOnce := EvalOnce(ns.tag, mode);
    var pred := preds;
    while pred.Pred?
      invariant ns.Valid() && first <= ns.count && ns.tag == old(ns.tag) && ns.data == old(ns.data)
      invariant ns.Value().nodes[..first] == was[..first]
      invariant XPathEval.ApplyPredicates(env, pred, ns.Value().nodes[first..], lastOnce) == want
      decreases pred
    {
      ghost var before := ns.Value().nodes;
      ApplyPredicate(env, pred.e, pred.test, ns, first, pred.next.NoPreds? && lastOnce);
      assert ns.Value().nodes[first..] ==
             XPathEval.ApplyPredicate(env, pred.e, pred.test, before[first..], pred.next.NoPreds? && lastOnce);
      pred := pred.next;
    }
    assert ns.Value().nodes == ns.Value().nodes[..first] + ns.Value().nodes[first..];
  }

  lemma {:induction false} NothingLeft(env: Env, ps: Preds, lastOnce: bool)
    ensures XPathEval.ApplyPredicates(env, ps, [], lastOnce) == []
  {
    if ps.Pred? {
      NothingLeft(env, ps.next, lastOnce);
    }
  }

  method AppendAll(ns: RawNodeSet, found: seq<XNode>)
    requires ns.Valid()
    modifies ns, ns.data
    ensures ns.Valid() && (ns.data == old(ns.data) || fresh(ns.data))
    ensures ns.Value() == NodeSet(old(ns.tag), old(ns.Value().nodes) + found)
  {
    var i := 0;
    while i < |found|
      invariant 0 <= i <= |found| && ns.Valid() && (ns.data == old(ns.data) || fresh(ns.data))
      invariant ns.Value() == NodeSet(old(ns.tag), old(ns.Value().nodes) + found[..i])
    {
      ns.PushBack(found[i]);
      assert found[..i + 1] == found[..i] + [found[i]];
      i := i + 1;
    }
    assert found[..i] == found;
  }

  /** One input node: its walk goes to the end of the array and is filtered there. */
  method StepFrom(env: Env, e: Expr, x: XNode, ns: RawNodeSet, once: bool, mode: Mode)
    requires ns.Valid() && ValidEnv(env) && e.Step? && (x == Null || InDoc(env.d, x)) && once == FillOnce(e, mode)
    modifies ns, ns.data
    ensures ns.Valid() && (ns.data == old(ns.data) || fresh(ns.data))
    ensures ns.Value() == NodeSet(old(ns.tag), old(ns.Value().nodes) + Segment(env, e, x, old(ns.tag), mode))
  {
    hide StepNodes, ValidEnv, FillOnce, XPathEval.ApplyPredicates;
    ValidDoc(env);
    var size := ns.count;
    ghost var before := ns.Value().nodes;
    var found := StepFill.Fill(env.d, e.axis, e.nodes, x, once);
    AppendAll(ns, found);
    ghost var filled := ns.Value().nodes;
    assert filled[size..] == found && filled[..size] == before;
    ApplyPredicates(env, e.preds, ns, size, mode);
  }

  lemma ValidDoc(env: Env)
    requires ValidEnv(env)
    ensures env.d.Valid()
  {
  }

  /** The walks from all input nodes, one after the other. */
  method StepOver(env: Env, e: Expr, s: seq<XNode>, ns: RawNodeSet, mode: Mode)
    requires ns.Valid() && ns.count == 0 && ValidEnv(env) && e.Step?
    requires forall i :: 0 <= i < |s| ==> s[i] == Null || InDoc(env.d, s[i])
    modifies ns, ns.data
    ensures ns.Valid() && (ns.data == old(ns.data) || fresh(ns.data))
    ensures ns.Value() == StepLoop(env, e, s, old(ns.tag), mode)
  {
    hide ValidEnv, FillOnce, Segment, InDoc;
    var once := FillOnce(e, mode);
    ghost var start := ns.tag;
    var it := 0;
    while it < |s|
      invariant 0 <= it <= |s| && ns.Valid() && (ns.data == old(ns.data) || fresh(ns.data))
      invariant ns.Value() == StepLoop(env, e, s[..it], start, mode)
    {
      assert s[..it + 1][..it] == s[..it];
      // the walks of two nodes may interleave
      if e.axis != Self && ns.count != 0 {
        ns.tag := Unsorted;
      }
      StepFrom(env, e, s[it], ns, once, mode);
      it := it + 1;
    }
    assert s[..it] == s;
  }

  /** A whole step over the nodes of s computes the step of the reference evaluation. */
  method StepDo(env: Env, e: Expr, s: NodeSet, mode: Mode) returns (ns: RawNodeSet)
    requires ValidEnv(env) && e.Step? && forall i :: 0 <= i < |s.nodes| ==> s.nodes[i] == Null || InDoc(env.d, s.nodes[i])
    ensures fresh(ns) && fresh(ns.data) && ns.Valid() && ns.Value() == XPathEval.StepDo(env, e, s, mode)
  {
    hide ValidEnv, StepLoop, Deduplicate, InDoc;
    ns := new RawNodeSet();
    if e.axis == Namespace {
      return;
    }
    // selecting from s keeps the order of s
    ns.tag := if e.axis == Self then s.tag else AxisTag(e.axis);
    StepOver(env, e, s.nodes, ns, mode);
    if e.axis != Child && e.axis != Attribute && e.axis != Self && ns.tag == Unsorted {
      ns.RemoveDuplicates(env);
    }
  }
}
