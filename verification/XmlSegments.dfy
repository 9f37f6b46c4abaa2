/** Nodes as positions in the parse buffer: every name and value is a terminated segment of it. */
module XmlSegments {
  import opened XmlText
  import opened XmlParser

  // ----- strings and nodes as positions

  /** The string a reader finds at i. */
  function StringAt(b: seq<char>, i: nat): string {
    if i <= |b| then UpToNul(b[i..]) else []
  }

  /** The string at i and its terminator stand before limit. */
  predicate Ends(b: seq<char>, i: nat, limit: nat) {
    i + |StringAt(b, i)| < limit <= |b|
  }

  datatype AttributeAt = AttributeAt(name: nat, value: nat)

  datatype NodeAt =
    | ElemAt(name: nat, attrs: seq<AttributeAt>, kids: seq<NodeAt>)
    | TextAt(value: nat)
    | CdataAt(value: nat)

  /** An open element; the bottom one stands for the document and its name is not used. */
  datatype FrameAt = FrameAt(name: nat, attrs: seq<AttributeAt>, kids: seq<NodeAt>)

  type StackAt = s: seq<FrameAt> | s != [] witness [FrameAt(0, [], [])]

  datatype ParsedAt = FailAt(error: Error) | OkAt(kids: seq<NodeAt>)

  function ViewAttributes(b: seq<char>, attrs: seq<AttributeAt>): seq<Attribute> {
    seq(|attrs|, i requires 0 <= i < |attrs| => Attribute(StringAt(b, attrs[i].name), StringAt(b, attrs[i].value)))
  }

  function View(b: seq<char>, n: NodeAt): Tree
    decreases n, 0
  {
    match n
    case ElemAt(name, attrs, kids) => Elem(StringAt(b, name), ViewAttributes(b, attrs), Views(b, kids))
    case TextAt(value) => Text(StringAt(b, value))
    case CdataAt(value) => Cdata(StringAt(b, value))
  }

  function Views(b: seq<char>, ns: seq<NodeAt>): (ts: seq<Tree>)
    ensures |ts| == |ns|
    decreases ns, 1
  {
    seq(|ns|, i requires 0 <= i < |ns| => View(b, ns[i]))
  }

  function ViewParsed(b: seq<char>, r: ParsedAt): Parsed {
    match r case FailAt(e) => Fail(e) case OkAt(kids) => Ok(Views(b, kids))
  }

  function ViewFrame(b: seq<char>, f: FrameAt): Frame {
    Frame(StringAt(b, f.name), ViewAttributes(b, f.attrs), Views(b, f.kids))
  }

  function ViewStack(b: seq<char>, st: StackAt): (r: Stack)
    ensures |r| == |st|
  {
    seq(|st|, i requires 0 <= i < |st| => if i == 0 then Frame("", [], Views(b, st[0].kids)) else ViewFrame(b, st[i]))
  }

  ghost predicate SettledAttributes(b: seq<char>, limit: nat, attrs: seq<AttributeAt>) {
    forall i :: 0 <= i < |attrs| ==> Ends(b, attrs[i].name, limit) && Ends(b, attrs[i].value, limit)
  }

  /** All strings of the nodes stand before limit. */
  ghost predicate Settled(b: seq<char>, limit: nat, ns: seq<NodeAt>)
    decreases ns, 1
  {
    forall i :: 0 <= i < |ns| ==> SettledNode(b, limit, ns[i])
  }

  ghost predicate SettledNode(b: seq<char>, limit: nat, n: NodeAt)
    decreases n, 0
  {
    match n
    case ElemAt(name, attrs, kids) => Ends(b, name, limit) && SettledAttributes(b, limit, attrs) && Settled(b, limit, kids)
    case TextAt(value) => Ends(b, value, limit)
    case CdataAt(value) => Ends(b, value, limit)
  }

  ghost predicate SettledFrame(b: seq<char>, limit: nat, f: FrameAt) {
    Ends(b, f.name, limit) && SettledAttributes(b, limit, f.attrs) && Settled(b, limit, f.kids)
  }

  ghost predicate SettledStack(b: seq<char>, limit: nat, st: StackAt) {
    Settled(b, limit, st[0].kids) && forall i :: 1 <= i < |st| ==> SettledFrame(b, limit, st[i])
  }

  // ----- later writes do not reach what is settled

  /** The two buffers agree outside from..to. */
  ghost predicate Agree(a: seq<char>, b: seq<char>, from: nat, to: nat) {
    |a| == |b| && forall k :: 0 <= k < |a| && !(from <= k < to) ==> a[k] == b[k]
  }

  lemma {:induction false} CutBefore(text: string, more: string)
    ensures UpToNul(text + ['\0'] + more) == UpToNul(text)
    ensures |UpToNul(text)| <= |text|
  {
    var s := text + ['\0'] + more;
    if text != [] {
      CutBefore(text[1..], more);
      assert s[1..] == text[1..] + ['\0'] + more;
    }
  }

  /** A terminated segment is read as its text. */
  lemma StringIs(b: seq<char>, i: nat, text: string)
    requires i + |text| < |b| && b[i..i + |text|] == text && b[i + |text|] == '\0'
    ensures StringAt(b, i) == UpToNul(text) && |UpToNul(text)| <= |text|
  {
    var n := i + |text|;
    assert b[i..] == text + ['\0'] + b[n + 1..];
    CutBefore(text, b[n + 1..]);
  }

  lemma {:induction false} CutParts(s: string)
    ensures var n := |UpToNul(s)|; n <= |s| && s[..n] == UpToNul(s) && (n < |s| ==> s[n] == '\0')
  {
    if s != [] && s[0] != '\0' {
      CutParts(s[1..]);
      var n := |UpToNul(s[1..])|;
      assert s[..n + 1] == [s[0]] + s[1..][..n];
    }
  }

  lemma StringSame(a: seq<char>, b: seq<char>, i: nat, limit: nat)
    requires Ends(a, i, limit) && Agree(a, b, limit, |a|)
    ensures StringAt(b, i) == StringAt(a, i) && Ends(b, i, limit)
  {
    hide UpToNul;
    var t := StringAt(a, i);
    CutParts(a[i..]);
    var n := i + |t|;
    assert a[i..][|t|] == a[n];
    assert b[i..n] == a[i..n] == a[i..][..|t|];
    StringIs(b, i, t);
    CutNoNul(a[i..]);
    CutNoNul(t);
  }

  lemma EndsLater(b: seq<char>, i: nat, limit: nat, limit': nat)
    requires Ends(b, i, limit) && limit <= limit' <= |b|
    ensures Ends(b, i, limit')
  {
  }

  lemma AttributesSame(a: seq<char>, b: seq<char>, limit: nat, limit': nat, attrs: seq<AttributeAt>)
    requires SettledAttributes(a, limit, attrs) && Agree(a, b, limit, |a|) && limit <= limit' <= |b|
    ensures ViewAttributes(b, attrs) == ViewAttributes(a, attrs) && SettledAttributes(b, limit', attrs)
  {
    hide StringAt, Ends, Agree;
    forall i | 0 <= i < |attrs|
      ensures StringAt(b, attrs[i].name) == StringAt(a, attrs[i].name) && Ends(b, attrs[i].name, limit')
      ensures StringAt(b, attrs[i].value) == StringAt(a, attrs[i].value) && Ends(b, attrs[i].value, limit')
    {
      OneSame(a, b, attrs[i].name, limit, limit');
      OneSame(a, b, attrs[i].value, limit, limit');
    }
  }

  lemma OneSame(a: seq<char>, b: seq<char>, i: nat, limit: nat, limit': nat)
    requires Ends(a, i, limit) && Agree(a, b, limit, |a|) && limit <= limit' <= |b|
    ensures StringAt(b, i) == StringAt(a, i) && Ends(b, i, limit')
  {
    StringSame(a, b, i, limit);
    EndsLater(b, i, limit, limit');
  }

  lemma {:induction false} NodesSame(a: seq<char>, b: seq<char>, limit: nat, limit': nat, ns: seq<NodeAt>)
    requires Settled(a, limit, ns) && Agree(a, b, limit, |a|) && limit <= limit' <= |b|
    ensures Views(b, ns) == Views(a, ns) && Settled(b, limit', ns)
    decreases ns, 1
  {
    hide StringAt, Ends, Agree, ViewAttributes, SettledAttributes, View, SettledNode;
    forall i | 0 <= i < |ns| ensures View(b, ns[i]) == View(a, ns[i]) && SettledNode(b, limit', ns[i]) {
      NodeSame(a, b, limit, limit', ns[i]);
    }
  }

  lemma {:induction false} NodeSame(a: seq<char>, b: seq<char>, limit: nat, limit': nat, n: NodeAt)
    requires SettledNode(a, limit, n) && Agree(a, b, limit, |a|) && limit <= limit' <= |b|
    ensures View(b, n) == View(a, n) && SettledNode(b, limit', n)
    decreases n, 0
  {
    hide StringAt, Ends, Agree, ViewAttributes, SettledAttributes, Settled, Views;
    match n
    case ElemAt(name, attrs, kids) =>
      OneSame(a, b, name, limit, limit');
      AttributesSame(a, b, limit, limit', attrs);
      NodesSame(a, b, limit, limit', kids);
    case TextAt(value) => OneSame(a, b, value, limit, limit');
    case CdataAt(value) => OneSame(a, b, value, limit, limit');
  }

  lemma StackSame(a: seq<char>, b: seq<char>, limit: nat, limit': nat, st: StackAt)
    requires SettledStack(a, limit, st) && Agree(a, b, limit, |a|) && limit <= limit' <= |b|
    ensures ViewStack(b, st) == ViewStack(a, st) && SettledStack(b, limit', st)
  {
    hide StringAt, Ends, Agree, ViewAttributes, SettledAttributes, Settled, Views;
    NodesSame(a, b, limit, limit', st[0].kids);
    forall i | 1 <= i < |st| ensures ViewFrame(b, st[i]) == ViewFrame(a, st[i]) && SettledFrame(b, limit', st[i]) {
      OneSame(a, b, st[i].name, limit, limit');
      AttributesSame(a, b, limit, limit', st[i].attrs);
      NodesSame(a, b, limit, limit', st[i].kids);
    }
  }

  // ----- the parser's place

  /** Segments end before the cursor; at the end of the input the last one may end at the final terminator. */
  function Limit(s: nat, end: nat): nat {
    if s == end then end + 1 else s
  }

  ghost predicate Ready(b: seq<char>, s: nat, end: nat, st: StackAt) {
    s <= end < |b| && b[end] == '\0' && SettledStack(b, Limit(s, end), st)
  }

  /** Going on from s to s', writing in between only, keeps everything collected so far. */
  lemma Carried(a: seq<char>, b: seq<char>, s: nat, s': nat, end: nat, st: StackAt)
    requires Ready(a, s, end, st) && s <= s' <= end && Agree(a, b, s, s')
    ensures Ready(b, s', end, st) && ViewStack(b, st) == ViewStack(a, st) && b[s'..end] == a[s'..end]
  {
    hide SettledStack, ViewStack;
    assert Agree(a, b, Limit(s, end), |a|);
    StackSame(a, b, Limit(s, end), Limit(s', end), st);
  }

  function PushAt(st: StackAt, n: NodeAt): (r: StackAt)
    ensures |r| == |st|
  {
    var k := |st| - 1;
    st[..k] + [st[k].(kids := st[k].kids + [n])]
  }

  function PopAt(st: StackAt): (r: StackAt)
    requires |st| > 1
    ensures |r| == |st| - 1
  {
    var k := |st| - 1;
    PushAt(st[..k], ElemAt(st[k].name, st[k].attrs, st[k].kids))
  }

  lemma ViewsMore(b: seq<char>, limit: nat, ns: seq<NodeAt>, n: NodeAt)
    requires Settled(b, limit, ns) && SettledNode(b, limit, n)
    ensures Views(b, ns + [n]) == Views(b, ns) + [View(b, n)] && Settled(b, limit, ns + [n])
  {
    hide View, SettledNode;
  }

  lemma PushViewed(b: seq<char>, limit: nat, st: StackAt, n: NodeAt)
    requires SettledStack(b, limit, st) && SettledNode(b, limit, n)
    ensures ViewStack(b, PushAt(st, n)) == Push(ViewStack(b, st), View(b, n)) && SettledStack(b, limit, PushAt(st, n))
  {
    hide StringAt, Ends, ViewAttributes, SettledAttributes, Settled, Views, View, SettledNode;
    var k := |st| - 1;
    assert k > 0 ==> SettledFrame(b, limit, st[k]);
    ViewsMore(b, limit, st[k].kids, n);
    var r := PushAt(st, n);
    forall i | 0 <= i < |st| ensures ViewStack(b, r)[i] == Push(ViewStack(b, st), View(b, n))[i] {
      assert i < k ==> r[i] == st[i];
    }
  }

  lemma PopViewed(b: seq<char>, limit: nat, st: StackAt)
    requires SettledStack(b, limit, st) && |st| > 1
    ensures ViewStack(b, PopAt(st)) == Pop(ViewStack(b, st)) && SettledStack(b, limit, PopAt(st))
  {
    hide StringAt, Ends, ViewAttributes, SettledAttributes, Settled, Views, Push, PushAt;
    var k := |st| - 1;
    var n := ElemAt(st[k].name, st[k].attrs, st[k].kids);
    assert SettledFrame(b, limit, st[k]);
    PushViewed(b, limit, st[..k], n);
    assert ViewStack(b, st[..k]) == ViewStack(b, st)[..k];
  }

  lemma OpenViewed(b: seq<char>, limit: nat, st: StackAt, name: nat, attrs: seq<AttributeAt>)
    requires SettledStack(b, limit, st) && Ends(b, name, limit) && SettledAttributes(b, limit, attrs)
    ensures var st' := st + [FrameAt(name, attrs, [])];
            && ViewStack(b, st') == ViewStack(b, st) + [Frame(StringAt(b, name), ViewAttributes(b, attrs), [])]
            && SettledStack(b, limit, st')
  {
    hide StringAt, Ends, ViewAttributes, SettledAttributes;
    var st' := st + [FrameAt(name, attrs, [])];
    assert Views(b, []) == [];
    forall i | 1 <= i < |st'| ensures SettledFrame(b, limit, st'[i]) {
      assert i < |st| ==> st'[i] == st[i];
    }
  }
}
