/** Printing a document raw: following its links, and through the buffered writer. */
module XmlOutput {
  import opened Documents
  import opened Walkers
  import opened XmlText
  import opened XmlParser
  import opened XmlPrint
  import opened XmlTree
  import W = BufferedWriters
  import C = OutputConversion
  import Utf

  /** A document node is never a child. */
  predicate OneDocument(d: Doc)
    requires d.Valid()
  {
    forall i :: 0 < i < d.Size() ==> d.kind[i] != NodeKind.Document
  }

  // ----- the tree a node stands for

  function AttributesAt(d: Doc, i: nat): seq<Attribute>
    requires d.Valid() && i < d.Size()
  {
    seq(|d.attrs[i]|, k requires 0 <= k < |d.attrs[i]| => Attribute(d.attrs[i][k].name, d.attrs[i][k].value))
  }

  /** Where the siblings of i end. */
  function Fence(d: Doc, i: nat): (e: int)
    requires d.Valid() && i < d.Size()
    ensures d.end[i] <= e <= d.Size()
  {
    FenceIs(d, i);
    if d.parent[i] < 0 then d.Size() else d.end[d.parent[i]]
  }

  lemma FenceIs(d: Doc, i: nat)
    requires d.Valid() && i < d.Size()
    ensures d.parent[i] >= 0 ==> d.parent[i] < d.Size() && d.end[i] <= d.end[d.parent[i]] <= d.Size()
  {
    if d.parent[i] >= 0 {
      InParent(d, i);
      Nests(d, d.parent[i], i);
      Bounds(d);
    }
  }

  lemma LinksAhead(d: Doc, i: nat)
    requires d.Valid() && i < d.Size()
    ensures FirstChild(d, i) != NoNode ==> FirstChild(d, i) == i + 1 < d.Size() && Fence(d, i + 1) == d.end[i] && d.parent[i + 1] == i
    ensures NextSibling(d, i) != NoNode ==>
              i < NextSibling(d, i) < d.Size() && Fence(d, NextSibling(d, i)) == Fence(d, i)
              && d.parent[NextSibling(d, i)] == d.parent[i]
  {
    FirstChildLink(d, i);
    NextSiblingLink(d, i);
    NextSiblingIs(d, i);
    Bounds(d);
  }

  /** A node as the parser would hand it over: a document node is its children. */
  function NodesAt(d: Doc, i: nat): seq<Tree>
    requires d.Valid() && i < d.Size()
    decreases d.end[i] - i, 0
  {
    LinksAhead(d, i);
    match d.kind[i]
    case Element => [Elem(d.name[i], AttributesAt(d, i), Siblings(d, FirstChild(d, i)))]
    case Document => Siblings(d, FirstChild(d, i))
    case PcData => [Text(d.value[i])]
    case CData => [Cdata(d.value[i])]
    case Comment => [Tree.Comment(d.value[i])]
    case Instruction => [Pi(d.name[i], d.value[i])]
    case Declaration => [Tree.Declaration(d.name[i], AttributesAt(d, i))]
    case Doctype => [Tree.Doctype(d.value[i])]
  }

  /** The node c and its later siblings. */
  function Siblings(d: Doc, c: int): seq<Tree>
    requires d.Valid() && (c == NoNode || 0 <= c < d.Size())
    decreases if c == NoNode then 0 else Fence(d, c) - c, 1
  {
    if c == NoNode then []
    else
      LinksAhead(d, c);
      NodesAt(d, c) + Siblings(d, NextSibling(d, c))
  }

  // ----- what is still to be printed

  predicate Inside(d: Doc, root: nat, cur: nat)
    requires d.Valid() && root < d.Size()
  {
    cur < d.Size() && (cur == root || Below(d, root, cur))
  }

  function Close(d: Doc, i: nat): string
    requires d.Valid() && i < d.Size()
  {
    if d.kind[i] == NodeKind.Element then ['<', '/'] + Shown(d.name[i]) + ['>'] else []
  }

  lemma ParentInside(d: Doc, root: nat, cur: nat)
    requires d.Valid() && root < d.Size() && Inside(d, root, cur) && cur != root
    ensures 0 <= d.parent[cur] < cur && Inside(d, root, d.parent[cur])
  {
    Nests(d, root, cur);
    Bounds(d);
  }

  /** Everything after the subtree of cur, up to the end of root's. */
  function After(d: Doc, root: nat, cur: nat): string
    requires d.Valid() && root < d.Size() && Inside(d, root, cur)
    decreases cur
  {
    if cur == root then []
    else
      ParentInside(d, root, cur);
      LinksAhead(d, cur);
      PrintAll(Siblings(d, NextSibling(d, cur))) + (Close(d, d.parent[cur]) + After(d, root, d.parent[cur]))
  }

  lemma SiblingsSplit(d: Doc, c: nat)
    requires d.Valid() && c < d.Size()
    ensures (NextSibling(d, c) == NoNode || 0 <= NextSibling(d, c) < d.Size())
    ensures PrintAll(Siblings(d, c)) == PrintAll(NodesAt(d, c)) + PrintAll(Siblings(d, NextSibling(d, c)))
  {
    hide PrintAll, NodesAt, FirstChild, NextSibling, Doc.Valid;
    LinksAhead(d, c);
    PrintJoin(NodesAt(d, c), Siblings(d, NextSibling(d, c)));
  }

  /** The start tag of an element with children, and the text of nodes without. */
  function Open(d: Doc, i: nat): string
    requires d.Valid() && i < d.Size()
  {
    if d.kind[i] == NodeKind.Element then ['<'] + Shown(d.name[i]) + PrintAttributes(AttributesAt(d, i)) + ['>'] else []
  }

  lemma ElementText(name: string, attrs: seq<Attribute>, kids: seq<Tree>)
    ensures kids == [] ==> PrintAll([Elem(name, attrs, kids)]) == ['<'] + Shown(name) + PrintAttributes(attrs) + [' ', '/', '>']
    ensures kids != [] ==>
              PrintAll([Elem(name, attrs, kids)]) ==
              (['<'] + Shown(name) + PrintAttributes(attrs) + ['>']) + PrintAll(kids) + (['<', '/'] + Shown(name) + ['>'])
  {
    hide PrintAttributes, Shown;
    var t := Elem(name, attrs, kids);
    LastPrinted(t);
    assert PrintMarkup(t) == PrintOpen(t);
  }

  /** A node with children: its start, its children, its end. */
  lemma NodeText(d: Doc, i: nat)
    requires d.Valid() && OneDocument(d) && i < d.Size() && FirstChild(d, i) != NoNode
    requires d.kind[i] == NodeKind.Element || d.kind[i] == NodeKind.Document
    ensures 0 <= FirstChild(d, i) < d.Size()
    ensures PrintAll(NodesAt(d, i)) == Open(d, i) + PrintAll(Siblings(d, FirstChild(d, i))) + Close(d, i)
  {
    hide PrintAll, FirstChild, NextSibling, PrintAttributes, AttributesAt;
    LinksAhead(d, i);
    var c := FirstChild(d, i);
    if d.kind[i] == NodeKind.Element {
      HasNode(d, c);
      ElementText(d.name[i], AttributesAt(d, i), Siblings(d, c));
    } else {
      assert [] + PrintAll(Siblings(d, c)) + [] == PrintAll(Siblings(d, c));
    }
  }

  lemma HasNode(d: Doc, c: nat)
    requires d.Valid() && OneDocument(d) && 0 < c < d.Size()
    ensures Siblings(d, c) != []
  {
    hide FirstChild, NextSibling;
    LinksAhead(d, c);
    assert |NodesAt(d, c)| == 1;
  }

  // ----- one move of the walk

  lemma GoDown(d: Doc, root: nat, cur: nat)
    requires d.Valid() && OneDocument(d) && root < d.Size() && Inside(d, root, cur) && FirstChild(d, cur) != NoNode
    requires d.kind[cur] == NodeKind.Element || d.kind[cur] == NodeKind.Document
    ensures var c := FirstChild(d, cur);
            && c == cur + 1 && Inside(d, root, c) && c != root
            && PrintAll(NodesAt(d, cur)) + After(d, root, cur) == Open(d, cur) + (PrintAll(NodesAt(d, c)) + After(d, root, c))
  {
    hide PrintAll, NodesAt, Siblings, NextSibling, OneDocument, Open, Close;
    LinksAhead(d, cur);
    NodeText(d, cur);
    var c := FirstChild(d, cur);
    SiblingsSplit(d, c);
    var node, later, close, after := PrintAll(NodesAt(d, c)), PrintAll(Siblings(d, NextSibling(d, c))), Close(d, cur), After(d, root, cur);
    ChildInside(d, root, cur);
    assert After(d, root, c) == later + (close + after);
    Regroup(Open(d, cur), node, later, close, after);
  }

  lemma ChildInside(d: Doc, root: nat, cur: nat)
    requires d.Valid() && root < d.Size() && Inside(d, root, cur) && FirstChild(d, cur) != NoNode
    ensures Inside(d, root, FirstChild(d, cur)) && FirstChild(d, cur) != root
  {
    if cur != root {
      Nests(d, root, cur);
    }
  }

  lemma Regroup(open: string, node: string, later: string, close: string, after: string)
    ensures (open + (node + later) + close) + after == open + (node + (later + (close + after)))
  {
  }

  lemma GoOn(d: Doc, root: nat, cur: nat)
    requires d.Valid() && root < d.Size() && Inside(d, root, cur) && cur != root && NextSibling(d, cur) != NoNode
    ensures var n := NextSibling(d, cur);
            && cur < n && Inside(d, root, n) && n != root
            && After(d, root, cur) == PrintAll(NodesAt(d, n)) + After(d, root, n)
  {
    hide PrintAll, NodesAt, Siblings, Close, FirstChild, NextSibling, Doc.Valid, Below;
    LinksAhead(d, cur);
    var n := NextSibling(d, cur);
    SiblingsSplit(d, n);
    ParentInside(d, root, cur);
    NextInside(d, root, cur);
    var node, later := PrintAll(NodesAt(d, n)), PrintAll(Siblings(d, NextSibling(d, n)));
    var rest := Close(d, d.parent[cur]) + After(d, root, d.parent[cur]);
    assert After(d, root, n) == later + rest;
    assert (node + later) + rest == node + (later + rest);
  }

  lemma NextInside(d: Doc, root: nat, cur: nat)
    requires d.Valid() && root < d.Size() && Inside(d, root, cur) && cur != root && NextSibling(d, cur) != NoNode
    ensures Inside(d, root, NextSibling(d, cur)) && NextSibling(d, cur) != root && d.parent[NextSibling(d, cur)] == d.parent[cur]
  {
    Nests(d, root, cur);
    NextSiblingLink(d, cur);
    NextSiblingIs(d, cur);
    Bounds(d);
  }

  lemma GoUp(d: Doc, root: nat, cur: nat)
    requires d.Valid() && root < d.Size() && Inside(d, root, cur) && cur != root && NextSibling(d, cur) == NoNode
    ensures 0 <= d.parent[cur] < cur && Inside(d, root, d.parent[cur])
    ensures After(d, root, cur) == Close(d, d.parent[cur]) + After(d, root, d.parent[cur])
  {
    hide Close, Doc.Valid, PrintAll, Siblings, NextSibling, Below;
    ParentInside(d, root, cur);
    NothingLater(d);
    assert [] + (Close(d, d.parent[cur]) + After(d, root, d.parent[cur])) ==
           Close(d, d.parent[cur]) + After(d, root, d.parent[cur]);
  }

  lemma NothingLater(d: Doc)
    requires d.Valid()
    ensures PrintAll(Siblings(d, NoNode)) == []
  {
    hide Doc.Valid;
  }

  // ----- writing

  /** The text goes out as it is, and faithfully if every piece of it starts at a code point. */
  ghost predicate Wrote(enc: C.Encoding, a: W.Progress, b: W.Progress, text: string, ok: bool) {
    W.Text(b) == W.Text(a) + Bytes(text) && (ok && W.Faithful(enc, a) ==> W.Faithful(enc, b))
  }

  lemma WroteNothing(enc: C.Encoding, a: W.Progress, ok: bool)
    ensures Wrote(enc, a, a, "", ok)
  {
    hide W.Text, W.Faithful;
    assert W.Text(a) + [] == W.Text(a);
  }

  lemma WroteMore(enc: C.Encoding, a: W.Progress, b: W.Progress, c: W.Progress, out: string, text: string, ok: bool)
    requires Wrote(enc, a, b, out, ok) && W.Text(c) == W.Text(b) + Bytes(text)
    requires ok && W.Faithful(enc, b) ==> W.Faithful(enc, c)
    ensures Wrote(enc, a, c, out + text, ok)
  {
    hide W.Text, W.Faithful;
    BytesJoin(out, text);
    assert (W.Text(a) + Bytes(out)) + Bytes(text) == W.Text(a) + (Bytes(out) + Bytes(text));
  }

  /** Since was, the writer has taken exactly the text out. */
  ghost predicate Has(w: W.Writer, was: W.Progress, out: string, ok: bool)
    reads w, w.buffer
  {
    w.Valid() && Wrote(w.encoding, was, w.State(), out, ok)
  }

  /** The text starts at a code point; in the native encoding any text. */
  predicate Starts(enc: C.Encoding, text: string) {
    W.Accepts(enc, Bytes(text))
  }

  /** Continuation bytes follow non-ASCII bytes only, so that no piece cut after an ASCII character starts with one. */
  predicate Seamless(enc: C.Encoding, s: string) {
    enc.Utf8? || forall i :: 0 <= i < |s| && Utf.IsCont(Bytes(s)[i]) ==> i > 0 && s[i - 1] as int >= 128
  }

  lemma SeamlessPart(enc: C.Encoding, s: string, i: nat, j: nat)
    requires Seamless(enc, s) && i <= j <= |s| && (i == 0 || s[i - 1] as int < 128)
    ensures Starts(enc, s[i..j])
  {
    if i < j {
      assert Bytes(s[i..j])[0] == Bytes(s)[i];
    }
  }

  lemma AsciiStarts(enc: C.Encoding, s: string)
    requires s != [] && (s[0] as int < 128 || s[0] as int == 0xEF)
    ensures Starts(enc, s)
  {
  }

  /** One to six characters. */
  method Put(w: W.Writer, text: string, ghost was: W.Progress, ghost out: string, ghost ok: bool) returns (ghost out': string)
    requires 1 <= |text| <= 6 && (text[0] as int < 128 || text[0] as int == 0xEF) && Has(w, was, out, ok)
    modifies w, w.buffer, w.scratch
    ensures out' == out + text && Has(w, was, out', ok)
  {
    hide Wrote, W.Faithful, W.Text, W.Apply;
    AsciiStarts(w.encoding, text);
    ghost var before := w.State();
    w.WriteFew(Bytes(text));
    out' := out + text;
    WroteMore(w.encoding, was, before, w.State(), out, text, ok);
  }

  method PutString(w: W.Writer, text: string, ghost was: W.Progress, ghost out: string, ghost ok: bool) returns (ghost out': string)
    requires (ok ==> Starts(w.encoding, text)) && Has(w, was, out, ok)
    modifies w, w.buffer, w.scratch
    ensures out' == out + text && Has(w, was, out', ok)
  {
    hide Wrote, W.Faithful, W.Text, W.Apply;
    ghost var before := w.State();
    w.WriteString(Bytes(text));
    out' := out + text;
    WroteMore(w.encoding, was, before, w.State(), out, text, ok);
  }

  method PutBuffer(w: W.Writer, text: string, ghost was: W.Progress, ghost out: string, ghost ok: bool) returns (ghost out': string)
    requires (ok ==> Starts(w.encoding, text)) && Has(w, was, out, ok)
    modifies w, w.buffer, w.scratch
    ensures out' == out + text && Has(w, was, out', ok)
  {
    hide Wrote, W.Faithful, W.Text, W.Apply;
    ghost var before := w.State();
    w.WriteBuffer(Bytes(text));
    out' := out + text;
    WroteMore(w.encoding, was, before, w.State(), out, text, ok);
  }

  // ----- strings

  lemma EscapeHead(s: string, i: nat, attr: bool)
    requires i < |s|
    ensures Escape(s[i..], attr) == EscapeChar(s[i], attr) + Escape(s[i + 1..], attr)
    ensures !IsSpecial(s[i], attr) ==> EscapeChar(s[i], attr) == [s[i]]
    ensures IsSpecial(s[i], attr) ==> 1 <= |EscapeChar(s[i], attr)| <= 6 && EscapeChar(s[i], attr)[0] == '&' && s[i] as int < 128
  {
    assert s[i..][1..] == s[i + 1..];
  }

  lemma Regrouped(a: string, b: string, c: string)
    ensures (a + b) + c == a + (b + c)
  {
  }

  /** s[i..j] and one character more. */
  lemma RunMore(s: string, i: nat, j: nat, rest: string)
    requires i <= j < |s|
    ensures s[i..j] + ([s[j]] + rest) == s[i..j + 1] + rest
  {
  }

  lemma NoPart(s: string, i: nat, f: string)
    requires i <= |s|
    ensures s[i..i] + f == f && s[|s|..] == []
  {
  }

  /** Over the characters that need no escape. */
  method EscapedRun(s: string, from: nat, attr: bool) returns (i: nat)
    requires from <= |s|
    ensures from <= i <= |s| && (i < |s| ==> IsSpecial(s[i], attr))
    ensures Escape(s[from..], attr) == s[from..i] + Escape(s[i..], attr)
  {
    hide Escape, EscapeChar, IsSpecial;
    i := from;
    NoPart(s, i, Escape(s[i..], attr));
    while i < |s| && !IsSpecial(s[i], attr)
      invariant from <= i <= |s| && s[from..i] + Escape(s[i..], attr) == Escape(s[from..], attr)
    {
      EscapeHead(s, i, attr);
      RunMore(s, from, i, Escape(s[i + 1..], attr));
      i := i + 1;
    }
  }

  method OutputEscaped(w: W.Writer, s: string, attr: bool, ghost was: W.Progress, ghost out0: string, ghost ok: bool) returns (ghost out: string)
    requires (ok ==> Seamless(w.encoding, s)) && Has(w, was, out0, ok)
    modifies w, w.buffer, w.scratch
    ensures out == out0 + Escape(s, attr) && Has(w, was, out, ok)
  {
    hide Has, Escape, EscapeChar, IsSpecial, Seamless, Starts;
    out := out0;
    var i := 0;
    assert s[0..] == s;
    while i < |s|
      invariant 0 <= i <= |s| && Has(w, was, out, ok)
      invariant out + Escape(s[i..], attr) == out0 + Escape(s, attr)
      invariant i > 0 ==> s[i - 1] as int < 128 || i == |s|
      decreases |s| - i
    {
      var prev := i;
      i := EscapedRun(s, i, attr);
      if ok {
        SeamlessPart(w.encoding, s, prev, i);
      }
      Regrouped(out, s[prev..i], Escape(s[i..], attr));
      out := PutBuffer(w, s[prev..i], was, out, ok);
      if i < |s| {
        EscapeHead(s, i, attr);
        Regrouped(out, EscapeChar(s[i], attr), Escape(s[i + 1..], attr));
        out := Put(w, EscapeChar(s[i], attr), was, out, ok);
        i := i + 1;
      }
    }
    EscapedNothing(attr);
    assert s[i..] == [] && out + [] == out;
  }

  lemma EscapedNothing(attr: bool)
    ensures Escape([], attr) == []
  {
  }

  lemma CommentHead(s: string, i: nat)
    requires i < |s|
    ensures CommentText(s[i..]) ==
            (if s[i] == '-' && (i + 1 == |s| || s[i + 1] == '-') then "- " else [s[i]]) + CommentText(s[i + 1..])
  {
    assert s[i..][1..] == s[i + 1..] && (i + 1 < |s| ==> s[i..][1] == s[i + 1]);
  }

  method CommentRun(s: string, from: nat) returns (i: nat)
    requires from <= |s|
    ensures from <= i <= |s| && (i < |s| ==> s[i] == '-' && (i + 1 == |s| || s[i + 1] == '-'))
    ensures CommentText(s[from..]) == s[from..i] + CommentText(s[i..])
  {
    hide CommentText;
    i := from;
    NoPart(s, i, CommentText(s[i..]));
    while i < |s| && !(s[i] == '-' && (i + 1 == |s| || s[i + 1] == '-'))
      invariant from <= i <= |s| && s[from..i] + CommentText(s[i..]) == CommentText(s[from..])
    {
      CommentHead(s, i);
      RunMore(s, from, i, CommentText(s[i + 1..]));
      i := i + 1;
    }
  }

  method OutputComment(w: W.Writer, s: string, ghost was: W.Progress, ghost out0: string, ghost ok: bool) returns (ghost out: string)
    requires (ok ==> Seamless(w.encoding, s)) && Has(w, was, out0, ok)
    modifies w, w.buffer, w.scratch
    ensures out == out0 + ("<!--" + CommentText(s) + "-->") && Has(w, was, out, ok)
  {
    hide Has, CommentText, Seamless, Starts;
    out := Put(w, "<!--", was, out0, ok);
    ghost var open := out;
    var i := 0;
    assert s[0..] == s;
    while i < |s|
      invariant 0 <= i <= |s| && Has(w, was, out, ok)
      invariant out + CommentText(s[i..]) == open + CommentText(s)
      invariant i > 0 ==> s[i - 1] as int < 128 || i == |s|
      decreases |s| - i
    {
      var prev := i;
      i := CommentRun(s, i);
      if ok {
        SeamlessPart(w.encoding, s, prev, i);
      }
      Regrouped(out, s[prev..i], CommentText(s[i..]));
      out := PutBuffer(w, s[prev..i], was, out, ok);
      if i < |s| {
        CommentHead(s, i);
        Regrouped(out, "- ", CommentText(s[i + 1..]));
        out := Put(w, "- ", was, out, ok);
        i := i + 1;
      }
    }
    CommentNothing();
    assert s[i..] == [] && out + [] == out;
    out := Put(w, "-->", was, out, ok);
    assert open + CommentText(s) + "-->" == out0 + ("<!--" + CommentText(s) + "-->");
  }

  lemma CommentNothing()
    ensures CommentText([]) == []
  {
  }

  lemma PiHead(s: string, i: nat)
    requires i < |s|
    ensures if s[i] == '?' && i + 1 < |s| && s[i + 1] == '>' then PiText(s[i..]) == "? >" + PiText(s[i + 2..])
            else PiText(s[i..]) == [s[i]] + PiText(s[i + 1..])
  {
    var t := s[i..];
    assert t[1..] == s[i + 1..] && (i + 1 < |s| ==> t[1] == s[i + 1] && t[2..] == s[i + 2..]);
    assert "?>" <= t <==> s[i] == '?' && i + 1 < |s| && s[i + 1] == '>' by {
      assert |t| >= 2 ==> t[..2] == [t[0], t[1]];
    }
  }

  method PiRun(s: string, from: nat) returns (i: nat)
    requires from <= |s|
    ensures from <= i <= |s| && (i < |s| ==> s[i] == '?' && i + 1 < |s| && s[i + 1] == '>')
    ensures PiText(s[from..]) == s[from..i] + PiText(s[i..])
  {
    hide PiText;
    i := from;
    NoPart(s, i, PiText(s[i..]));
    while i < |s| && !(s[i] == '?' && i + 1 < |s| && s[i + 1] == '>')
      invariant from <= i <= |s| && s[from..i] + PiText(s[i..]) == PiText(s[from..])
    {
      PiHead(s, i);
      RunMore(s, from, i, PiText(s[i + 1..]));
      i := i + 1;
    }
  }

  method OutputPiValue(w: W.Writer, s: string, ghost was: W.Progress, ghost out0: string, ghost ok: bool) returns (ghost out: string)
    requires (ok ==> Seamless(w.encoding, s)) && Has(w, was, out0, ok)
    modifies w, w.buffer, w.scratch
    ensures out == out0 + PiText(s) && Has(w, was, out, ok)
  {
    hide Has, PiText, Seamless, Starts;
    out := out0;
    var i := 0;
    assert s[0..] == s;
    while i < |s|
      invariant 0 <= i <= |s| && Has(w, was, out, ok)
      invariant out + PiText(s[i..]) == out0 + PiText(s)
      invariant i > 0 ==> s[i - 1] as int < 128 || i == |s|
      decreases |s| - i
    {
      var prev := i;
      i := PiRun(s, i);
      if ok {
        SeamlessPart(w.encoding, s, prev, i);
      }
      Regrouped(out, s[prev..i], PiText(s[i..]));
      out := PutBuffer(w, s[prev..i], was, out, ok);
      if i < |s| {
        PiHead(s, i);
        Regrouped(out, "? >", PiText(s[i + 2..]));
        out := Put(w, "? >", was, out, ok);
        i := i + 2;
      }
    }
    PiNothing();
    assert s[i..] == [] && out + [] == out;
  }

  lemma PiNothing()
    ensures PiText([]) == []
  {
  }

  lemma CdataPiece(s: string, i: nat, k: nat)
    requires i <= k <= |s| && k - i == SectionEnd(s[i..])
    ensures k < |s| ==> k + 2 < |s| && s[k + 1] as int < 128
    ensures CdataText(s[i..]) + ">" ==
            "<![CDATA[" + s[i..if k < |s| then k + 2 else k] + "]]>" + (if k < |s| then CdataText(s[k + 2..]) + ">" else "")
  {
    hide SectionEnd, CdataText;
    var t, n := s[i..], k - i;
    CdataUnfold(t);
    if k < |s| {
      SectionBracket(t);
      assert t[..n + 2] == s[i..k + 2] && t[n + 2..] == s[k + 2..];
      Bracketed(s[i..k + 2], CdataText(s[k + 2..]));
    } else {
      assert t == s[i..k];
      Bracketed(t, "");
    }
  }

  lemma CdataUnfold(t: string)
    ensures var k := SectionEnd(t);
            CdataText(t) == "<![CDATA[" + (if k == |t| then t + "]]" else t[..k + 2] + "]]>" + CdataText(t[k + 2..]))
  {
    hide SectionEnd;
  }

  lemma Bracketed(piece: string, more: string)
    ensures ("<![CDATA[" + (piece + "]]>" + more)) + ">" == "<![CDATA[" + piece + "]]>" + (more + ">")
    ensures ("<![CDATA[" + (piece + "]]")) + ">" == "<![CDATA[" + piece + "]]>" + ""
  {
    assert "]]" + ">" == "]]>";
  }

  lemma SectionBracket(t: string)
    requires SectionEnd(t) < |t|
    ensures t[SectionEnd(t) + 1] == ']'
  {
    hide FindMark;
    var n := SectionEnd(t);
    assert t[n..n + 2][1] == t[n + 1];
  }

  method OutputCdata(w: W.Writer, s: string, ghost was: W.Progress, ghost out0: string, ghost ok: bool) returns (ghost out: string)
    requires (ok ==> Seamless(w.encoding, s)) && Has(w, was, out0, ok)
    modifies w, w.buffer, w.scratch
    ensures out == out0 + (CdataText(s) + ">") && Has(w, was, out, ok)
  {
    hide Has, CdataText, Seamless, Starts, SectionEnd;
    out := out0;
    var i := 0;
    assert s[0..] == s;
    while true
      invariant 0 <= i <= |s| && Has(w, was, out, ok)
      invariant out + (CdataText(s[i..]) + ">") == out0 + (CdataText(s) + ">")
      invariant i == 0 || s[i - 1] as int < 128
      decreases |s| - i
    {
      ghost var before := out;
      var k := i + SectionEnd(s[i..]);
      CdataPiece(s, i, k);
      var stop := if k < |s| then k + 2 else k;
      out := Put(w, "<![CD", was, out, ok);
      out := Put(w, "ATA[", was, out, ok);
      if ok {
        SeamlessPart(w.encoding, s, i, stop);
      }
      out := PutBuffer(w, s[i..stop], was, out, ok);
      out := Put(w, "]]>", was, out, ok);
      PiecesJoin(before, s[i..stop], if k < |s| then CdataText(s[k + 2..]) + ">" else "");
      if k == |s| {
        assert out + [] == out;
        return;
      }
      i := stop;
    }
  }

  lemma PiecesJoin(before: string, piece: string, more: string)
    ensures before + "<![CD" + "ATA[" + piece + "]]>" + more == before + ("<![CDATA[" + piece + "]]>" + more)
  {
    assert "<![CD" + "ATA[" == "<![CDATA[";
  }

  // ----- nodes

  /** All strings of the document can be cut after ASCII characters. */
  predicate SeamlessDoc(enc: C.Encoding, d: Doc)
    requires d.Valid()
  {
    forall i :: 0 <= i < d.Size() ==>
      && Seamless(enc, d.name[i]) && Seamless(enc, d.value[i])
      && forall k :: 0 <= k < |d.attrs[i]| ==> Seamless(enc, d.attrs[i][k].name) && Seamless(enc, d.attrs[i][k].value)
  }

  lemma ShownStarts(enc: C.Encoding, name: string)
    requires Seamless(enc, name)
    ensures Starts(enc, Shown(name))
  {
    if name == [] {
      AsciiStarts(enc, ":anonymous");
    } else {
      SeamlessPart(enc, name, 0, |name|);
      assert name[0..|name|] == name;
    }
  }

  /** What is known of one node. */
  lemma SeamlessAt(enc: C.Encoding, d: Doc, i: nat)
    requires d.Valid() && i < d.Size() && SeamlessDoc(enc, d)
    ensures |d.name| == |d.value| == |d.attrs| == d.Size()
    ensures Starts(enc, Shown(d.name[i])) && Seamless(enc, d.value[i]) && Starts(enc, d.value[i])
    ensures forall k :: 0 <= k < |d.attrs[i]| ==> Seamless(enc, d.attrs[i][k].name) && Seamless(enc, d.attrs[i][k].value)
  {
    hide Seamless, Starts, Shown;
    ShownStarts(enc, d.name[i]);
    var value := d.value[i];
    assert Seamless(enc, value);
    SeamlessPart(enc, value, 0, |value|);
    assert value[0..|value|] == value;
  }

  method OutputAttributes(w: W.Writer, d: Doc, i: nat, ghost was: W.Progress, ghost out0: string, ghost ok: bool) returns (ghost out: string)
    requires d.Valid() && i < d.Size() && (ok ==> SeamlessDoc(w.encoding, d)) && Has(w, was, out0, ok)
    modifies w, w.buffer, w.scratch
    ensures out == out0 + PrintAttributes(AttributesAt(d, i)) && Has(w, was, out, ok)
  {
    hide Has, Escape, Doc.Valid, Seamless, Starts, SeamlessDoc, Shown;
    Bounds(d);
    ghost var attrs := AttributesAt(d, i);
    if ok {
      SeamlessAt(w.encoding, d, i);
    }
    out := out0;
    var k := 0;
    assert attrs[0..] == attrs;
    while k < |d.attrs[i]|
      invariant 0 <= k <= |attrs| == |d.attrs[i]| && Has(w, was, out, ok)
      invariant out + PrintAttributes(attrs[k..]) == out0 + PrintAttributes(attrs)
    {
      var a := d.attrs[i][k];
      ghost var before := out;
      out := Put(w, " ", was, out, ok);
      if ok {
        ShownStarts(w.encoding, a.name);
      }
      out := PutString(w, Shown(a.name), was, out, ok);
      out := Put(w, "=\"", was, out, ok);
      out := OutputEscaped(w, a.value, true, was, out, ok);
      out := Put(w, "\"", was, out, ok);
      AttributeWritten(attrs, k, before);
      k := k + 1;
    }
    assert attrs[k..] == [] && out + [] == out;
  }

  lemma AttributeWritten(attrs: seq<Attribute>, k: nat, out: string)
    requires k < |attrs|
    ensures var a := attrs[k];
            out + PrintAttributes(attrs[k..]) ==
            (out + " " + Shown(a.name) + "=\"" + Escape(a.value, true) + "\"") + PrintAttributes(attrs[k + 1..])
  {
    hide Escape, Shown;
    assert attrs[k..][1..] == attrs[k + 1..];
    assert PrintAttributes(attrs[k..]) ==
           " " + Shown(attrs[k].name) + "=\"" + Escape(attrs[k].value, true) + "\"" + PrintAttributes(attrs[k + 1..]);
  }

  /** The start tag; an element without children is closed at once. */
  method OutputStart(w: W.Writer, d: Doc, i: nat, ghost was: W.Progress, ghost out0: string, ghost ok: bool) returns (ghost out: string)
    requires d.Valid() && i < d.Size() && d.kind[i] == NodeKind.Element
    requires (ok ==> SeamlessDoc(w.encoding, d)) && Has(w, was, out0, ok)
    modifies w, w.buffer, w.scratch
    ensures Has(w, was, out, ok)
    ensures out == out0 + if FirstChild(d, i) != NoNode then Open(d, i) else PrintAll(NodesAt(d, i))
  {
    hide Has, Doc.Valid, Starts, SeamlessDoc, Shown, PrintAll, NodesAt, FirstChild, PrintAttributes, AttributesAt, Siblings;
    Bounds(d);
    if ok {
      SeamlessAt(w.encoding, d, i);
    }
    out := Put(w, "<", was, out0, ok);
    out := PutString(w, Shown(d.name[i]), was, out, ok);
    out := OutputAttributes(w, d, i, was, out, ok);
    ghost var attrs := PrintAttributes(AttributesAt(d, i));
    if FirstChild(d, i) == NoNode {
      out := Put(w, " />", was, out, ok);
      ElementText(d.name[i], AttributesAt(d, i), []);
      Childless(d, i);
      Rejoin(out0, "<", Shown(d.name[i]), attrs, " />");
    } else {
      out := Put(w, ">", was, out, ok);
      Rejoin(out0, "<", Shown(d.name[i]), attrs, ">");
    }
  }

  lemma Rejoin(a: string, b: string, c: string, e: string, f: string)
    ensures a + b + c + e + f == a + (b + c + e + f)
  {
  }

  lemma Childless(d: Doc, i: nat)
    requires d.Valid() && i < d.Size() && FirstChild(d, i) == NoNode
    ensures d.kind[i] == NodeKind.Element ==> NodesAt(d, i) == [Elem(d.name[i], AttributesAt(d, i), [])]
    ensures d.kind[i] == NodeKind.Document ==> NodesAt(d, i) == []
  {
    hide Doc.Valid, FirstChild, AttributesAt;
    Bounds(d);
    LinksAhead(d, i);
    assert Siblings(d, NoNode) == [];
  }

  method OutputEnd(w: W.Writer, d: Doc, i: nat, ghost was: W.Progress, ghost out0: string, ghost ok: bool) returns (ghost out: string)
    requires d.Valid() && i < d.Size() && (ok ==> SeamlessDoc(w.encoding, d)) && Has(w, was, out0, ok)
    modifies w, w.buffer, w.scratch
    ensures out == out0 + Close(d, i) && Has(w, was, out, ok)
  {
    hide Has, Doc.Valid, Starts, SeamlessDoc, Shown;
    Bounds(d);
    out := out0;
    if d.kind[i] == NodeKind.Element {
      if ok {
        SeamlessAt(w.encoding, d, i);
      }
      out := Put(w, "</", was, out, ok);
      out := PutString(w, Shown(d.name[i]), was, out, ok);
      out := Put(w, ">", was, out, ok);
    }
  }

  /** Text, CDATA, comments, instructions, declarations and document types. */
  method OutputSimple(w: W.Writer, d: Doc, i: nat, ghost was: W.Progress, ghost out0: string, ghost ok: bool) returns (ghost out: string)
    requires d.Valid() && i < d.Size() && d.kind[i] != NodeKind.Element && d.kind[i] != NodeKind.Document
    requires (ok ==> SeamlessDoc(w.encoding, d)) && Has(w, was, out0, ok)
    modifies w, w.buffer, w.scratch
    ensures out == out0 + PrintAll(NodesAt(d, i)) && Has(w, was, out, ok)
  {
    hide Has, Doc.Valid, Starts, SeamlessDoc, Shown, PrintAll, PrintAttributes, AttributesAt, Escape, Seamless, FirstChild, Siblings,
      PrintMarkup, CommentText, PiText, CdataText;
    Bounds(d);
    if ok {
      SeamlessAt(w.encoding, d, i);
    }
    var value := d.value[i];
    SimpleText(d, i);
    match d.kind[i] {
      case PcData => out := OutputEscaped(w, value, false, was, out0, ok);
      case CData => out := OutputCdata(w, value, was, out0, ok);
      case Comment => out := OutputComment(w, value, was, out0, ok);
      case Instruction =>
        out := Put(w, "<?", was, out0, ok);
        out := PutString(w, Shown(d.name[i]), was, out, ok);
        if value != [] {
          out := Put(w, " ", was, out, ok);
          out := OutputPiValue(w, value, was, out, ok);
        }
        out := Put(w, "?>", was, out, ok);
      case Declaration =>
        out := Put(w, "<?", was, out0, ok);
        out := PutString(w, Shown(d.name[i]), was, out, ok);
        out := OutputAttributes(w, d, i, was, out, ok);
        out := Put(w, "?>", was, out, ok);
      case Doctype =>
        out := Put(w, "<!DOC", was, out0, ok);
        out := Put(w, "TYPE", was, out, ok);
        if value != [] {
          out := Put(w, " ", was, out, ok);
          out := PutString(w, value, was, out, ok);
        }
        out := Put(w, ">", was, out, ok);
      case _ =>
    }
  }

  /** The text of such a node. */
  lemma SimpleText(d: Doc, i: nat)
    requires d.Valid() && i < d.Size()
    ensures var p, name, value := PrintAll(NodesAt(d, i)), Shown(d.name[i]), d.value[i];
            match d.kind[i]
            case PcData => p == Escape(value, false)
            case CData => p == CdataText(value) + ">"
            case Comment => p == "<!--" + CommentText(value) + "-->"
            case Instruction => p == "<?" + name + (if value == [] then "" else " " + PiText(value)) + "?>"
            case Declaration => p == "<?" + name + PrintAttributes(AttributesAt(d, i)) + "?>"
            case Doctype => p == "<!DOCTYPE" + (if value == [] then "" else " " + value) + ">"
            case _ => true
  {
    hide Doc.Valid, Shown, PrintAttributes, AttributesAt, Escape, FirstChild, Siblings, CommentText, PiText, CdataText, PrintAll;
    Bounds(d);
    var kind := d.kind[i];
    if kind != NodeKind.Element && kind != NodeKind.Document {
      assert |NodesAt(d, i)| == 1 && NodesAt(d, i) == [NodesAt(d, i)[0]];
      LastPrinted(NodesAt(d, i)[0]);
      PiEmpty(d.value[i]);
      assert "--" + ">" == "-->" && "?" + ">" == "?>";
    }
  }

  lemma PiEmpty(s: string)
    ensures PiText(s) == [] <==> s == []
  {
  }

  // ----- the walk

  /** Leave a finished node: close elements on the way up until one has a next sibling, or root is reached. */
  method Continue(w: W.Writer, d: Doc, root: nat, start: nat, ghost was: W.Progress, ghost out0: string, ghost ok: bool)
    returns (cur: nat, ghost out: string)
    requires d.Valid() && root < d.Size() && Inside(d, root, start)
    requires (ok ==> SeamlessDoc(w.encoding, d)) && Has(w, was, out0, ok)
    modifies w, w.buffer, w.scratch
    ensures Has(w, was, out, ok)
    ensures cur == root ==> out == out0 + After(d, root, start)
    ensures cur != root ==>
              && start < cur && Inside(d, root, cur)
              && out + (PrintAll(NodesAt(d, cur)) + After(d, root, cur)) == out0 + After(d, root, start)
  {
    hide After, PrintAll, NodesAt, Siblings, NextSibling, Doc.Valid, Below, Close, Has, SeamlessDoc;
    cur, out := start, out0;
    Bounds(d);
    while cur != root
      invariant cur <= start < d.end[cur] && Inside(d, root, cur) && Has(w, was, out, ok)
      invariant out + After(d, root, cur) == out0 + After(d, root, start)
      decreases cur
    {
      if NextSibling(d, cur) != NoNode {
        GoOn(d, root, cur);
        NextSiblingIs(d, cur);
        cur := NextSibling(d, cur);
        return;
      }
      GoUp(d, root, cur);
      FenceIs(d, cur);
      ghost var up := d.parent[cur];
      Regrouped(out, Close(d, up), After(d, root, up));
      cur := d.parent[cur];
      out := OutputEnd(w, d, cur, was, out, ok);
    }
    AfterRoot(d, root);
    assert out + [] == out;
  }

  lemma AfterRoot(d: Doc, root: nat)
    requires d.Valid() && root < d.Size()
    ensures After(d, root, root) == []
  {
  }

  /** Printing by walking first-child, next-sibling and parent links writes the text of the tree. */
  method NodeOutput(w: W.Writer, d: Doc, root: nat, ghost was: W.Progress, ghost out0: string, ghost ok: bool) returns (ghost out: string)
    requires d.Valid() && OneDocument(d) && root < d.Size()
    requires (ok ==> SeamlessDoc(w.encoding, d)) && Has(w, was, out0, ok)
    modifies w, w.buffer, w.scratch
    ensures out == out0 + PrintAll(NodesAt(d, root)) && Has(w, was, out, ok)
  {
    hide After, PrintAll, NodesAt, Siblings, FirstChild, Doc.Valid, OneDocument, Below, Open, Has, SeamlessDoc;
    Bounds(d);
    out := out0;
    var node := root;
    ghost var whole := PrintAll(NodesAt(d, root));
    AfterRoot(d, root);
    assert whole + [] == whole;
    while true
      invariant Inside(d, root, node) && Has(w, was, out, ok)
      invariant out + (PrintAll(NodesAt(d, node)) + After(d, root, node)) == out0 + whole
      decreases d.Size() - node
    {
      ghost var before := out;
      var kind := d.kind[node];
      if (kind == NodeKind.Element || kind == NodeKind.Document) && FirstChild(d, node) != NoNode {
        GoDown(d, root, node);
        out := OutputOpen(w, d, node, was, out, ok);
        ghost var c := FirstChild(d, node);
        Regrouped(before, Open(d, node), PrintAll(NodesAt(d, c)) + After(d, root, c));
        node := FirstChild(d, node);
      } else {
        out := OutputLeaf(w, d, node, was, out, ok);
        Regrouped(before, PrintAll(NodesAt(d, node)), After(d, root, node));
        node, out := Continue(w, d, root, node, was, out, ok);
        if node == root {
          return;
        }
      }
    }
  }

  /** A node with children: an element is opened, a document writes nothing itself. */
  method OutputOpen(w: W.Writer, d: Doc, i: nat, ghost was: W.Progress, ghost out0: string, ghost ok: bool) returns (ghost out: string)
    requires d.Valid() && i < d.Size() && FirstChild(d, i) != NoNode
    requires (ok ==> SeamlessDoc(w.encoding, d)) && Has(w, was, out0, ok)
    modifies w, w.buffer, w.scratch
    ensures out == out0 + Open(d, i) && Has(w, was, out, ok)
  {
    hide Has, Doc.Valid, SeamlessDoc, FirstChild, PrintAll, NodesAt, PrintAttributes, AttributesAt, Shown;
    Bounds(d);
    out := out0;
    if d.kind[i] == NodeKind.Element {
      out := OutputStart(w, d, i, was, out, ok);
    }
  }

  /** A node without children. */
  method OutputLeaf(w: W.Writer, d: Doc, i: nat, ghost was: W.Progress, ghost out0: string, ghost ok: bool) returns (ghost out: string)
    requires d.Valid() && i < d.Size()
    requires d.kind[i] == NodeKind.Element || d.kind[i] == NodeKind.Document ==> FirstChild(d, i) == NoNode
    requires (ok ==> SeamlessDoc(w.encoding, d)) && Has(w, was, out0, ok)
    modifies w, w.buffer, w.scratch
    ensures out == out0 + PrintAll(NodesAt(d, i)) && Has(w, was, out, ok)
  {
    hide Has, Doc.Valid, SeamlessDoc, FirstChild, PrintAll, NodesAt, Open;
    Bounds(d);
    out := out0;
    if d.kind[i] == NodeKind.Element {
      out := OutputStart(w, d, i, was, out, ok);
    } else if d.kind[i] != NodeKind.Document {
      out := OutputSimple(w, d, i, was, out, ok);
    } else {
      Childless(d, i);
      NothingText();
      assert out + [] == out;
    }
  }

  lemma NothingText()
    ensures PrintAll([]) == []
  {
  }

  // ----- saving

  /** A declaration stands before the first element. */
  predicate Declares(ts: seq<Tree>) {
    ts != [] && (ts[0].Declaration? || (!ts[0].Elem? && Declares(ts[1..])))
  }

  method HasDeclaration(d: Doc) returns (r: bool)
    requires d.Valid() && OneDocument(d) && d.kind[0] == NodeKind.Document
    ensures r == Declares(NodesAt(d, 0))
  {
    hide Doc.Valid, FirstChild, NextSibling, AttributesAt, OneDocument, Declares;
    Bounds(d);
    LinksAhead(d, 0);
    var child := FirstChild(d, 0);
    while child != NoNode
      invariant child == NoNode || 0 < child < d.Size()
      invariant Declares(Siblings(d, child)) == Declares(NodesAt(d, 0))
      decreases if child == NoNode then 0 else d.Size() - child
    {
      DeclaresHere(d, child);
      if d.kind[child] == NodeKind.Declaration {
        return true;
      } else if d.kind[child] == NodeKind.Element {
        return false;
      }
      LinksAhead(d, child);
      child := NextSibling(d, child);
    }
    DeclaresNothing();
    return false;
  }

  lemma DeclaresNothing()
    ensures !Declares([])
  {
  }

  lemma DeclaresHere(d: Doc, c: nat)
    requires d.Valid() && OneDocument(d) && 0 < c < d.Size()
    ensures (NextSibling(d, c) == NoNode || 0 <= NextSibling(d, c) < d.Size())
    ensures Declares(Siblings(d, c)) ==
            (d.kind[c] == NodeKind.Declaration || (d.kind[c] != NodeKind.Element && Declares(Siblings(d, NextSibling(d, c)))))
  {
    hide FirstChild, NextSibling, AttributesAt;
    LinksAhead(d, c);
    var t, more := NodesAt(d, c), Siblings(d, NextSibling(d, c));
    assert |t| == 1 && (t + more)[0] == t[0] && (t + more)[1..] == more;
  }
}
