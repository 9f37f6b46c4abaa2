/** Printing a tree and parsing it back: what comes back, and which trees come back unchanged. */
module XmlTree {
  import opened XmlText
  import opened XmlParser
  import opened XmlPrint
  import opened XmlTags
  import opened XmlMarkup

  /** Printed markup, up to its last bracket, becomes the nodes it is normalised to. */
  lemma {:induction false} MarkupRead(t: Tree, tail: string, endch: char, rest: string, st: Stack)
    requires !t.Text? && PrintableNode(t, |st| == 1) && CloseEnd(tail, endch, rest)
    ensures ParseLoop(PrintMarkup(t) + tail, endch, st, false) == ParseLoop(rest, endch, PushAll(st, NormalNode(t)), false)
    decreases t, 1
  {
    if t.Elem? {
      hide ParseLoop, PrintOpen, NormalElem;
      ElemRead(t, tail, endch, rest, st);
      PushAllJoin(st, [NormalElem(t)], []);
    } else if t.Cdata? {
      hide ParseLoop, CdataText, CdataNodes;
      CdataRead(t.s, tail, endch, rest, st);
    } else {
      SkippedRead(t, tail, endch, rest, st);
      PushAllJoin(st, [], []);
    }
  }

  /** Comments, instructions, declarations and document types leave nothing behind. */
  lemma SkippedRead(t: Tree, tail: string, endch: char, rest: string, st: Stack)
    requires !t.Text? && !t.Elem? && !t.Cdata? && PrintableNode(t, |st| == 1) && CloseEnd(tail, endch, rest)
    ensures ParseLoop(PrintMarkup(t) + tail, endch, st, false) == ParseLoop(rest, endch, st, false)
  {
    hide ParseLoop, ParseQuestion, ParseExclamation, CommentText, PiText, PrintAttributes, GoodAttributes, Balanced,
      CloseEnd, Spaced, Shown, Nameable, NoNul, UpToNul, Push;
    match t {
      case Comment(s) =>
        CommentRead(s, tail, endch, rest, |st| == 1);
        ExclamationOpens("--" + CommentText(s) + "--", tail, endch, rest, st);
        assert PrintMarkup(t) == "<!" + ("--" + CommentText(s) + "--");
      case Doctype(s) =>
        DoctypeRead(s, tail, endch, rest);
        ExclamationOpens("DOCTYPE" + Spaced(s), tail, endch, rest, st);
        assert PrintMarkup(t) == "<!" + ("DOCTYPE" + Spaced(s));
      case Pi(name, value) =>
        PiBody(value);
        QuestionOpens(name, Spaced(PiText(value)), tail, endch, rest, st);
      case Declaration(name, attrs) =>
        DeclarationBody(attrs);
        QuestionOpens(name, PrintAttributes(attrs), tail, endch, rest, st);
    }
  }

  lemma ExclamationOpens(body: string, tail: string, endch: char, rest: string, st: Stack)
    requires ParseExclamation(body + tail, endch, |st| == 1) == Skipped(rest)
    ensures ParseLoop("<!" + body + tail, endch, st, false) == ParseLoop(rest, endch, st, false)
  {
    hide ParseLoop, ParseExclamation, UpToNul, Push;
    assert "<!" + body + tail == ['<', '!'] + (body + tail);
    MarkupOpens(body + tail, '!', endch, st);
  }

  lemma PiBody(value: string)
    ensures var body := Spaced(PiText(value)); NoClose(body) && (body != [] ==> body[0] == ' ')
  {
    PiNoClose(value);
  }

  lemma DeclarationBody(attrs: seq<Attribute>)
    requires GoodAttributes(attrs)
    ensures var body := PrintAttributes(attrs); NoClose(body) && (body != [] ==> body[0] == ' ')
  {
    AttributesClosed(attrs);
  }

  lemma QuestionOpens(name: string, body: string, tail: string, endch: char, rest: string, st: Stack)
    requires Nameable(name) && NoClose(body) && (body != [] ==> body[0] == ' ') && CloseEnd(tail, endch, rest)
    ensures ParseLoop("<?" + Shown(name) + body + "?" + tail, endch, st, false) == ParseLoop(rest, endch, st, false)
  {
    hide ParseLoop, ParseQuestion, Shown, NoClose, CloseEnd, UpToNul, Push;
    ShownName(name);
    var t := Shown(name) + body + "?" + tail;
    QuestionRead(Shown(name), body, tail, endch, rest);
    assert "<?" + Shown(name) + body + "?" + tail == ['<', '?'] + t;
    MarkupOpens(t, '?', endch, st);
  }

  /** A printed element, up to its last bracket, becomes one normalised child. */
  lemma {:induction false} ElemRead(t: Tree, tail: string, endch: char, rest: string, st: Stack)
    requires t.Elem? && PrintableNode(t, |st| == 1) && CloseEnd(tail, endch, rest)
    ensures ParseLoop(PrintOpen(t) + tail, endch, st, false) == ParseLoop(rest, endch, Push(st, NormalElem(t)), false)
    decreases t, 0
  {
    hide ParseLoop, PrintAttributes, NormalAttributes, Printable, Normal, PrintAll, IsName, Shown, Nameable;
    var name := Shown(t.name);
    ShownName(t.name);
    var head := ['<'] + name + PrintAttributes(t.attrs);
    var open := Frame(name, NormalAttributes(t.attrs), []);
    var st' := st + [open];
    if t.kids == [] {
      assert PrintOpen(t) + tail == head + ([' ', '/'] + tail);
      StartTagRead(name, t.attrs, [' ', '/'] + tail, endch, true, rest, st);
      EmptyNormal();
      assert Pop(st') == Push(st, NormalElem(t)) by {
        assert st'[..|st|] == st;
      }
    } else {
      var close := ['<', '/'] + name + tail;
      var inside := PrintAll(t.kids) + close;
      assert PrintOpen(t) + tail == head + (['>'] + inside);
      StartTagRead(name, t.attrs, ['>'] + inside, endch, false, inside, st);
      KidsRead(t.kids, close, endch, st');
      var full := PushAll(st', Normal(t.kids));
      EndTagRead(name, tail, endch, rest, full);
      assert Pop(full) == Push(st, NormalElem(t)) by {
        assert full[..|st|] == st && [] + Normal(t.kids) == Normal(t.kids);
      }
    }
  }

  /** Printed children followed by a closing tag become the normalised children. */
  lemma {:induction false} KidsRead(ts: seq<Tree>, close: string, endch: char, st: Stack)
    requires Printable(ts, false) && |close| > 1 && close[0] == '<' && |st| > 1
    ensures ParseLoop(PrintAll(ts) + close, endch, st, false) == ParseLoop(close, endch, PushAll(st, Normal(ts)), false)
    decreases ts, 3
  {
    hide ParseLoop, Printable, Escape, Blank, Lines, NormalNode, PushAll, NoNul;
    if ts == [] {
      assert PrintAll(ts) + close == close;
      PushAllJoin(st, [], []);
    } else if !ts[0].Text? {
      KidsStep(ts, close, endch, st);
    } else {
      KidsText(ts, close, endch, st);
    }
  }

  lemma {:induction false} KidsText(ts: seq<Tree>, close: string, endch: char, st: Stack)
    requires ts != [] && ts[0].Text? && Printable(ts, false) && |close| > 1 && close[0] == '<' && |st| > 1
    ensures ParseLoop(PrintAll(ts) + close, endch, st, false) == ParseLoop(close, endch, PushAll(st, Normal(ts)), false)
    decreases ts, 2
  {
    hide *;
    TextsPrint(ts, false);
    NormalText(ts);
    EmptyNormal();
    var run, after := LeadingText(ts), AfterText(ts);
    var rest := PrintAll(after) + close;
    assert PrintAll(ts) + close == Escape(run, false) + rest;
    if after != [] {
      PrintStarts(after);
    }
    TextRead(run, rest, endch, st);
    PushText(st, run);
    var st' := PushAll(st, TextNode(run));
    PushAllJoin(st, TextNode(run), Normal(after));
    if after == [] {
      assert rest == close;
      PushAllJoin(st', [], []);
    } else {
      KidsStep(after, close, endch, st');
    }
  }

  lemma NormalText(ts: seq<Tree>)
    requires ts != [] && ts[0].Text?
    ensures Normal(ts) == TextNode(LeadingText(ts)) + Normal(AfterText(ts)) && |AfterText(ts)| < |ts|
  {
  }

  lemma PushText(st: Stack, s: string)
    ensures PushAll(st, TextNode(s)) == if Blank(s) then st else Push(st, Text(Lines(s)))
  {
    PushAllJoin(st, TextNode(s), []);
  }

  lemma {:induction false} KidsStep(ts: seq<Tree>, close: string, endch: char, st: Stack)
    requires ts != [] && !ts[0].Text? && Printable(ts, false) && |close| > 1 && close[0] == '<' && |st| > 1
    ensures ParseLoop(PrintAll(ts) + close, endch, st, false) == ParseLoop(close, endch, PushAll(st, Normal(ts)), false)
    decreases ts, 2
  {
    hide ParseLoop, Printable, PrintMarkup, PrintAll, Normal, NormalNode, PushAll, PrintableNode;
    PrintStarts(ts);
    PrintableParts(ts, false);
    var rest := PrintAll(ts[1..]) + close;
    assert PrintAll(ts) + close == PrintMarkup(ts[0]) + (['>'] + rest);
    MarkupRead(ts[0], ['>'] + rest, endch, rest, st);
    KidsRead(ts[1..], close, endch, PushAll(st, NormalNode(ts[0])));
    PushAllJoin(st, NormalNode(ts[0]), Normal(ts[1..]));
  }

  // ----- the top level

  /** Text at the top of a document is dropped. */
  function WithoutText(ts: seq<Tree>): seq<Tree> {
    if ts == [] then [] else (if ts[0].Text? then [] else [ts[0]]) + WithoutText(ts[1..])
  }

  /** Outside all elements the loop looks for the next tag only. */
  lemma {:induction false} TopLoop(s: string, endch: char, st: Stack)
    requires |st| == 1
    ensures var k := IndexOf(s, '<');
            ParseLoop(s, endch, st, false) == if k == |s| then Ok(st[0].kids) else ParseTag(s[k + 1..], endch, st)
    decreases |s|
  {
    hide ParseTag, ReadText, IndexOf;
    var k := IndexOf(s, '<');
    if s != [] && s[0] != '<' {
      var t := SkipSpace(s);
      if t == [] || t[0] == '<' {
        SkipSpaceProgress(s);
        TopLoop(t, endch, st);
        SpacesBefore(s);
      }
    }
  }

  lemma {:induction false} SpacesBefore(s: string)
    ensures var t := SkipSpace(s);
            var k := IndexOf(s, '<'); var j := IndexOf(t, '<');
            k == |s| - |t| + j && (k < |s| ==> s[k + 1..] == t[j + 1..])
  {
    if s != [] && IsSpace(s[0]) {
      SpacesBefore(s[1..]);
    }
  }

  lemma IndexMore(e: string, rest: string)
    requires '<' !in e
    ensures IndexOf(e + rest, '<') == |e| + IndexOf(rest, '<')
  {
    hide IndexOf;
    var s, at := e + rest, |e| + IndexOf(rest, '<');
    forall i | 0 <= i < at ensures s[i] != '<' {
      assert s[i] == if i < |e| then e[i] else rest[i - |e|];
    }
    assert at < |s| ==> s[at] == rest[at - |e|];
  }

  /** Characters outside all elements that open no tag change nothing. */
  lemma TopText(e: string, rest: string, endch: char, st: Stack)
    requires |st| == 1 && '<' !in e
    ensures ParseLoop(e + rest, endch, st, false) == ParseLoop(rest, endch, st, false)
  {
    hide ParseLoop, ParseTag, IndexOf;
    IndexMore(e, rest);
    TopLoop(e + rest, endch, st);
    TopLoop(rest, endch, st);
    var j := IndexOf(rest, '<');
    if j < |rest| {
      assert (e + rest)[|e| + j + 1..] == rest[j + 1..];
    }
  }

  /** Printed nodes at the top of a document, whatever follows them. */
  lemma {:induction false} TopRead(ts: seq<Tree>, tail: string, endch: char, st: Stack)
    requires Printable(ts, true) && |st| == 1
    ensures ParseLoop(PrintAll(ts) + tail, endch, st, false) ==
            ParseLoop(tail, endch, PushAll(st, Normal(WithoutText(ts))), false)
    decreases |ts|
  {
    hide ParseLoop, Printable, PrintMarkup, PrintableNode, PrintAll, Escape, PushAll, Normal, NormalNode;
    EmptyNormal();
    if ts == [] {
      assert PrintAll(ts) + tail == tail;
      PushAllJoin(st, [], []);
    } else {
      PrintableParts(ts, true);
      var rest := PrintAll(ts[1..]) + tail;
      if ts[0].Text? {
        TopRead(ts[1..], tail, endch, st);
        PrintText(ts);
        EscapeClosed(ts[0].s, false);
        assert PrintAll(ts) + tail == Escape(ts[0].s, false) + rest;
        TopText(Escape(ts[0].s, false), rest, endch, st);
        assert [] + WithoutText(ts[1..]) == WithoutText(ts[1..]);
      } else {
        PrintStarts(ts);
        assert PrintAll(ts) + tail == PrintMarkup(ts[0]) + (['>'] + rest);
        MarkupRead(ts[0], ['>'] + rest, endch, rest, st);
        TopRead(ts[1..], tail, endch, PushAll(st, NormalNode(ts[0])));
        NormalMore(ts[0], WithoutText(ts[1..]));
        PushAllJoin(st, NormalNode(ts[0]), Normal(WithoutText(ts[1..])));
      }
    }
  }

  lemma PrintText(ts: seq<Tree>)
    requires ts != [] && ts[0].Text?
    ensures PrintAll(ts) == Escape(ts[0].s, false) + PrintAll(ts[1..])
  {
  }

  lemma NormalMore(t: Tree, ts: seq<Tree>)
    requires !t.Text?
    ensures Normal([t] + ts) == NormalNode(t) + Normal(ts)
  {
    hide NormalNode;
    assert ([t] + ts)[1..] == ts;
  }

  lemma {:induction false} PrintJoin(a: seq<Tree>, b: seq<Tree>)
    ensures PrintAll(a + b) == PrintAll(a) + PrintAll(b)
    decreases |a|
  {
    hide PrintMarkup, Escape;
    if a == [] {
      assert a + b == b;
    } else {
      assert (a + b)[1..] == a[1..] + b;
      PrintJoin(a[1..], b);
    }
  }

  lemma {:induction false} WithoutJoin(a: seq<Tree>, b: seq<Tree>)
    ensures WithoutText(a + b) == WithoutText(a) + WithoutText(b)
  {
    if a == [] {
      assert a + b == b;
    } else {
      assert (a + b)[1..] == a[1..] + b;
      WithoutJoin(a[1..], b);
    }
  }

  /** Nodes other than text are normalised one by one. */
  lemma {:induction false} NormalJoin(a: seq<Tree>, b: seq<Tree>)
    requires NoText(a)
    ensures Normal(a + b) == Normal(a) + Normal(b)
    decreases |a|
  {
    hide NormalNode;
    if a == [] {
      assert a + b == b;
    } else {
      assert (a + b)[1..] == a[1..] + b;
      NormalJoin(a[1..], b);
    }
  }

  lemma {:induction false} WithoutTextNone(ts: seq<Tree>)
    ensures NoText(WithoutText(ts))
    ensures NoText(ts) ==> WithoutText(ts) == ts
    ensures HasElement(WithoutText(ts)) <==> HasElement(ts)
  {
    if ts != [] {
      WithoutTextNone(ts[1..]);
      var w := WithoutText(ts[1..]);
      assert ts == [ts[0]] + ts[1..];
      HasOne(ts[0], ts[1..]);
      HasOne(ts[0], w);
      assert [] + w == w;
    }
  }

  lemma HasOne(t: Tree, ts: seq<Tree>)
    ensures HasElement([t] + ts) <==> t.Elem? || HasElement(ts)
  {
    var s := [t] + ts;
    if t.Elem? {
      assert s[0].Elem?;
    }
    if HasElement(ts) {
      var i :| 0 <= i < |ts| && ts[i].Elem?;
      assert s[i + 1].Elem?;
    }
    if HasElement(s) {
      var i :| 0 <= i < |s| && s[i].Elem?;
      assert i > 0 ==> ts[i - 1].Elem?;
    }
  }

  /** The whole print without its last character, which is set aside. */
  lemma {:induction false} CutRead(ts: seq<Tree>, st: Stack)
    requires Printable(ts, true) && |st| == 1 && PrintAll(ts) != []
    ensures var p := PrintAll(ts); var n := |p| - 1;
            && p[n] != '<'
            && ParseLoop(p[..n], p[n], st, false) == Ok(st[0].kids + Normal(WithoutText(ts)))
    decreases |ts|
  {
    hide *;
    EmptyNormal();
    var k := |ts| - 1;
    var init, last := ts[..k], ts[k];
    assert ts == init + [last];
    PrintJoin(init, [last]);
    WithoutJoin(init, [last]);
    PrintableFront(ts);
    LastPrinted(last);
    if last.Text? && Escape(last.s, false) == [] {
      assert WithoutText(init) + [] == WithoutText(init) && PrintAll(init) + [] == PrintAll(init);
      CutRead(init, st);
    } else if last.Text? {
      assert WithoutText(init) + [] == WithoutText(init);
      CutText(init, last.s, st);
    } else {
      CutMarkup(init, last, st);
    }
  }

  lemma CutText(init: seq<Tree>, s: string, st: Stack)
    requires Printable(init, true) && |st| == 1 && NoNul(s) && Escape(s, false) != []
    ensures var p := PrintAll(init) + Escape(s, false); var n := |p| - 1;
            p[n] != '<' && ParseLoop(p[..n], p[n], st, false) == Ok(st[0].kids + Normal(WithoutText(init)))
  {
    hide *;
    var e, got := Escape(s, false), Normal(WithoutText(init));
    EscapeClosed(s, false);
    var cut, endch := e[..|e| - 1], e[|e| - 1];
    var p := PrintAll(init) + e;
    assert p[..|p| - 1] == PrintAll(init) + cut && p[|p| - 1] == endch && cut + [] == cut;
    TopRead(init, cut, endch, st);
    TopText(cut, [], endch, PushAll(st, got));
    LoopDone(endch, st, got);
  }

  lemma CutMarkup(init: seq<Tree>, t: Tree, st: Stack)
    requires Printable(init, true) && |st| == 1 && !t.Text? && PrintableNode(t, true)
    ensures var p := PrintAll(init) + (PrintMarkup(t) + ['>']); var n := |p| - 1;
            p[n] == '>' && ParseLoop(p[..n], '>', st, false) == Ok(st[0].kids + Normal(WithoutText(init) + [t]))
  {
    hide *;
    var m, got := PrintMarkup(t), Normal(WithoutText(init));
    var p := PrintAll(init) + (m + ['>']);
    assert p[..|p| - 1] == PrintAll(init) + m && m + [] == m;
    TopRead(init, m, '>', st);
    NothingClosed('>');
    MarkupRead(t, [], '>', [], PushAll(st, got));
    PushAllJoin(st, got, NormalNode(t));
    WithoutTextNone(init);
    NormalJoin(WithoutText(init), [t]);
    EmptyNormal();
    NormalMore(t, []);
    assert NormalNode(t) + [] == NormalNode(t) && [t] + [] == [t];
    LoopDone('>', st, got + NormalNode(t));
  }

  lemma NothingClosed(endch: char)
    requires endch == '>'
    ensures CloseEnd([], endch, [])
  {
  }

  lemma LoopDone(endch: char, st: Stack, ts: seq<Tree>)
    requires |st| == 1
    ensures ParseLoop([], endch, PushAll(st, ts), false) == Ok(st[0].kids + ts)
  {
  }

  lemma LastPrinted(t: Tree)
    ensures WithoutText([t]) == if t.Text? then [] else [t]
    ensures PrintAll([t]) == if t.Text? then Escape(t.s, false) else PrintMarkup(t) + ['>']
  {
    hide Escape, PrintMarkup;
    assert [t][1..] == [];
  }

  lemma PrintableFront(ts: seq<Tree>)
    requires Printable(ts, true) && ts != []
    ensures Printable(ts[..|ts| - 1], true) && PrintableNode(ts[|ts| - 1], true)
    ensures ts[|ts| - 1].Text? ==> NoNul(ts[|ts| - 1].s)
  {
    assert PrintableNode(ts[|ts| - 1], true);
    var init := ts[..|ts| - 1];
    forall i | 0 <= i < |init| ensures PrintableNode(init[i], true) {
      assert init[i] == ts[i];
    }
  }

  // ----- no NUL is printed

  lemma {:induction false} PrintNoNul(ts: seq<Tree>, top: bool)
    requires Printable(ts, top)
    ensures '\0' !in PrintAll(ts)
    decreases ts, 3
  {
    hide Printable, PrintMarkup, PrintableNode, Escape;
    if ts != [] {
      PrintableParts(ts, top);
      PrintNoNul(ts[1..], top);
      if ts[0].Text? {
        EscapeClosed(ts[0].s, false);
      } else {
        MarkupNoNul(ts[0], top);
      }
    }
  }

  lemma {:induction false} MarkupNoNul(t: Tree, top: bool)
    requires !t.Text? && PrintableNode(t, top)
    ensures '\0' !in PrintMarkup(t)
    decreases t, 1
  {
    hide PrintAttributes, PrintAll, GoodAttributes, Shown, Nameable, CdataText, CommentText, PiText, Printable;
    match t {
      case Elem(name, attrs, kids) =>
        ShownPlain(name);
        AttributesClosed(attrs);
        PrintNoNul(kids, false);
      case Cdata(s) => CdataNoNul(s);
      case Comment(s) => CommentNoNul(s);
      case Pi(name, value) =>
        ShownPlain(name);
        PiNoNul(value);
      case Declaration(name, attrs) =>
        ShownPlain(name);
        AttributesClosed(attrs);
      case Doctype(s) =>
    }
  }

  lemma {:induction false} CdataNoNul(s: string)
    requires NoNul(s)
    ensures NoNul(CdataText(s))
    decreases |s|
  {
    var k := SectionEnd(s);
    assert NoNul("<![CDATA[") && NoNul("]]") && NoNul("]]>");
    if k < |s| {
      var piece, more := s[..k + 2], s[k + 2..];
      assert NoNul(piece) && NoNul(more);
      hide NoNul, SectionEnd;
      CdataNoNul(more);
      JoinNoNul(piece, "]]>");
      JoinNoNul(piece + "]]>", CdataText(more));
      JoinNoNul("<![CDATA[", piece + "]]>" + CdataText(more));
    } else {
      hide NoNul, SectionEnd;
      JoinNoNul(s, "]]");
      JoinNoNul("<![CDATA[", s + "]]");
    }
  }

  lemma {:induction false} CommentNoNul(s: string)
    requires NoNul(s)
    ensures '\0' !in CommentText(s)
  {
    if s != [] {
      CommentNoNul(s[1..]);
    }
  }

  lemma {:induction false} PiNoNul(s: string)
    requires NoNul(s)
    ensures '\0' !in PiText(s)
    decreases |s|
  {
    if s != [] {
      PiNoNul(s[1..]);
      if |s| > 1 {
        PiNoNul(s[2..]);
      }
    }
  }

  /** Printing raw and parsing back, for every forest of printable nodes: text at the top is dropped, everything else
      is normalised, and without an element there is no document. */
  lemma PrintThenParse(doc: seq<Tree>)
    requires Printable(doc, true)
    ensures ParseDocument(PrintAll(doc)) ==
            if HasElement(doc) then Ok(Normal(WithoutText(doc))) else Fail(NoDocumentElement)
  {
    hide ParseLoop, ParseTag, Printable, PrintAll, Normal, WithoutText, HasElement, UpToNul, SkipBom;
    var root: Stack := [Frame("", [], [])];
    var p := PrintAll(doc);
    NormalElements(doc);
    if p != [] {
      var n := |p| - 1;
      CutRead(doc, root);
      PrintNoNul(doc, true);
      CutNoNul(p[..n]);
      BomSkipped(p[..n], p[n], root);
      assert [] + Normal(WithoutText(doc)) == Normal(WithoutText(doc));
    } else {
      NothingPrinted(doc);
    }
  }

  /** The same when the buffer is a copy with a terminator behind the text: nothing of the text is set aside. */
  lemma PrintThenLoad(doc: seq<Tree>)
    requires Printable(doc, true)
    ensures ParseDocument(PrintAll(doc) + ['\0']) == ParseDocument(PrintAll(doc))
  {
    hide ParseLoop, ParseTag, Printable, PrintAll, Normal, WithoutText, HasElement, UpToNul, SkipBom;
    var root: Stack := [Frame("", [], [])];
    var p := PrintAll(doc);
    var got := Normal(WithoutText(doc));
    PrintThenParse(doc);
    NormalElements(doc);
    TopRead(doc, [], '\0', root);
    assert p + [] == p && (p + ['\0'])[..|p|] == p && [] + got == got;
    LoopDone('\0', root, got);
    PrintNoNul(doc, true);
    CutNoNul(p);
    BomSkipped(p, '\0', root);
  }

  lemma BomSkipped(s: string, endch: char, st: Stack)
    requires |st| == 1
    ensures ParseLoop(SkipBom(s), endch, st, false) == ParseLoop(s, endch, st, false)
  {
    hide ParseLoop, SkipBom;
    if SkipBom(s) != s {
      assert s == s[..3] + s[3..];
      TopText(s[..3], s[3..], endch, st);
    }
  }

  lemma {:induction false} NothingPrinted(ts: seq<Tree>)
    requires PrintAll(ts) == []
    ensures !HasElement(ts)
  {
    hide PrintMarkup, Escape;
    if ts != [] {
      NothingPrinted(ts[1..]);
      HasOne(ts[0], ts[1..]);
      assert ts == [ts[0]] + ts[1..];
    }
  }

  /** Normalising neither makes nor loses elements. */
  lemma NormalElements(ts: seq<Tree>)
    ensures HasElement(Normal(WithoutText(ts))) <==> HasElement(ts)
  {
    hide Normal, WithoutText, HasElement;
    WithoutTextNone(ts);
    NormalHas(WithoutText(ts));
  }

  lemma {:induction false} NormalHas(ts: seq<Tree>)
    requires NoText(ts)
    ensures HasElement(Normal(ts)) <==> HasElement(ts)
  {
    hide HasElement, NormalNode;
    if ts == [] {
      assert Normal(ts) == [];
    } else {
      NormalHas(ts[1..]);
      HasOne(ts[0], ts[1..]);
      assert ts == [ts[0]] + ts[1..];
      NodeElements(ts[0], Normal(ts[1..]));
    }
  }

  lemma NodeCases(t: Tree)
    requires !t.Text?
    ensures t.Elem? ==> NormalNode(t) == [NormalElem(t)]
    ensures t.Cdata? ==> NormalNode(t) == CdataNodes(t.s)
    ensures !t.Elem? && !t.Cdata? ==> NormalNode(t) == []
  {
  }

  lemma NodeElements(t: Tree, ts: seq<Tree>)
    requires !t.Text?
    ensures HasElement(NormalNode(t) + ts) <==> t.Elem? || HasElement(ts)
  {
    hide NormalElem, CdataNodes, NormalNode;
    NodeCases(t);
    if t.Elem? {
      HasOne(NormalElem(t), ts);
    } else {
      NoElements(t, ts);
    }
  }

  lemma NoElements(t: Tree, ts: seq<Tree>)
    requires !t.Text? && !t.Elem?
    ensures HasElement(NormalNode(t) + ts) <==> HasElement(ts)
  {
    hide NormalNode, CdataNodes;
    NodeCases(t);
    if t.Cdata? {
      SectionsOnly(t.s);
    }
    var a := NormalNode(t);
    var all := a + ts;
    if HasElement(all) {
      var i :| 0 <= i < |all| && all[i].Elem?;
      assert i >= |a| && ts[i - |a|].Elem?;
    }
    if HasElement(ts) {
      var i :| 0 <= i < |ts| && ts[i].Elem?;
      assert all[|a| + i].Elem?;
    }
  }

  lemma {:induction false} SectionsOnly(s: string)
    ensures CdataNodes(s) != [] && forall i :: 0 <= i < |CdataNodes(s)| ==> CdataNodes(s)[i].Cdata?
    decreases |s|
  {
    hide SectionEnd, Lines;
    var k := SectionEnd(s);
    if k < |s| {
      SectionsOnly(s[k + 2..]);
    }
  }

  // ----- which documents come back unchanged

  predicate CleanAttributes(attrs: seq<Attribute>) {
    forall i :: 0 <= i < |attrs| ==> attrs[i].name != [] && '\t' !in attrs[i].value
  }

  /** Elements, text and CDATA only, all named; no tabs in values, no carriage returns, no "]]>" in CDATA, no blank
      and no neighbouring texts. */
  predicate Clean(ts: seq<Tree>)
    decreases ts, 1
  {
    ts == [] || (CleanNode(ts[0]) && (ts[0].Text? && |ts| > 1 ==> !ts[1].Text?) && Clean(ts[1..]))
  }

  predicate CleanNode(t: Tree)
    decreases t, 0
  {
    match t
    case Elem(name, attrs, kids) => name != [] && CleanAttributes(attrs) && Clean(kids)
    case Text(s) => !Blank(s) && '\r' !in s
    case Cdata(s) => SectionEnd(s) == |s| && '\r' !in s
    case _ => false
  }

  lemma TabsIdentity(s: string)
    ensures TabsToSpaces(s) == s <==> '\t' !in s
  {
    if '\t' in s {
      var i :| 0 <= i < |s| && s[i] == '\t';
      assert TabsToSpaces(s)[i] == ' ';
    }
  }

  lemma ShownIdentity(s: string)
    ensures Shown(s) == s <==> s != []
  {
  }

  lemma AttributesIdentity(attrs: seq<Attribute>)
    ensures NormalAttributes(attrs) == attrs <==> CleanAttributes(attrs)
  {
    hide TabsToSpaces, Shown;
    var n := NormalAttributes(attrs);
    forall i | 0 <= i < |attrs| ensures n[i] == attrs[i] <==> attrs[i].name != [] && '\t' !in attrs[i].value {
      TabsIdentity(attrs[i].value);
      ShownIdentity(attrs[i].name);
    }
    if n == attrs {
      forall i | 0 <= i < |attrs| ensures attrs[i].name != [] && '\t' !in attrs[i].value {
        assert n[i] == attrs[i];
      }
    }
  }

  predicate Kept(t: Tree) {
    t.Elem? || t.Text? || t.Cdata?
  }

  predicate AllKept(ts: seq<Tree>) {
    forall i :: 0 <= i < |ts| ==> Kept(ts[i])
  }

  lemma {:induction false} NormalKinds(ts: seq<Tree>)
    ensures AllKept(Normal(ts))
    decreases |ts|
  {
    hide NormalNode, AllKept, TextNode;
    if ts == [] {
      NothingKept();
    } else if ts[0].Text? {
      NormalText(ts);
      NormalKinds(AfterText(ts));
      TextKept(LeadingText(ts));
      KeptJoin(TextNode(LeadingText(ts)), Normal(AfterText(ts)));
    } else {
      NormalKinds(ts[1..]);
      NodeKept(ts[0]);
      KeptJoin(NormalNode(ts[0]), Normal(ts[1..]));
    }
  }

  lemma NothingKept()
    ensures AllKept([])
  {
  }

  lemma NotKept(ts: seq<Tree>)
    requires ts != [] && !Kept(ts[0])
    ensures !AllKept(ts)
  {
  }

  lemma KeptAt(ts: seq<Tree>, i: nat)
    requires AllKept(ts) && i < |ts|
    ensures Kept(ts[i])
  {
  }

  lemma KeptJoin(a: seq<Tree>, b: seq<Tree>)
    requires AllKept(a) && AllKept(b)
    ensures AllKept(a + b)
  {
  }

  lemma TextKept(s: string)
    ensures AllKept(TextNode(s))
  {
  }

  lemma NodeKept(t: Tree)
    requires !t.Text?
    ensures AllKept(NormalNode(t))
  {
    hide NormalElem, CdataNodes, NormalNode;
    NodeCases(t);
    if t.Cdata? {
      SectionsOnly(t.s);
    }
  }

  /** Normalising changes nothing exactly for clean trees. */
  lemma {:induction false} NormalIdentity(ts: seq<Tree>)
    ensures Normal(ts) == ts <==> Clean(ts)
    decreases ts, 1
  {
    hide NormalElem, CdataNodes, TextNode, SectionEnd, Blank, AllKept;
    if ts != [] {
      assert ts == [ts[0]] + ts[1..];
      NormalIdentity(ts[1..]);
      NormalKinds(ts);
      match ts[0] {
        case Elem(_, _, _) =>
          ElemIdentity(ts[0]);
          assert Normal(ts) == [NormalElem(ts[0])] + Normal(ts[1..]);
          assert Normal(ts)[0] == NormalElem(ts[0]) && Normal(ts)[1..] == Normal(ts[1..]);
        case Text(_) => TextIdentity(ts);
        case Cdata(s) => CdataIdentity(s, ts[1..]);
        case _ =>
          NotKept(ts);
      }
    }
  }

  lemma {:induction false} ElemIdentity(t: Tree)
    requires t.Elem?
    ensures NormalElem(t) == t <==> CleanNode(t)
    decreases t, 0
  {
    AttributesIdentity(t.attrs);
    NormalIdentity(t.kids);
    ShownIdentity(t.name);
  }

  lemma CdataIdentity(s: string, ts: seq<Tree>)
    ensures CdataNodes(s) + Normal(ts) == [Cdata(s)] + ts <==> CleanNode(Cdata(s)) && Normal(ts) == ts
  {
    hide SectionEnd, Lines;
    LinesIdentity(s);
    var k := SectionEnd(s);
    var all := CdataNodes(s) + Normal(ts);
    if k == |s| {
      assert all[0] == Cdata(Lines(s)) && all[1..] == Normal(ts);
      assert ([Cdata(s)] + ts)[0] == Cdata(s) && ([Cdata(s)] + ts)[1..] == ts;
    } else {
      LinesLength(s[..k + 2]);
      assert all[0] == Cdata(Lines(s[..k + 2])) && |all[0].s| < |s|;
      assert ([Cdata(s)] + ts)[0] == Cdata(s);
    }
  }

  /** What does not start with text and is kept does not become text. */
  lemma HeadKept(ts: seq<Tree>)
    requires ts != [] && Kept(ts[0]) && !ts[0].Text?
    ensures Normal(ts) != [] && !Normal(ts)[0].Text?
  {
    hide NormalElem, CdataNodes, NormalNode;
    NodeCases(ts[0]);
    if ts[0].Cdata? {
      SectionsOnly(ts[0].s);
    }
  }

  lemma TextIdentity(ts: seq<Tree>)
    requires ts != [] && ts[0].Text? && (Normal(ts[1..]) == ts[1..] <==> Clean(ts[1..]))
    ensures Normal(ts) == ts <==> Clean(ts)
  {
    hide *;
    NormalText(ts);
    CleanText(ts);
    var run, after := LeadingText(ts), AfterText(ts);
    LinesIdentity(ts[0].s);
    OneText(ts);
    TextNodeIs(run);
    EmptyNormal();
    assert ts == [ts[0]] + ts[1..];
    if Normal(ts) == ts {
      NormalKinds(ts);
      if after != [] {
        KeptAt(Normal(ts), |ts| - |after|);
        HeadKept(after);
      }
    }
    if !Blank(run) {
      assert Normal(ts)[0] == Text(Lines(run)) && Normal(ts)[1..] == Normal(after);
    } else {
      assert Normal(ts) == Normal(after);
    }
  }

  lemma TextNodeIs(s: string)
    ensures TextNode(s) == if Blank(s) then [] else [Text(Lines(s))]
  {
  }

  lemma OneText(ts: seq<Tree>)
    requires ts != [] && ts[0].Text?
    ensures !(|ts| > 1 && ts[1].Text?) ==> LeadingText(ts) == ts[0].s && AfterText(ts) == ts[1..]
  {
    if !(|ts| > 1 && ts[1].Text?) {
      assert LeadingText(ts[1..]) == [];
    }
  }

  lemma CleanText(ts: seq<Tree>)
    requires ts != [] && ts[0].Text?
    ensures Clean(ts) <==> !Blank(ts[0].s) && '\r' !in ts[0].s && (|ts| > 1 ==> !ts[1].Text?) && Clean(ts[1..])
  {
  }

  /** The top level of a document that can come back: no text, and an element. */
  predicate IsDocument(ts: seq<Tree>) {
    NoText(ts) && HasElement(ts)
  }

  lemma {:induction false} MadePrintable(ts: seq<Tree>, top: bool)
    requires Made(ts)
    ensures Printable(ts, top)
    decreases ts, 1
  {
    forall i | 0 <= i < |ts| ensures PrintableNode(ts[i], top) {
      assert MadeNode(ts[i]);
      if ts[i].Elem? {
        MadePrintable(ts[i].kids, false);
      }
    }
  }

  /** Any forest at all survives printing and parsing exactly when it is a printable, clean document. */
  lemma RoundTripIff(doc: seq<Tree>)
    ensures ParseDocument(PrintAll(doc)) == Ok(doc) <==> IsDocument(doc) && Printable(doc, true) && Clean(doc)
  {
    hide *;
    DocumentMade(PrintAll(doc));
    if ParseDocument(PrintAll(doc)) == Ok(doc) {
      MadePrintable(doc, true);
    }
    if Printable(doc, true) {
      PrintThenParse(doc);
    }
    DocumentIs(doc);
    WithoutTextNone(doc);
    NormalIdentity(doc);
  }

  lemma DocumentIs(doc: seq<Tree>)
    ensures IsDocument(doc) <==> NoText(doc) && HasElement(doc)
  {
  }

  /** Text beside the root element is lost although nothing else is wrong with the document. */
  lemma TopTextLost()
    ensures var doc := [Text("x"), Elem("a", [], [])];
            && Printable(doc, true) && Clean(doc)
            && ParseDocument(PrintAll(doc)) == Ok([Elem("a", [], [])]) != Ok(doc)
  {
    hide ParseDocument, PrintAll;
    var a := Elem("a", [], []);
    var doc := [Text("x"), a];
    assert IsName("a");
    assert forall i :: 0 <= i < 2 ==> PrintableNode(doc[i], true);
    assert doc[1..] == [a] && [a][1..] == [] && a.attrs == [];
    assert !Blank("x") by {
      assert !IsSpace("x"[0]);
    }
    assert doc[1].Elem?;
    assert HasElement(doc);
    PrintThenParse(doc);
    LastPrinted(a);
    assert WithoutText(doc) == [] + WithoutText([a]) == [a];
    NormalIdentity([a]);
  }
}
