/** Reading back what was printed: names, attributes, tags and text. */
module XmlTags {
  import opened XmlText
  import opened XmlParser
  import opened XmlPrint

  lemma {:induction false} NameScanned(name: string, rest: string)
    requires (forall i :: 0 <= i < |name| ==> IsSymbol(name[i])) && (rest == [] || !IsSymbol(rest[0]))
    ensures SymbolRun(name + rest) == |name|
    ensures (name + rest)[..|name|] == name && (name + rest)[|name|..] == rest
  {
    if name == [] {
      assert name + rest == rest;
    } else {
      NameScanned(name[1..], rest);
      assert (name + rest)[1..] == name[1..] + rest;
    }
  }

  /** What a printed tag still has to read before its closing bracket. */
  predicate TagEnd(s: string, endch: char, closed: bool, rest: string) {
    if closed then s == [' ', '/', '>'] + rest || (s == [' ', '/'] && rest == [] && endch == '>')
    else s == ['>'] + rest
  }

  lemma SpaceThen(c: char, s: string)
    requires !IsSpace(c)
    ensures SkipSpace([' ', c] + s) == [c] + s && SkipSpace([c] + s) == [c] + s
  {
    assert ([' ', c] + s)[1..] == [c] + s;
  }

  lemma ShownName(name: string)
    requires Nameable(name)
    ensures IsName(Shown(name))
  {
  }

  lemma OneAttribute(a: Attribute, after: string, endch: char)
    requires Nameable(a.name) && NoNul(a.value) && after != [] && !IsStartSymbol(after[0])
    ensures ParseAttributes([' '] + (Shown(a.name) + (['=', '"'] + (Escape(a.value, true) + ['"'] + after))), endch) ==
            WithAttribute(Attribute(Shown(a.name), TabsToSpaces(a.value)), ParseAttributes(after, endch))
  {
    hide Escape, ReadValue, SkipSpace, SymbolRun, UpToNul, Shown;
    ShownName(a.name);
    var name := Shown(a.name);
    var value := Escape(a.value, true) + ['"'] + after;
    var sep := ['=', '"'] + value;
    var t := name + sep;
    assert t[0] == name[0] && !IsSpace(t[0]) && [' '] + t == [' ', t[0]] + t[1..] && t == [t[0]] + t[1..];
    SpaceThen(t[0], t[1..]);
    NameScanned(name, sep);
    assert sep[1..] == ['"'] + value && (['"'] + value)[1..] == value;
    SpaceThen('"', value);
    ReadEscapedValue(a.value, after);
    CutNoNul(TabsToSpaces(a.value));
  }

  lemma TagEndRead(tail: string, endch: char, closed: bool, rest: string)
    requires TagEnd(tail, endch, closed, rest)
    ensures ParseAttributes(tail, endch) == GoodTag([], closed, rest)
  {
    if closed {
      SpaceThen('/', tail[2..]);
      assert tail == [' ', '/'] + tail[2..];
      assert SkipSpace(tail) == ['/'] + tail[2..];
    } else {
      SpaceThen('>', rest);
    }
  }

  lemma AttributeText(attrs: seq<Attribute>, tail: string)
    requires attrs != []
    ensures var a := attrs[0];
            PrintAttributes(attrs) + tail ==
            [' '] + (Shown(a.name) + (['=', '"'] + (Escape(a.value, true) + ['"'] + (PrintAttributes(attrs[1..]) + tail))))
  {
    hide Escape, Shown;
  }

  lemma {:induction false} AttributesRead(attrs: seq<Attribute>, tail: string, endch: char, closed: bool, rest: string)
    requires GoodAttributes(attrs) && TagEnd(tail, endch, closed, rest)
    ensures ParseAttributes(PrintAttributes(attrs) + tail, endch) == GoodTag(NormalAttributes(attrs), closed, rest)
    ensures var s := PrintAttributes(attrs) + tail; s != [] && (s[0] == ' ' || s[0] == '>')
    decreases |attrs|
  {
    hide ParseAttributes, Escape, TabsToSpaces, Shown;
    var s := PrintAttributes(attrs) + tail;
    if attrs == [] {
      assert s == tail;
      TagEndRead(tail, endch, closed, rest);
    } else {
      var a := attrs[0];
      var after := PrintAttributes(attrs[1..]) + tail;
      AttributesRead(attrs[1..], tail, endch, closed, rest);
      AttributeText(attrs, tail);
      hide PrintAttributes;
      OneAttribute(a, after, endch);
      assert NormalAttributes(attrs) == [Attribute(Shown(a.name), TabsToSpaces(a.value))] + NormalAttributes(attrs[1..]);
    }
  }

  /** Parsing goes on inside the element just read, or after it. */
  function Entered(name: string, t: Tag, endch: char, st: Stack): Parsed
    requires t.GoodTag?
  {
    var open := st + [Frame(name, t.attrs, [])];
    ParseLoop(t.rest, endch, if t.closed then Pop(open) else open, false)
  }

  /** The start of a tag, after its '<'. */
  lemma TagNameRead(name: string, inside: string, endch: char, st: Stack)
    requires IsName(name) && inside != [] && (inside[0] == ' ' || inside[0] == '>')
    ensures inside[0] == '>' ==>
              ParseLoop(['<'] + (name + inside), endch, st, false) == ParseLoop(inside[1..], endch, st + [Frame(name, [], [])], false)
    ensures inside[0] == ' ' && ParseAttributes(inside[1..], endch).GoodTag? ==>
              ParseLoop(['<'] + (name + inside), endch, st, false) == Entered(name, ParseAttributes(inside[1..], endch), endch, st)
  {
    hide ParseAttributes, Pop, SymbolRun, ParseQuestion, ParseExclamation, ParseLoop;
    var s := name + inside;
    var full := ['<'] + s;
    assert full[1..] == s && full[0] == '<';
    NameScanned(name, inside);
    var n := |name|;
    assert s[0] == name[0] && s[n] == inside[0] && s[n + 1..] == inside[1..];
    LoopOpens(full, endch, st);
  }

  lemma AttributesShape(attrs: seq<Attribute>)
    ensures attrs != [] ==> PrintAttributes(attrs) != [] && PrintAttributes(attrs)[0] == ' '
    ensures attrs == [] ==> PrintAttributes(attrs) == [] && NormalAttributes(attrs) == []
  {
    hide Escape;
  }

  /** A printed start tag opens its element, or opens and closes it. */
  lemma StartTagRead(name: string, attrs: seq<Attribute>, tail: string, endch: char, closed: bool, rest: string, st: Stack)
    requires IsName(name) && GoodAttributes(attrs) && TagEnd(tail, endch, closed, rest)
    ensures var open := st + [Frame(name, NormalAttributes(attrs), [])];
            ParseLoop(['<'] + name + PrintAttributes(attrs) + tail, endch, st, false) ==
            ParseLoop(rest, endch, if closed then Pop(open) else open, false)
  {
    hide ParseAttributes, ParseLoop, Pop, PrintAttributes, NormalAttributes, GoodAttributes, IsName;
    AttributesShape(attrs);
    var inside := PrintAttributes(attrs) + tail;
    assert ['<'] + name + PrintAttributes(attrs) + tail == ['<'] + (name + inside);
    AttributesRead(attrs, tail, endch, closed, rest);
    TagNameRead(name, inside, endch, st);
    if inside[0] == ' ' {
      LeadingSpace(inside, endch);
    } else {
      assert inside == tail;
      assert inside[1..] == rest;
    }
  }

  /** The space after the element name may be eaten before or by the attribute loop. */
  lemma LeadingSpace(s: string, endch: char)
    requires s != [] && s[0] == ' '
    ensures ParseAttributes(s[1..], endch) == ParseAttributes(s, endch)
  {
    assert SkipSpace(s) == SkipSpace(s[1..]);
  }

  predicate CloseEnd(s: string, endch: char, rest: string) {
    s == ['>'] + rest || (s == [] && rest == [] && endch == '>')
  }

  lemma LoopOpens(s: string, endch: char, st: Stack)
    requires s != [] && s[0] == '<'
    ensures ParseLoop(s, endch, st, false) == ParseTag(s[1..], endch, st)
  {
    hide ParseTag;
  }

  /** An end tag that names the open element, read up to its bracket. */
  lemma EndTagCloses(s: string, endch: char, st: Stack, n: nat, t: string)
    requires s != [] && s[0] == '/' && |st| > 1 && n == SymbolRun(s[1..]) && s[1..n + 1] == st[|st| - 1].name
    requires t == SkipSpace(s[n + 1..])
    ensures t != [] && t[0] == '>' ==> ParseTag(s, endch, st) == ParseLoop(t[1..], endch, Pop(st), false)
    ensures t == [] && endch == '>' ==> ParseTag(s, endch, st) == ParseLoop([], endch, Pop(st), false)
  {
    hide ParseLoop, Pop, SymbolRun, SkipSpace, ParseAttributes;
  }

  lemma EndTagText(name: string, tail: string)
    ensures var s := ['/'] + (name + tail);
            && (['<', '/'] + name + tail)[1..] == s && s[1..] == name + tail
            && s[1..|name| + 1] == name && s[|name| + 1..] == tail
  {
  }

  lemma EndTagRead(name: string, tail: string, endch: char, rest: string, st: Stack)
    requires IsName(name) && CloseEnd(tail, endch, rest) && |st| > 1 && st[|st| - 1].name == name
    ensures ParseLoop(['<', '/'] + name + tail, endch, st, false) == ParseLoop(rest, endch, Pop(st), false)
  {
    hide Pop, SymbolRun, ParseLoop, ParseTag;
    var whole := ['<', '/'] + name + tail;
    var s := ['/'] + (name + tail);
    var n := |name|;
    EndTagText(name, tail);
    NameScanned(name, tail);
    assert SkipSpace(tail) == tail;
    LoopOpens(whole, endch, st);
    EndTagCloses(s, endch, st, n, tail);
    assert tail != [] ==> tail[1..] == rest;
  }

  lemma BlankTail(s: string)
    requires s != []
    ensures Blank(s) <==> IsSpace(s[0]) && Blank(s[1..])
  {
    assert forall i :: 1 <= i < |s| ==> s[i] == s[1..][i - 1];
    if IsSpace(s[0]) && Blank(s[1..]) {
      forall i | 0 <= i < |s| ensures IsSpace(s[i]) {
        assert i == 0 || IsSpace(s[1..][i - 1]);
      }
    }
    if Blank(s) {
      forall i | 0 <= i < |s| - 1 ensures IsSpace(s[1..][i]) {
        assert IsSpace(s[i + 1]);
      }
    }
  }

  lemma EscapedHead(c: char)
    ensures EscapeChar(c, false) != [] && EscapeChar(c, false)[0] != '<'
    ensures if IsSpace(c) then EscapeChar(c, false) == [c] else !IsSpace(EscapeChar(c, false)[0])
  {
  }

  lemma SkipsOne(c: char, t: string)
    ensures SkipSpace([c] + t) == if IsSpace(c) then SkipSpace(t) else [c] + t
  {
    assert ([c] + t)[1..] == t;
  }

  lemma {:induction false} BlankEscapes(s: string, rest: string)
    requires rest != [] && rest[0] == '<'
    ensures Blank(s) ==> Escape(s, false) == s && SkipSpace(Escape(s, false) + rest) == rest
    ensures !Blank(s) ==> SkipSpace(Escape(s, false) + rest) != [] && SkipSpace(Escape(s, false) + rest)[0] != '<'
    decreases |s|
  {
    hide Blank, EscapeChar, SkipSpace;
    if s == [] {
      assert Escape(s, false) + rest == rest == [rest[0]] + rest[1..];
      SkipsOne(rest[0], rest[1..]);
      EmptyBlank();
    } else {
      hide Escape;
      BlankEscapes(s[1..], rest);
      BlankTail(s);
      EscapedHead(s[0]);
      EscapeSplit(s, false, rest);
      EscapeSplit(s, false, []);
      var c, more := EscapeChar(s[0], false), Escape(s[1..], false) + rest;
      assert c + more == [c[0]] + (c[1..] + more);
      SkipsOne(c[0], c[1..] + more);
      if IsSpace(s[0]) {
        assert c[1..] + more == more && s == [s[0]] + s[1..];
        assert Escape(s, false) == Escape(s, false) + [] == c + (Escape(s[1..], false) + []);
      }
    }
  }

  lemma EmptyBlank()
    ensures Blank([])
  {
  }

  /** A run of text nodes becomes its text node inside an element. */
  lemma TextRead(s: string, rest: string, endch: char, st: Stack)
    requires NoNul(s) && |rest| > 1 && rest[0] == '<' && |st| > 1
    ensures ParseLoop(Escape(s, false) + rest, endch, st, false) ==
            ParseLoop(rest, endch, if Blank(s) then st else Push(st, Text(Lines(s))), false)
  {
    BlankEscapes(s, rest);
    var e := Escape(s, false) + rest;
    if s == [] {
      assert e == rest;
    } else {
      EscapeSplit(s, false, rest);
      assert e != [] && e[0] != '<';
      hide Escape, EscapeChar, Blank, ParseLoop, UpToNul, Lines;
      if Blank(s) {
        LoopSkips(e, endch, st);
      } else {
        ReadEscapedText(s, rest);
        LinesNoNul(s);
        CutNoNul(Lines(s));
        LoopReadsText(e, endch, st);
        LoopOpens(rest, endch, Push(st, Text(Lines(s))));
      }
    }
  }

  lemma {:induction false} LinesNoNul(s: string)
    requires NoNul(s)
    ensures NoNul(Lines(s))
    decreases |s|
  {
    if s != [] {
      LinesNoNul(s[1..]);
      if |s| > 1 {
        LinesNoNul(s[2..]);
      }
    }
  }

  lemma LoopSkips(s: string, endch: char, st: Stack)
    requires s != [] && s[0] != '<' && (SkipSpace(s) == [] || SkipSpace(s)[0] == '<')
    ensures ParseLoop(s, endch, st, false) == ParseLoop(SkipSpace(s), endch, st, false)
  {
    hide ParseTag, SkipSpace, ReadText;
  }

  lemma LoopReadsText(s: string, endch: char, st: Stack)
    requires s != [] && s[0] != '<' && SkipSpace(s) != [] && SkipSpace(s)[0] != '<' && |st| > 1 && |ReadText(s).rest| > 1
    ensures ParseLoop(s, endch, st, false) ==
            ParseTag(ReadText(s).rest[1..], endch, Push(st, Text(UpToNul(ReadText(s).text))))
  {
    hide ParseTag, SkipSpace, ReadText, Push, UpToNul;
  }

  lemma PrintableParts(ts: seq<Tree>, top: bool)
    requires Printable(ts, top) && ts != []
    ensures Printable(ts[1..], top) && PrintableNode(ts[0], top)
    ensures ts[0].Text? ==> NoNul(ts[0].s)
  {
    assert PrintableNode(ts[0], top);
    forall i | 0 <= i < |ts| - 1 ensures PrintableNode(ts[1..][i], top) {
      assert ts[1..][i] == ts[i + 1];
    }
  }

  lemma {:induction false} TextsPrint(ts: seq<Tree>, top: bool)
    requires Printable(ts, top)
    ensures PrintAll(ts) == Escape(LeadingText(ts), false) + PrintAll(AfterText(ts))
    ensures NoNul(LeadingText(ts)) && Printable(AfterText(ts), top)
    decreases |ts|
  {
    hide Printable, Escape, PrintMarkup, NoNul;
    EmptyEscape();
    NothingNoNul();
    if ts != [] && ts[0].Text? {
      PrintableParts(ts, top);
      TextsPrint(ts[1..], top);
      EscapeConcat(ts[0].s, LeadingText(ts[1..]));
      JoinNoNul(ts[0].s, LeadingText(ts[1..]));
      assert PrintAll(ts) == Escape(ts[0].s, false) + PrintAll(ts[1..]);
    }
  }

  lemma NothingNoNul()
    ensures NoNul([])
  {
  }

  lemma JoinNoNul(a: string, b: string)
    requires NoNul(a) && NoNul(b)
    ensures NoNul(a + b)
  {
  }

  lemma EmptyEscape()
    ensures Escape([], false) == []
  {
  }

  lemma {:induction false} EscapeConcat(s: string, t: string)
    ensures Escape(s + t, false) == Escape(s, false) + Escape(t, false)
  {
    if s == [] {
      assert s + t == t;
    } else {
      hide EscapeChar, Escape;
      EscapeConcat(s[1..], t);
      assert (s + t)[1..] == s[1..] + t;
      EscapeSplit(s, false, Escape(t, false));
      EscapeSplit(s + t, false, []);
      assert Escape(s + t, false) + [] == Escape(s + t, false) && Escape(s[1..] + t, false) + [] == Escape(s[1..] + t, false);
    }
  }

  /** Add several children to the top element. */
  function PushAll(st: Stack, ts: seq<Tree>): (r: Stack)
    ensures |r| == |st|
  {
    var n := |st| - 1;
    st[..n] + [st[n].(kids := st[n].kids + ts)]
  }

  lemma PushAllJoin(st: Stack, a: seq<Tree>, b: seq<Tree>)
    ensures PushAll(PushAll(st, a), b) == PushAll(st, a + b)
    ensures PushAll(st, []) == st
    ensures |a| == 1 ==> Push(st, a[0]) == PushAll(st, a)
  {
    var n := |st| - 1;
    assert st[n].kids + a + b == st[n].kids + (a + b);
    assert st[n].kids + [] == st[n].kids;
    assert st[..n] + [st[n]] == st;
    if |a| == 1 { assert a == [a[0]]; }
  }

  lemma MarkupStarts(t: Tree)
    requires !t.Text?
    ensures |PrintMarkup(t)| > 1 && PrintMarkup(t)[0] == '<'
  {
    hide PrintAttributes, PrintAll, CommentText, PiText, Shown;
  }

  lemma PrintStarts(ts: seq<Tree>)
    requires ts != [] && !ts[0].Text?
    ensures |PrintAll(ts)| > 1 && PrintAll(ts)[0] == '<'
    ensures PrintAll(ts) == PrintMarkup(ts[0]) + ['>'] + PrintAll(ts[1..])
    ensures Normal(ts) == NormalNode(ts[0]) + Normal(ts[1..])
  {
    hide PrintMarkup;
    MarkupStarts(ts[0]);
  }

  lemma EmptyNormal()
    ensures Normal([]) == [] && PrintAll([]) == []
  {
  }
}
