/** The XML parser with its default options, on strings: which tree a buffer stands for, or which error. */
module XmlParser {
  import opened XmlText

  datatype Attribute = Attribute(name: string, value: string)

  /** The nodes a document may hold. The parser itself makes elements, text and CDATA only. */
  datatype Tree =
    | Elem(name: string, attrs: seq<Attribute>, kids: seq<Tree>)
    | Text(s: string)
    | Cdata(s: string)
    | Comment(s: string)
    | Pi(name: string, value: string)
    | Declaration(name: string, attrs: seq<Attribute>)
    | Doctype(s: string)

  datatype Error =
    | EndElementMismatch | BadStartElement | BadAttribute | BadEndElement | UnrecognizedTag | BadInstruction
    | BadComment | BadCdata | BadDoctype | NoDocumentElement

  datatype Parsed = Fail(error: Error) | Ok(kids: seq<Tree>)

  /** An open element: its name, its attributes, and its children so far. The bottom frame is the document. */
  datatype Frame = Frame(name: string, attrs: seq<Attribute>, kids: seq<Tree>)

  type Stack = s: seq<Frame> | s != [] witness [Frame("", [], [])]

  function Push(st: Stack, t: Tree): (r: Stack)
    ensures |r| == |st|
  {
    var n := |st| - 1;
    st[..n] + [st[n].(kids := st[n].kids + [t])]
  }

  /** Close the top element and hand it to its parent. */
  function Pop(st: Stack): (r: Stack)
    requires |st| > 1
    ensures |r| == |st| - 1
  {
    var n := |st| - 1;
    Push(st[..n], Elem(st[n].name, st[n].attrs, st[n].kids))
  }

  // ----- scanning

  function SkipSpace(s: string): (r: string)
    ensures |r| <= |s| && (r == [] || !IsSpace(r[0]))
  {
    if s != [] && IsSpace(s[0]) then SkipSpace(s[1..]) else s
  }

  lemma SkipSpaceProgress(s: string)
    requires s != [] && IsSpace(s[0])
    ensures |SkipSpace(s)| < |s|
  {
  }

  /** Length of the run of name characters. */
  function SymbolRun(s: string): (n: nat)
    ensures n <= |s| && (n < |s| ==> !IsSymbol(s[n]))
    ensures forall i :: 0 <= i < n ==> IsSymbol(s[i])
  {
    if s == [] || !IsSymbol(s[0]) then 0 else 1 + SymbolRun(s[1..])
  }

  /** Where c first stands, or the end. */
  function IndexOf(s: string, c: char): (k: nat)
    ensures k <= |s| && (k < |s| ==> s[k] == c)
    ensures forall i :: 0 <= i < k ==> s[i] != c
  {
    if s == [] || s[0] == c then 0 else 1 + IndexOf(s[1..], c)
  }

  /** The mark and a '>' stand at i; the '>' may be the character set aside at the end of the buffer. */
  predicate MarkAt(s: string, i: nat, mark: string, endch: char) {
    && i + |mark| <= |s| && s[i..i + |mark|] == mark
    && (if i + |mark| == |s| then endch == '>' else s[i + |mark|] == '>')
  }

  /** Where the mark first stands, or the end. */
  function FindMark(s: string, from: nat, mark: string, endch: char): (k: nat)
    requires from <= |s| && mark != []
    ensures from <= k <= |s| && (k < |s| ==> MarkAt(s, k, mark, endch))
    ensures forall i :: from <= i < k ==> !MarkAt(s, i, mark, endch)
    decreases |s| - from
  {
    if from == |s| || MarkAt(s, from, mark, endch) then from else FindMark(s, from + 1, mark, endch)
  }

  /** What follows the mark and its '>'. */
  function AfterMark(s: string, k: nat, mark: string): (r: string)
    requires k + |mark| <= |s|
    ensures |r| <= |s|
  {
    if k + |mark| == |s| then [] else s[k + |mark| + 1..]
  }

  // ----- start tags

  datatype Tag = BadTag(error: Error) | GoodTag(attrs: seq<Attribute>, closed: bool, rest: string)

  function WithAttribute(a: Attribute, t: Tag): Tag {
    match t case BadTag(e) => BadTag(e) case GoodTag(attrs, closed, rest) => GoodTag([a] + attrs, closed, rest)
  }

  datatype OneAttribute = NoAttribute | OneAttribute(a: Attribute, rest: string)

  /** A name, an equals sign and a quoted value; no further name may follow at once. */
  function ReadAttribute(s: string): (one: OneAttribute)
    requires s != []
    ensures one.OneAttribute? ==> |one.rest| < |s|
  {
    var n := SymbolRun(s);
    var sep := if n < |s| && IsSpace(s[n]) then SkipSpace(s[n..]) else s[n..];
    if sep == [] || sep[0] != '=' then NoAttribute
    else
      var q := SkipSpace(sep[1..]);
      if q == [] || !(q[0] == '"' || q[0] == '\'') then NoAttribute
      else
        match ReadValue(q[1..], q[0])
        case Unterminated => NoAttribute
        case Quoted(value, rest) =>
          if rest != [] && IsStartSymbol(rest[0]) then NoAttribute
          else OneAttribute(Attribute(s[..n], UpToNul(value)), rest)
  }

  /** The inside of a start tag after its name and a space. */
  function ParseAttributes(s0: string, endch: char): (t: Tag)
    ensures t.GoodTag? ==> |t.rest| <= |s0|
    decreases |s0|
  {
    var s := SkipSpace(s0);
    if s == [] then (if endch == '>' then GoodTag([], false, []) else BadTag(BadStartElement))
    else if IsStartSymbol(s[0]) then
      match ReadAttribute(s)
      case NoAttribute => BadTag(BadAttribute)
      case OneAttribute(a, rest) => WithAttribute(a, ParseAttributes(rest, endch))
    else if s[0] == '/' then
      if |s| > 1 && s[1] == '>' then GoodTag([], true, s[2..])
      else if |s| == 1 && endch == '>' then GoodTag([], true, [])
      else BadTag(BadStartElement)
    else if s[0] == '>' then GoodTag([], false, s[1..])
    else BadTag(BadStartElement)
  }

  // ----- markup other than elements

  /** Markup that leaves nothing behind, a CDATA section, or an error. */
  datatype Markup = BadMarkup(error: Error) | Skipped(rest: string) | Section(value: string, rest: string)

  /** An instruction or declaration after its '<?': skipped up to '?>'. */
  function ParseQuestion(s: string, endch: char): (m: Markup)
    ensures !m.BadMarkup? ==> |m.rest| <= |s|
  {
    if s == [] || !IsStartSymbol(s[0]) || SymbolRun(s) == |s| then BadMarkup(BadInstruction)
    else
      var k := FindMark(s, SymbolRun(s), "?", endch);
      if k == |s| then BadMarkup(BadInstruction) else Skipped(AfterMark(s, k, "?"))
  }

  /** A comment, a CDATA section or a document type, after its '<!'. */
  function ParseExclamation(s: string, endch: char, top: bool): (m: Markup)
    ensures !m.BadMarkup? ==> |m.rest| <= |s|
  {
    if s == [] then BadMarkup(if endch == '-' then BadComment else if endch == '[' then BadCdata else UnrecognizedTag)
    else if s[0] == '-' then
      if |s| == 1 || s[1] != '-' then BadMarkup(BadComment)
      else
        var k := FindMark(s, 2, "--", endch);
        if k == |s| then BadMarkup(BadComment) else Skipped(AfterMark(s, k, "--"))
    else if s[0] == '[' then
      if !("[CDATA[" <= s) then BadMarkup(BadCdata)
      else
        var k := FindMark(s, 7, "]]", endch);
        if k == |s| then BadMarkup(BadCdata) else Section(Lines(s[7..k]), AfterMark(s, k, "]]"))
    else if "DOCTYP" <= s && (if |s| == 6 then endch == 'E' else s[6] == 'E') then
      if top then ParseGroup(s, 0, endch) else BadMarkup(BadDoctype)
    else BadMarkup(UnrecognizedTag)
  }

  /** A document type up to its '>', over nested groups, sections, quotes, comments and instructions. */
  function ParseGroup(s: string, depth: nat, endch: char): (m: Markup)
    ensures m.BadMarkup? || (m.Skipped? && |m.rest| <= |s|)
    decreases |s|
  {
    if s == [] then (if depth == 0 && endch == '>' then Skipped([]) else BadMarkup(BadDoctype))
    else if "<!" <= s && !("<!-" <= s) then
      if "<![" <= s then
        match ParseIgnore(s[3..], 0)
        case Skipped(rest) => ParseGroup(rest, depth, endch)
        case bad => bad
      else ParseGroup(s[2..], depth + 1, endch)
    else if s[0] == '<' || s[0] == '"' || s[0] == '\'' then
      match ParsePrimitive(s)
      case Skipped(rest) => ParseGroup(rest, depth, endch)
      case bad => bad
    else if s[0] == '>' then (if depth == 0 then Skipped(s[1..]) else ParseGroup(s[1..], depth - 1, endch))
    else ParseGroup(s[1..], depth, endch)
  }

  /** The rest of an ignore section, which may hold further ones. */
  function ParseIgnore(s: string, depth: nat): (m: Markup)
    ensures m.BadMarkup? || (m.Skipped? && |m.rest| < |s|)
    decreases |s|
  {
    if s == [] then BadMarkup(BadDoctype)
    else if "<![" <= s then ParseIgnore(s[3..], depth + 1)
    else if "]]>" <= s then (if depth == 0 then Skipped(s[3..]) else ParseIgnore(s[3..], depth - 1))
    else ParseIgnore(s[1..], depth)
  }

  /** A quoted string, an instruction or a comment inside a document type. */
  function ParsePrimitive(s: string): (m: Markup)
    requires s != []
    ensures m.BadMarkup? || (m.Skipped? && |m.rest| < |s|)
  {
    if s[0] == '"' || s[0] == '\'' then
      var k := IndexOf(s[1..], s[0]);
      if k == |s| - 1 then BadMarkup(BadDoctype) else Skipped(s[k + 2..])
    else if "<?" <= s then
      var k := FindMark(s, 2, "?", '\0');
      if k == |s| then BadMarkup(BadDoctype) else Skipped(s[k + 2..])
    else if "<!--" <= s then
      var k := FindMark(s, 4, "--", '\0');
      if k == |s| then BadMarkup(BadDoctype) else Skipped(s[k + 3..])
    else BadMarkup(BadDoctype)
  }

  // one step over a document type

  lemma IgnoreNothing(depth: nat)
    ensures ParseIgnore([], depth) == BadMarkup(BadDoctype)
  {
  }

  lemma IgnoreCases(s: string, depth: nat)
    requires s != []
    ensures ParseIgnore(s, depth) ==
            if "<![" <= s then ParseIgnore(s[3..], depth + 1)
            else if "]]>" <= s then (if depth == 0 then Skipped(s[3..]) else ParseIgnore(s[3..], depth - 1))
            else ParseIgnore(s[1..], depth)
  {
  }

  lemma GroupCases(s: string, depth: nat, endch: char)
    requires s != []
    ensures var r := ParseGroup(s, depth, endch);
            if "<!" <= s && !("<!-" <= s) && !("<![" <= s) then r == ParseGroup(s[2..], depth + 1, endch)
            else if s[0] == '<' || s[0] == '"' || s[0] == '\'' then
              var m := if "<!" <= s && !("<!-" <= s) then ParseIgnore(s[3..], 0) else ParsePrimitive(s);
              r == if m.Skipped? then ParseGroup(m.rest, depth, endch) else m
            else if s[0] == '>' then r == if depth == 0 then Skipped(s[1..]) else ParseGroup(s[1..], depth - 1, endch)
            else r == ParseGroup(s[1..], depth, endch)
  {
    hide ParseIgnore, ParsePrimitive;
    assert "<!" <= s ==> s[0] == '<';
    assert "<![" <= s && !("<!-" <= s) ==> "<!" <= s;
  }

  lemma GroupNothing(depth: nat, endch: char)
    ensures ParseGroup([], depth, endch) == if depth == 0 && endch == '>' then Skipped([]) else BadMarkup(BadDoctype)
  {
  }

  // ----- the main loop

  /** inTag says that a '<' was just stepped over. */
  function ParseLoop(s: string, endch: char, st: Stack, inTag: bool): Parsed
    decreases |s|, if inTag then 1 else 2
  {
    if inTag then ParseTag(s, endch, st)
    else if s == [] then (if |st| == 1 then Ok(st[0].kids) else Fail(EndElementMismatch))
    else if s[0] == '<' then ParseLoop(s[1..], endch, st, true)
    else
      var t := SkipSpace(s);
      if t == [] || t[0] == '<' then
        SkipSpaceProgress(s);
        ParseLoop(t, endch, st, false)
      else if |st| > 1 then
        var c := ReadText(s);
        var st' := Push(st, Text(UpToNul(c.text)));
        if |c.rest| <= 1 then Fail(EndElementMismatch) else ParseLoop(c.rest[1..], endch, st', true)
      else
        var k := IndexOf(s, '<');
        if k == |s| then Ok(st[0].kids) else ParseLoop(s[k + 1..], endch, st, true)
  }

  function ParseTag(s: string, endch: char, st: Stack): Parsed
    decreases |s|, 0
  {
    if s == [] then Fail(if endch == '?' then BadInstruction else UnrecognizedTag)
    else if IsStartSymbol(s[0]) then
      var n := SymbolRun(s);
      var st' := st + [Frame(s[..n], [], [])];
      if n == |s| then (if endch == '>' then ParseLoop([], endch, st', false) else Fail(BadStartElement))
      else if s[n] == '>' then ParseLoop(s[n + 1..], endch, st', false)
      else if IsSpace(s[n]) then
        match ParseAttributes(s[n + 1..], endch)
        case BadTag(e) => Fail(e)
        case GoodTag(attrs, closed, rest) =>
          var open := st + [Frame(s[..n], attrs, [])];
          ParseLoop(rest, endch, if closed then Pop(open) else open, false)
      else if s[n] == '/' then
        if n + 1 < |s| && s[n + 1] == '>' then ParseLoop(s[n + 2..], endch, Pop(st'), false)
        else if n + 1 == |s| && endch == '>' then ParseLoop([], endch, Pop(st'), false)
        else Fail(BadStartElement)
      else Fail(BadStartElement)
    else if s[0] == '/' then
      if |st| == 1 then Fail(EndElementMismatch)
      else
        var name := st[|st| - 1].name;
        var n := SymbolRun(s[1..]);
        if s[1..n + 1] != name then
          Fail(if n + 1 == |s| && name == s[1..n + 1] + [endch] then BadEndElement else EndElementMismatch)
        else
          var t := SkipSpace(s[n + 1..]);
          if t == [] then (if endch == '>' then ParseLoop([], endch, Pop(st), false) else Fail(BadEndElement))
          else if t[0] == '>' then ParseLoop(t[1..], endch, Pop(st), false)
          else Fail(BadEndElement)
    else if s[0] == '?' || s[0] == '!' then
      match if s[0] == '?' then ParseQuestion(s[1..], endch) else ParseExclamation(s[1..], endch, |st| == 1)
      case BadMarkup(e) => Fail(e)
      case Skipped(rest) => ParseLoop(rest, endch, st, false)
      case Section(value, rest) => ParseLoop(rest, endch, Push(st, Cdata(UpToNul(value))), false)
    else Fail(UnrecognizedTag)
  }

  /** An end tag, from the name behind its slash on. */
  lemma EndCases(t: string, u: string, endch: char, st: Stack)
    requires t == ['/'] + u && |st| > 1
    ensures var name := st[|st| - 1].name; var n := SymbolRun(u);
            var rest := SkipSpace(u[n..]);
            var r := ParseTag(t, endch, st);
            && (u[..n] != name ==>
                  r == Fail(if n == |u| && name == u[..n] + [endch] then BadEndElement else EndElementMismatch))
            && (u[..n] == name ==>
                  r == if rest == [] then (if endch == '>' then ParseLoop([], endch, Pop(st), false) else Fail(BadEndElement))
                       else if rest[0] == '>' then ParseLoop(rest[1..], endch, Pop(st), false)
                       else Fail(BadEndElement))
  {
    hide ParseLoop, Pop, ParseQuestion, ParseExclamation, SymbolRun, SkipSpace;
    var n := SymbolRun(u);
    assert t[1..] == u && t[1..n + 1] == u[..n] && t[n + 1..] == u[n..];
  }

  // ----- whole buffers

  predicate HasElement(kids: seq<Tree>) {
    exists i :: 0 <= i < |kids| && kids[i].Elem?
  }

  function SkipBom(s: string): (r: string)
    ensures r == s || (|s| >= 3 && r == s[3..] && s[0] != '<' && s[1] != '<' && s[2] != '<')
  {
    if |s| >= 3 && s[0] as int == 0xEF && s[1] as int == 0xBB && s[2] as int == 0xBF then s[3..] else s
  }

  /** Parse a whole buffer: its last character is set aside, and the input ends there or at an earlier NUL. */
  function ParseDocument(buffer: string): Parsed {
    if buffer == [] then Fail(NoDocumentElement)
    else
      var endch := buffer[|buffer| - 1];
      match ParseLoop(SkipBom(UpToNul(buffer[..|buffer| - 1])), endch, [Frame("", [], [])], false)
      case Fail(e) => Fail(e)
      case Ok(kids) =>
        if endch == '<' then Fail(UnrecognizedTag)
        else if !HasElement(kids) then Fail(NoDocumentElement)
        else Ok(kids)
  }

  // ----- what the parser can make

  predicate IsName(s: string) {
    s != [] && IsStartSymbol(s[0]) && (forall i :: 0 <= i < |s| ==> IsSymbol(s[i]))
  }

  predicate MadeAttributes(attrs: seq<Attribute>) {
    forall i :: 0 <= i < |attrs| ==> IsName(attrs[i].name) && NoNul(attrs[i].value)
  }

  /** Elements, text and CDATA, with proper names and no NUL. */
  predicate Made(ts: seq<Tree>)
    decreases ts, 1
  {
    forall i :: 0 <= i < |ts| ==> MadeNode(ts[i])
  }

  predicate MadeNode(t: Tree)
    decreases t, 0
  {
    match t
    case Elem(name, attrs, kids) => IsName(name) && MadeAttributes(attrs) && Made(kids)
    case Text(s) => NoNul(s)
    case Cdata(s) => NoNul(s)
    case _ => false
  }

  predicate NoText(ts: seq<Tree>) {
    forall i :: 0 <= i < |ts| ==> !ts[i].Text?
  }

  ghost predicate MadeStack(st: Stack) {
    && NoText(st[0].kids)
    && (forall i :: 0 <= i < |st| ==> Made(st[i].kids) && MadeAttributes(st[i].attrs))
    && (forall i :: 1 <= i < |st| ==> IsName(st[i].name))
  }

  lemma PushMade(st: Stack, t: Tree)
    requires MadeStack(st) && MadeNode(t) && (|st| == 1 ==> !t.Text?)
    ensures MadeStack(Push(st, t))
  {
    hide MadeNode, MadeAttributes, IsName;
    var n := |st| - 1;
    var r := Push(st, t);
    forall i | 0 <= i < |r| ensures Made(r[i].kids) && MadeAttributes(r[i].attrs) {
      assert i < n ==> r[i] == st[i];
      if i == n {
        assert Made(st[n].kids);
      }
    }
  }

  lemma PopMade(st: Stack)
    requires MadeStack(st) && |st| > 1
    ensures MadeStack(Pop(st))
  {
    hide MadeAttributes, IsName;
    var n := |st| - 1;
    assert Made(st[n].kids) && MadeAttributes(st[n].attrs) && IsName(st[n].name);
    PushMade(st[..n], Elem(st[n].name, st[n].attrs, st[n].kids));
  }

  lemma OpenMade(st: Stack, name: string, attrs: seq<Attribute>)
    requires MadeStack(st) && IsName(name) && MadeAttributes(attrs)
    ensures MadeStack(st + [Frame(name, attrs, [])])
  {
    hide MadeNode, MadeAttributes, IsName;
  }

  lemma {:induction false} AttributesMade(s: string, endch: char)
    ensures ParseAttributes(s, endch).GoodTag? ==> MadeAttributes(ParseAttributes(s, endch).attrs)
    decreases |s|
  {
    hide SkipSpace, ReadAttribute;
    var t := SkipSpace(s);
    if t != [] && IsStartSymbol(t[0]) && ParseAttributes(s, endch).GoodTag? {
      OneMade(t);
      AttributesMade(ReadAttribute(t).rest, endch);
    }
  }

  lemma OneMade(s: string)
    requires s != [] && IsStartSymbol(s[0]) && ReadAttribute(s).OneAttribute?
    ensures var a := ReadAttribute(s).a; IsName(a.name) && NoNul(a.value)
  {
    hide SkipSpace, ReadValue, UpToNul;
    var n := SymbolRun(s);
    assert IsName(s[..n]);
    var sep := if n < |s| && IsSpace(s[n]) then SkipSpace(s[n..]) else s[n..];
    var q := SkipSpace(sep[1..]);
    CutNoNul(ReadValue(q[1..], q[0]).value);
  }

  /** Every tree the parser hands over is well named, free of NULs, and has no text at its top level. */
  lemma {:induction false} LoopMade(s: string, endch: char, st: Stack, inTag: bool)
    requires MadeStack(st)
    ensures var r := ParseLoop(s, endch, st, inTag); r.Ok? ==> Made(r.kids) && NoText(r.kids)
    decreases |s|, if inTag then 2 else 3
  {
    hide ParseTag, ReadText, UpToNul, MadeNode, MadeAttributes, Push;
    if inTag {
      TagMade(s, endch, st);
    } else if s == [] {
    } else if s[0] == '<' {
      LoopMade(s[1..], endch, st, true);
    } else {
      var t := SkipSpace(s);
      if t == [] || t[0] == '<' {
        SkipSpaceProgress(s);
        LoopMade(t, endch, st, false);
      } else if |st| > 1 {
        var c := ReadText(s);
        TextMade(c.text);
        PushMade(st, Text(UpToNul(c.text)));
        if |c.rest| > 1 {
          LoopMade(c.rest[1..], endch, Push(st, Text(UpToNul(c.text))), true);
        }
      } else {
        var k := IndexOf(s, '<');
        if k < |s| {
          LoopMade(s[k + 1..], endch, st, true);
        }
      }
    }
  }

  lemma TextMade(s: string)
    ensures MadeNode(Text(UpToNul(s))) && MadeNode(Cdata(UpToNul(s)))
  {
    CutNoNul(s);
  }

  lemma {:induction false} TagMade(s: string, endch: char, st: Stack)
    requires MadeStack(st)
    ensures var r := ParseTag(s, endch, st); r.Ok? ==> Made(r.kids) && NoText(r.kids)
    decreases |s|, 1
  {
    hide ParseLoop, MadeNode, MadeAttributes, Push, Pop, UpToNul, ParseQuestion, ParseExclamation, MadeStack, Made, NoText;
    if s == [] {
    } else if IsStartSymbol(s[0]) {
      StartMade(s, endch, st);
    } else if s[0] == '/' {
      if |st| > 1 {
        PopMade(st);
        var n := SymbolRun(s[1..]);
        var t := SkipSpace(s[n + 1..]);
        LoopMade([], endch, Pop(st), false);
        if t != [] {
          LoopMade(t[1..], endch, Pop(st), false);
        }
      }
    } else if s[0] == '?' || s[0] == '!' {
      var m := if s[0] == '?' then ParseQuestion(s[1..], endch) else ParseExclamation(s[1..], endch, |st| == 1);
      if m.Skipped? {
        LoopMade(m.rest, endch, st, false);
      } else if m.Section? {
        TextMade(m.value);
        PushMade(st, Cdata(UpToNul(m.value)));
        LoopMade(m.rest, endch, Push(st, Cdata(UpToNul(m.value))), false);
      }
    }
  }

  lemma {:induction false} StartMade(s: string, endch: char, st: Stack)
    requires MadeStack(st) && s != [] && IsStartSymbol(s[0])
    ensures var r := ParseTag(s, endch, st); r.Ok? ==> Made(r.kids) && NoText(r.kids)
    decreases |s|, 0
  {
    hide ParseLoop, MadeNode, MadeAttributes, Push, Pop, MadeStack, Made, NoText, ParseAttributes;
    var n := SymbolRun(s);
    assert IsName(s[..n]);
    var st' := st + [Frame(s[..n], [], [])];
    NoAttributes();
    OpenMade(st, s[..n], []);
    PopMade(st');
    if n == |s| {
      LoopMade([], endch, st', false);
    } else if s[n] == '>' {
      LoopMade(s[n + 1..], endch, st', false);
    } else if IsSpace(s[n]) {
      var t := ParseAttributes(s[n + 1..], endch);
      AttributesMade(s[n + 1..], endch);
      if t.GoodTag? {
        var open := st + [Frame(s[..n], t.attrs, [])];
        OpenMade(st, s[..n], t.attrs);
        PopMade(open);
        LoopMade(t.rest, endch, if t.closed then Pop(open) else open, false);
      }
    } else if s[n] == '/' {
      LoopMade([], endch, Pop(st'), false);
      if n + 1 < |s| {
        LoopMade(s[n + 2..], endch, Pop(st'), false);
      }
    }
  }

  lemma NoAttributes()
    ensures MadeAttributes([])
  {
  }

  lemma DocumentMade(buffer: string)
    ensures var r := ParseDocument(buffer); r.Ok? ==> Made(r.kids) && NoText(r.kids) && HasElement(r.kids)
  {
    hide ParseLoop, SkipBom, UpToNul, MadeNode;
    if buffer != [] {
      var st: Stack := [Frame("", [], [])];
      NoAttributes();
      LoopMade(SkipBom(UpToNul(buffer[..|buffer| - 1])), buffer[|buffer| - 1], st, false);
    }
  }
}
