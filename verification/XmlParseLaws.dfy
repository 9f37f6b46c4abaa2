/** What the parser accepts and rejects, in the terms of XML 1.0: names, white space, quotes, and the errors of each kind
    of markup. */
module XmlParseLaws {
  import opened XmlText
  import opened XmlParser
  import opened XmlPrint
  import opened XmlTags
  import opened XmlTree
  import XmlPrintLaws

  // ----- names

  predicate NameStart(c: char) {
    c in "abcdefghijklmnopqrstuvwxyz" || c in "ABCDEFGHIJKLMNOPQRSTUVWXYZ" || c == '_' || c == ':' || c as int >= 128
  }

  predicate ProperName(name: string) {
    && name != [] && NameStart(name[0])
    && forall i :: 0 <= i < |name| ==> NameStart(name[i]) || name[i] in "0123456789-."
  }

  lemma LowerLetters(c: char)
    ensures c in "abcdefghijklmnopqrstuvwxyz" <==> 'a' <= c <= 'z'
  {
    var s := "abcdefghijklmnopqrstuvwxyz";
    if 'a' <= c <= 'z' {
      assert s[c as int - 'a' as int] == c;
    }
  }

  lemma UpperLetters(c: char)
    ensures c in "ABCDEFGHIJKLMNOPQRSTUVWXYZ" <==> 'A' <= c <= 'Z'
  {
    var s := "ABCDEFGHIJKLMNOPQRSTUVWXYZ";
    if 'A' <= c <= 'Z' {
      assert s[c as int - 'A' as int] == c;
    }
  }

  lemma NameCharacter(c: char)
    ensures IsStartSymbol(c) <==> NameStart(c)
    ensures IsSymbol(c) <==> NameStart(c) || c in "0123456789-."
  {
    LowerLetters(c);
    UpperLetters(c);
  }

  lemma NameIs(name: string)
    ensures IsName(name) <==> ProperName(name)
  {
    forall i | 0 <= i < |name|
      ensures IsSymbol(name[i]) <==> NameStart(name[i]) || name[i] in "0123456789-."
      ensures IsStartSymbol(name[i]) <==> NameStart(name[i])
    {
      NameCharacter(name[i]);
    }
    hide IsSymbol, IsStartSymbol, NameStart;
  }

  /** An empty element parses under its name exactly when the name is proper. */
  lemma NameLaw(name: string)
    requires name != []
    ensures ParseDocument("<" + name + " />") == Ok([Elem(name, [], [])]) <==> ProperName(name)
  {
    hide ParseDocument, ProperName, IsName;
    var t := Elem(name, [], []);
    NameIs(name);
    RoundTripIff([t]);
    LastPrinted(t);
    assert PrintMarkup(t) == PrintOpen(t) == "<" + name + " /";
    assert "<" + name + " /" + ">" == "<" + name + " />";
    assert [t][0].Elem?;
    OneElement(name);
  }

  lemma OneElement(name: string)
    requires name != []
    ensures var doc := [Elem(name, [], [])]; IsDocument(doc) && Clean(doc) && (Printable(doc, true) <==> IsName(name))
  {
    hide IsName;
    var t := Elem(name, [], []);
    var doc := [t];
    assert doc[0].Elem? && doc[1..] == [];
    assert CleanAttributes([]) && Clean([]) && CleanNode(t);
    assert Printable([], false);
    assert PrintableNode(t, true) <==> Nameable(name);
    assert Printable(doc, true) <==> PrintableNode(doc[0], true);
  }

  // ----- white space

  predicate White(s: string) {
    forall i :: 0 <= i < |s| ==> s[i] in " \t\n\r"
  }

  lemma {:induction false} WhiteSkipped(ws: string, t: string)
    requires White(ws) && (t == [] || t[0] !in " \t\n\r")
    ensures SkipSpace(ws + t) == t
  {
    if ws == [] {
      assert ws + t == t;
    } else {
      assert (ws + t)[1..] == ws[1..] + t && (ws + t)[0] == ws[0];
      WhiteSkipped(ws[1..], t);
    }
  }

  /** White space of any kind and length before an attribute, around its equals sign, and either kind of quote: the
      attribute reads the same. */
  lemma AttributeLaw(ws: string, name: string, ws1: string, ws2: string, quote: char, inside: string, value: string, after: string, endch: char)
    requires White(ws) && White(ws1) && White(ws2) && ProperName(name) && (quote == '"' || quote == '\'')
    requires ReadValue(inside, quote) == Quoted(value, after) && (after == [] || !NameStart(after[0]))
    ensures ParseAttributes(ws + (name + (ws1 + ("=" + (ws2 + ([quote] + inside))))), endch) ==
            WithAttribute(Attribute(name, UpToNul(value)), ParseAttributes(after, endch))
  {
    hide ReadValue, SkipSpace, SymbolRun, UpToNul, ProperName, White, IsName;
    var q := [quote] + inside;
    var eq := "=" + (ws2 + q);
    var sep := ws1 + eq;
    var s := name + sep;
    NameIs(name);
    NameFacts(name);
    WhiteSkipped(ws, s);
    WhiteSkipped(ws2, q);
    SepFacts(ws1, eq);
    NameScanned(name, sep);
    assert eq[1..] == ws2 + q && q[1..] == inside;
    if after != [] {
      NameCharacter(after[0]);
    }
    AttributeRead(ws + s, s, endch);
    OneRead(s, name, sep, eq, q, quote, inside, value, after);
  }

  lemma NameFacts(name: string)
    requires IsName(name)
    ensures name != [] && IsStartSymbol(name[0]) && name[0] !in " \t\n\r" && forall i :: 0 <= i < |name| ==> IsSymbol(name[i])
  {
  }

  lemma SepFacts(ws1: string, eq: string)
    requires White(ws1) && eq != [] && eq[0] == '='
    ensures var sep := ws1 + eq;
            !IsSymbol(sep[0]) && (IsSpace(sep[0]) ==> SkipSpace(sep) == eq) && (!IsSpace(sep[0]) ==> sep == eq)
  {
    WhiteSkipped(ws1, eq);
    if ws1 == [] {
      assert ws1 + eq == eq;
    }
  }

  lemma AttributeRead(s0: string, s: string, endch: char)
    requires SkipSpace(s0) == s && s != [] && IsStartSymbol(s[0]) && ReadAttribute(s).OneAttribute?
    ensures ParseAttributes(s0, endch) == WithAttribute(ReadAttribute(s).a, ParseAttributes(ReadAttribute(s).rest, endch))
  {
    hide SkipSpace, ReadAttribute;
  }

  lemma OneRead(s: string, name: string, sep: string, eq: string, q: string, quote: char, inside: string, value: string, after: string)
    requires s == name + sep && name != [] && sep != [] && SymbolRun(s) == |name|
    requires (IsSpace(sep[0]) ==> SkipSpace(sep) == eq) && (!IsSpace(sep[0]) ==> sep == eq)
    requires eq != [] && eq[0] == '=' && SkipSpace(eq[1..]) == q && q == [quote] + inside && (quote == '"' || quote == '\'')
    requires ReadValue(inside, quote) == Quoted(value, after) && (after == [] || !IsStartSymbol(after[0]))
    ensures ReadAttribute(s) == OneAttribute(Attribute(name, UpToNul(value)), after)
  {
    hide SkipSpace, SymbolRun, ReadValue, UpToNul;
    assert s[|name|..] == sep && s[|name|] == sep[0] && s[..|name|] == name && q[1..] == inside;
  }

  // ----- errors

  /** What may not follow a '<': nothing, or a character that starts no markup. Nor an end tag with nothing open. */
  lemma TagErrors(t: string, endch: char, st: Stack)
    ensures t == [] && endch != '?' ==> ParseTag(t, endch, st) == Fail(UnrecognizedTag)
    ensures t != [] && !NameStart(t[0]) && t[0] !in "/?!" ==> ParseTag(t, endch, st) == Fail(UnrecognizedTag)
    ensures t != [] && t[0] == '/' && |st| == 1 ==> ParseTag(t, endch, st) == Fail(EndElementMismatch)
    ensures t != [] && t[0] == '!' && |t| > 1 && t[1] !in "-[D" ==> ParseTag(t, endch, st) == Fail(UnrecognizedTag)
  {
    hide ParseLoop, FindMark, ParseGroup, SymbolRun, ParseAttributes, NameStart, IsStartSymbol;
    if t != [] {
      NameCharacter(t[0]);
      if t[0] in "/?!" {
        StartsNothing(t[0]);
      }
    }
    if |t| > 1 && t[1] != 'D' {
      assert !("DOCTYP" <= t[1..]) by {
        assert "DOCTYP"[0] == 'D' && t[1..][0] == t[1];
      }
    }
  }

  lemma StartsNothing(c: char)
    requires c in "/?!"
    ensures !IsStartSymbol(c)
  {
  }

  /** What may not follow the name of an element. */
  lemma StartErrors(name: string, rest: string, endch: char, st: Stack)
    requires ProperName(name)
    ensures rest == [] && endch != '>' ==> ParseTag(name + rest, endch, st) == Fail(BadStartElement)
    ensures rest != [] && !NameStart(rest[0]) && rest[0] !in "0123456789-." && rest[0] !in " \t\n\r" && rest[0] !in "/>" ==>
              ParseTag(name + rest, endch, st) == Fail(BadStartElement)
    ensures rest != [] && rest[0] == '/' && |rest| > 1 && rest[1] != '>' ==> ParseTag(name + rest, endch, st) == Fail(BadStartElement)
  {
    hide ParseLoop, SymbolRun, ParseAttributes, ProperName, NameStart, IsName, IsSymbol, IsStartSymbol;
    NameIs(name);
    NameFacts(name);
    if rest != [] {
      NameCharacter(rest[0]);
      SlashIs(rest[0]);
    }
    if rest == [] || !IsSymbol(rest[0]) {
      NameScanned(name, rest);
      var t, n := name + rest, |name|;
      assert t[0] == name[0] && (rest != [] ==> t[n] == rest[0]) && (|rest| > 1 ==> t[n + 1] == rest[1]);
    }
  }

  lemma SlashIs(c: char)
    ensures c == '/' ==> !IsSymbol(c)
  {
  }

  /** An end tag must name the element that is open, whatever follows; and only white space may stand before its bracket. */
  lemma EndErrors(name: string, rest: string, endch: char, st: Stack)
    requires ProperName(name) && |st| > 1 && (rest == [] || !(NameStart(rest[0]) || rest[0] in "0123456789-."))
    ensures st[|st| - 1].name != name && (rest != [] || st[|st| - 1].name != name + [endch]) ==>
              ParseTag("/" + name + rest, endch, st) == Fail(EndElementMismatch)
    ensures st[|st| - 1].name == name && rest != [] && rest[0] !in " \t\n\r>" ==>
              ParseTag("/" + name + rest, endch, st) == Fail(BadEndElement)
  {
    hide ParseTag, ParseLoop, SymbolRun, ProperName, NameStart, IsName, IsSymbol, IsStartSymbol, SkipSpace, Pop;
    NameIs(name);
    NameFacts(name);
    if rest != [] {
      NameCharacter(rest[0]);
    }
    NameScanned(name, rest);
    var u := name + rest;
    assert "/" + name + rest == ['/'] + u;
    EndCases(['/'] + u, u, endch, st);
    if rest != [] && rest[0] !in " \t\n\r" {
      WhiteSkipped([], rest);
      assert [] + rest == rest;
    }
  }

  /** Text that no tag ends leaves its element open, and the end of the input too. */
  lemma OpenErrors(s: string, endch: char, st: Stack)
    requires |st| > 1 && '<' !in s
    ensures ParseLoop(s, endch, st, false) == Fail(EndElementMismatch)
  {
    hide ParseTag, SkipSpace;
    if s != [] {
      var t := SkipSpace(s);
      SkipPart(s);
      NoTag(s);
      if t == [] || t[0] == '<' {
        SkipSpaceProgress(s);
      }
    }
  }

  lemma {:induction false} SkipPart(s: string)
    ensures forall i :: 0 <= i < |SkipSpace(s)| ==> SkipSpace(s)[i] in s
    ensures s != [] && !IsSpace(s[0]) ==> SkipSpace(s) == s
  {
    if s != [] && IsSpace(s[0]) {
      SkipPart(s[1..]);
    }
  }

  lemma {:induction false} NoTag(s: string)
    requires '<' !in s
    ensures ReadText(s).rest == []
    decreases |s|
  {
    hide ReadReference;
    if s != [] {
      NoTag(s[1..]);
      if |s| > 1 {
        NoTag(s[2..]);
      }
      if s[0] == '&' {
        ReferenceShrinks(s);
        NoTag(s[ReadReference(s).n..]);
      }
    }
  }

  /** A name follows the closing quote at once. */
  predicate Touches(q: Quoted) {
    q.Quoted? && q.rest != [] && NameStart(q.rest[0])
  }

  /** An attribute needs an equals sign, a quoted value and its closing quote, and may not touch the next name. */
  lemma AttributeErrors(name: string, ws: string, rest: string, endch: char)
    requires ProperName(name) && White(ws) && (rest == [] || rest[0] !in " \t\n\r")
    requires ws == [] ==> rest == [] || !(NameStart(rest[0]) || rest[0] in "0123456789-.")
    ensures rest == [] || rest[0] != '=' ==> ParseAttributes(name + ws + rest, endch) == BadTag(BadAttribute)
    ensures rest != [] && rest[0] == '=' && |rest| > 1 && rest[1] !in " \t\n\r\"'" ==>
              ParseAttributes(name + ws + rest, endch) == BadTag(BadAttribute)
    ensures |rest| > 1 && rest[0] == '=' && rest[1] in "\"'" && ReadValue(rest[2..], rest[1]) == Unterminated ==>
              ParseAttributes(name + ws + rest, endch) == BadTag(BadAttribute)
    ensures |rest| > 1 && rest[0] == '=' && rest[1] in "\"'" && Touches(ReadValue(rest[2..], rest[1])) ==>
              ParseAttributes(name + ws + rest, endch) == BadTag(BadAttribute)
  {
    hide SymbolRun, ProperName, NameStart, IsName, IsSymbol, IsStartSymbol, SkipSpace, ReadValue, ReadAttribute;
    var s, sep := name + ws + rest, ws + rest;
    assert s == name + sep;
    NameIs(name);
    NameFacts(name);
    WhiteSkipped([], s);
    assert [] + s == s;
    AttributeGap(ws, rest);
    NameScanned(name, sep);
    NoAttributeRead(s, name, sep, rest);
  }

  lemma AttributeGap(ws: string, rest: string)
    requires White(ws) && (rest == [] || rest[0] !in " \t\n\r")
    requires ws == [] ==> rest == [] || !(NameStart(rest[0]) || rest[0] in "0123456789-.")
    ensures var sep := ws + rest;
            && (sep == [] || !IsSymbol(sep[0]))
            && (if sep != [] && IsSpace(sep[0]) then SkipSpace(sep) else sep) == rest
  {
    WhiteSkipped(ws, rest);
    if ws == [] {
      assert ws + rest == rest;
      if rest != [] {
        NameCharacter(rest[0]);
      }
    }
  }

  lemma NoAttributeRead(s: string, name: string, sep: string, rest: string)
    requires s == name + sep && name != [] && SymbolRun(s) == |name|
    requires (if sep != [] && IsSpace(sep[0]) then SkipSpace(sep) else sep) == rest
    ensures rest == [] || rest[0] != '=' ==> ReadAttribute(s) == NoAttribute
    ensures |rest| > 1 && rest[0] == '=' && rest[1] !in " \t\n\r\"'" ==> ReadAttribute(s) == NoAttribute
    ensures |rest| > 1 && rest[0] == '=' && rest[1] in "\"'" && ReadValue(rest[2..], rest[1]) == Unterminated ==> ReadAttribute(s) == NoAttribute
    ensures |rest| > 1 && rest[0] == '=' && rest[1] in "\"'" && Touches(ReadValue(rest[2..], rest[1])) ==> ReadAttribute(s) == NoAttribute
  {
    hide SkipSpace, SymbolRun, ReadValue, NameStart, IsStartSymbol;
    assert s[|name|..] == sep && (sep != [] ==> s[|name|] == sep[0]);
    if |rest| > 1 && rest[0] == '=' && rest[1] !in " \t\n\r" {
      WhiteSkipped([], rest[1..]);
      assert [] + rest[1..] == rest[1..] && rest[1..][1..] == rest[2..];
      if rest[1] in "\"'" && ReadValue(rest[2..], rest[1]).Quoted? && ReadValue(rest[2..], rest[1]).rest != [] {
        NameCharacter(ReadValue(rest[2..], rest[1]).rest[0]);
      }
    }
  }

  lemma {:induction false} HoldsAt(s: string, i: nat, m: string)
    requires i + |m| <= |s| && s[i..i + |m|] == m
    ensures XmlPrintLaws.Holds(s, m)
    decreases i
  {
    if i > 0 {
      assert s[1..][i - 1..i - 1 + |m|] == m;
      HoldsAt(s[1..], i - 1, m);
    } else {
      assert m <= s;
    }
  }

  /** Where the mark with its bracket does not stand, the scan runs to the end. */
  lemma MarkMissing(pre: string, s: string, mark: string, endch: char)
    requires mark != [] && endch != '>' && !XmlPrintLaws.Holds(s, mark + ">")
    ensures FindMark(pre + s, |pre|, mark, endch) == |pre + s|
  {
    hide FindMark;
    var t := pre + s;
    var k := FindMark(t, |pre|, mark, endch);
    if k < |t| {
      var i, n := k - |pre|, |mark|;
      assert t[k..k + n] == s[i..i + n] && t[k + n] == s[i + n];
      assert s[i..i + (n + 1)] == s[i..i + n] + [s[i + n]] == mark + ">";
      HoldsAt(s, i, mark + ">");
    }
  }

  lemma MarkupFails(c: char, t: string, endch: char, st: Stack, e: Error)
    requires c == '?' ==> ParseQuestion(t, endch) == BadMarkup(e)
    requires c == '!' ==> ParseExclamation(t, endch, |st| == 1) == BadMarkup(e)
    requires c == '?' || c == '!'
    ensures ParseTag([c] + t, endch, st) == Fail(e)
  {
    hide ParseLoop, ParseQuestion, ParseExclamation;
    StartsNothing(c);
    assert ([c] + t)[1..] == t;
  }

  /** Comments need their second dash and their end. */
  lemma CommentErrors(s: string, endch: char, st: Stack)
    requires endch != '>'
    ensures !XmlPrintLaws.Holds(s, "-->") ==> ParseTag("!--" + s, endch, st) == Fail(BadComment)
    ensures s == [] || s[0] != '-' ==> ParseTag("!-" + s, endch, st) == Fail(BadComment)
  {
    hide ParseTag, FindMark, ParseGroup;
    if !XmlPrintLaws.Holds(s, "-->") {
      assert "--" + ">" == "-->";
      MarkMissing("--", s, "--", endch);
      assert "!--" + s == ['!'] + ("--" + s);
      MarkupFails('!', "--" + s, endch, st, BadComment);
    }
    if s == [] || s[0] != '-' {
      assert "!-" + s == ['!'] + ("-" + s);
      MarkupFails('!', "-" + s, endch, st, BadComment);
    }
  }

  lemma PrefixBehind(c: char, a: string, s: string)
    ensures [c] + a <= [c] + s <==> a <= s
  {
    if [c] + a <= [c] + s {
      assert forall i :: 0 <= i < |a| ==> a[i] == ([c] + a)[i + 1] == ([c] + s)[i + 1] == s[i];
    }
  }

  /** Sections need their keyword and their end. */
  lemma SectionErrors(s: string, endch: char, st: Stack)
    requires endch != '>'
    ensures !XmlPrintLaws.Holds(s, "]]>") ==> ParseTag("![CDATA[" + s, endch, st) == Fail(BadCdata)
    ensures !("CDATA[" <= s) ==> ParseTag("![" + s, endch, st) == Fail(BadCdata)
  {
    hide ParseTag, FindMark, ParseGroup, Lines;
    if !XmlPrintLaws.Holds(s, "]]>") {
      assert "]]" + ">" == "]]>";
      MarkMissing("[CDATA[", s, "]]", endch);
      var t := "[CDATA[" + s;
      assert "![CDATA[" + s == ['!'] + t && t[..7] == "[CDATA[";
      MarkupFails('!', t, endch, st, BadCdata);
    }
    if !("CDATA[" <= s) {
      var t := "[" + s;
      assert "![" + s == ['!'] + t && "[CDATA[" == "[" + "CDATA[";
      PrefixBehind('[', "CDATA[", s);
      MarkupFails('!', t, endch, st, BadCdata);
    }
  }

  /** Instructions need a name and their end; document types stand at the top. */
  lemma OtherErrors(s: string, name: string, endch: char, st: Stack)
    requires endch != '>' && ProperName(name)
    ensures s == [] || !NameStart(s[0]) ==> ParseTag("?" + s, endch, st) == Fail(BadInstruction)
    ensures (s == [] || s[0] in " \t\n\r?") && !XmlPrintLaws.Holds(s, "?>") ==> ParseTag("?" + (name + s), endch, st) == Fail(BadInstruction)
    ensures |st| > 1 ==> ParseTag("!DOCTYPE" + s, endch, st) == Fail(BadDoctype)
  {
    hide *;
    NoInstructionName(s, endch, st);
    NoInstructionEnd(s, name, endch, st);
    DoctypeBelow(s, endch, st);
  }

  lemma NoInstructionName(s: string, endch: char, st: Stack)
    ensures s == [] || !NameStart(s[0]) ==> ParseTag("?" + s, endch, st) == Fail(BadInstruction)
  {
    hide ParseTag, FindMark;
    if s == [] || !NameStart(s[0]) {
      if s != [] {
        NameCharacter(s[0]);
      }
      MarkupFails('?', s, endch, st, BadInstruction);
    }
  }

  lemma NoInstructionEnd(s: string, name: string, endch: char, st: Stack)
    requires endch != '>' && ProperName(name)
    ensures (s == [] || s[0] in " \t\n\r?") && !XmlPrintLaws.Holds(s, "?>") ==> ParseTag("?" + (name + s), endch, st) == Fail(BadInstruction)
  {
    hide ParseTag, FindMark, SymbolRun, ProperName, IsName, XmlPrintLaws.Holds;
    NameIs(name);
    NameFacts(name);
    if (s == [] || s[0] in " \t\n\r?") && !XmlPrintLaws.Holds(s, "?>") {
      NameScanned(name, s);
      assert "?" + ">" == "?>";
      MarkMissing(name, s, "?", endch);
      MarkupFails('?', name + s, endch, st, BadInstruction);
    }
  }

  lemma DoctypeBelow(s: string, endch: char, st: Stack)
    ensures |st| > 1 ==> ParseTag("!DOCTYPE" + s, endch, st) == Fail(BadDoctype)
  {
    hide ParseTag, FindMark, ParseGroup;
    if |st| > 1 {
      var t := "DOCTYPE" + s;
      assert "!DOCTYPE" + s == ['!'] + t && t[..6] == "DOCTYP" && t[6] == 'E';
      MarkupFails('!', t, endch, st, BadDoctype);
    }
  }

  /** A tag opened by the last character of the buffer is noticed although that character is set aside. */
  lemma StrayBracket(doc: seq<Tree>)
    requires Printable(doc, true) && HasElement(doc)
    ensures ParseDocument(PrintAll(doc) + ['<']) == Fail(UnrecognizedTag)
  {
    hide ParseLoop, Printable, PrintAll, Normal, WithoutText, HasElement, UpToNul, SkipBom, Push;
    var root: Stack := [Frame("", [], [])];
    var p, got := PrintAll(doc), Normal(WithoutText(doc));
    TopRead(doc, [], '<', root);
    LoopDone('<', root, got);
    PrintNoNul(doc, true);
    CutNoNul(p);
    BomSkipped(p, '<', root);
    assert p + [] == p && (p + ['<'])[..|p|] == p;
  }
}
