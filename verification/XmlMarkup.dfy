/** Reading back what was printed: comments, instructions, CDATA sections and document types. */
module XmlMarkup {
  import opened XmlText
  import opened XmlParser
  import opened XmlPrint
  import opened XmlTags

  /** A body in which the mark does not stand is skipped up to the mark behind it. */
  lemma MarkFound(pre: string, body: string, mark: string, tail: string, endch: char, rest: string)
    requires mark != [] && CloseEnd(tail, endch, rest)
    requires var s := pre + body + mark + tail;
             forall i :: |pre| <= i < |pre| + |body| ==> !MarkAt(s, i, mark, endch)
    ensures var s := pre + body + mark + tail;
            var k := FindMark(s, |pre|, mark, endch);
            k == |pre| + |body| < |s| && AfterMark(s, k, mark) == rest && s[|pre|..k] == body
  {
    hide FindMark;
    var s := pre + body + mark + tail;
    var at := |pre| + |body|;
    assert s[at..at + |mark|] == mark && (tail != [] ==> s[at + |mark|] == '>' && s[at + |mark| + 1..] == rest);
    assert MarkAt(s, at, mark, endch);
  }

  /** A comment as printed has no "--" before its end. */
  lemma {:induction false} CommentDashes(s: string)
    ensures var c := CommentText(s);
            && (forall i :: 0 <= i < |c| - 1 ==> !(c[i] == '-' && c[i + 1] == '-'))
            && (c != [] ==> c[|c| - 1] != '-' && c[0] == s[0] && s != [])
  {
    if s != [] {
      CommentDashes(s[1..]);
      var c, d := CommentText(s), CommentText(s[1..]);
      var n := |c| - |d|;
      assert c[n..] == d;
      forall i | 0 <= i < |c| - 1 ensures !(c[i] == '-' && c[i + 1] == '-') {
        if i >= n {
          assert c[i] == d[i - n] && c[i + 1] == d[i + 1 - n];
        }
      }
      if d == [] && |s| > 1 {
        assert false;
      }
    }
  }

  lemma CommentRead(s: string, tail: string, endch: char, rest: string, top: bool)
    requires CloseEnd(tail, endch, rest)
    ensures ParseExclamation("--" + CommentText(s) + "--" + tail, endch, top) == Skipped(rest)
  {
    hide CommentText;
    CommentDashes(s);
    var c := CommentText(s);
    var t := "--" + c + "--" + tail;
    forall i | 2 <= i < 2 + |c| ensures !MarkAt(t, i, "--", endch) {
      assert t[i] == c[i - 2] && t[i + 1] == if i + 1 < 2 + |c| then c[i - 1] else '-';
      assert t[i..i + 2] == [t[i], t[i + 1]];
    }
    MarkFound("--", c, "--", tail, endch, rest);
  }

  predicate NoClose(s: string) {
    forall i :: 0 <= i < |s| - 1 ==> !(s[i] == '?' && s[i + 1] == '>')
  }

  lemma {:induction false} PiNoClose(s: string)
    ensures NoClose(PiText(s)) && (PiText(s) == [] <==> s == [])
    ensures s != [] ==> PiText(s)[0] == s[0]
    decreases |s|
  {
    if s != [] {
      var two := "?>" <= s;
      var rest := if two then s[2..] else s[1..];
      PiNoClose(rest);
      var c, d := PiText(s), PiText(rest);
      var n := |c| - |d|;
      assert c[n..] == d;
      forall i | 0 <= i < |c| - 1 ensures !(c[i] == '?' && c[i + 1] == '>') {
        if i >= n {
          assert c[i] == d[i - n] && c[i + 1] == d[i + 1 - n];
        } else if !two {
          assert c[1] == d[0] == s[1] && c[0] == s[0];
        }
      }
    }
  }

  /** Names and printed attributes hold no '>'. */
  lemma {:induction false} AttributesClosed(attrs: seq<Attribute>)
    requires GoodAttributes(attrs)
    ensures '>' !in PrintAttributes(attrs) && '\0' !in PrintAttributes(attrs)
    ensures PrintAttributes(attrs) != [] ==> PrintAttributes(attrs)[0] == ' '
  {
    if attrs != [] {
      hide IsName, Shown, Escape;
      var a := attrs[0];
      ShownName(a.name);
      ShownPlain(a.name);
      EscapeClosed(a.value, true);
      AttributesClosed(attrs[1..]);
    }
  }

  lemma ShownPlain(name: string)
    requires Nameable(name)
    ensures '>' !in Shown(name) && '\0' !in Shown(name)
  {
    ShownName(name);
  }

  lemma {:induction false} EscapeClosed(s: string, attr: bool)
    requires NoNul(s)
    ensures '>' !in Escape(s, attr) && '<' !in Escape(s, attr) && '\0' !in Escape(s, attr)
  {
    if s != [] {
      EscapeClosed(s[1..], attr);
      assert '>' !in EscapeChar(s[0], attr) && '<' !in EscapeChar(s[0], attr) && '\0' !in EscapeChar(s[0], attr);
    }
  }

  /** An instruction or declaration, after its "<?". */
  lemma QuestionRead(name: string, body: string, tail: string, endch: char, rest: string)
    requires IsName(name) && NoClose(body) && (body != [] ==> body[0] == ' ') && CloseEnd(tail, endch, rest)
    ensures ParseQuestion(name + body + "?" + tail, endch) == Skipped(rest)
  {
    hide FindMark;
    var s := name + body + "?" + tail;
    var n := |name|;
    assert s == name + (body + "?" + tail);
    NameScanned(name, body + "?" + tail);
    forall i | n <= i < n + |body| ensures !MarkAt(s, i, "?", endch) {
      InBody(name, body, tail, endch, i);
    }
    MarkFound(name, body, "?", tail, endch, rest);
  }

  lemma InBody(name: string, body: string, tail: string, endch: char, i: nat)
    requires NoClose(body) && |name| <= i < |name| + |body|
    ensures !MarkAt(name + body + "?" + tail, i, "?", endch)
  {
    var s, n := name + body + "?" + tail, |name|;
    assert s[i] == body[i - n] && s[i + 1] == if i + 1 < n + |body| then body[i + 1 - n] else '?';
    assert s[i..i + 1] == [s[i]];
  }

  // ----- CDATA

  /** No "]]>" straddles the end of a body that holds none. */
  lemma SectionInside(pre: string, s: string, tail: string, endch: char, i: nat)
    requires SectionEnd(s) == |s| && |pre| <= i < |pre| + |s|
    ensures !MarkAt(pre + s + "]]" + tail, i, "]]", endch)
  {
    var t, j := pre + s + "]]" + tail, i - |pre|;
    assert !MarkAt(s, j, "]]", '\0');
    assert t[i..i + 2] == [t[i], t[i + 1]] && t[i] == s[j];
    if j + 2 < |s| {
      assert t[i + 1] == s[j + 1] && t[i + 2] == s[j + 2] && s[j..j + 2] == [s[j], s[j + 1]];
    } else {
      assert t[i + 2] == ']';
    }
  }

  lemma SectionRead(s: string, tail: string, endch: char, rest: string, top: bool)
    requires SectionEnd(s) == |s| && CloseEnd(tail, endch, rest)
    ensures ParseExclamation("[CDATA[" + s + "]]" + tail, endch, top) == Section(Lines(s), rest)
  {
    hide Lines, MarkAt, SectionEnd, FindMark, AfterMark, ParseExclamation, CloseEnd;
    var t := "[CDATA[" + s + "]]" + tail;
    forall i | 7 <= i < 7 + |s| ensures !MarkAt(t, i, "]]", endch) {
      SectionInside("[CDATA[", s, tail, endch, i);
    }
    MarkFound("[CDATA[", s, "]]", tail, endch, rest);
    assert t[..7] == "[CDATA[";
    SectionOpens(t, endch, top);
  }

  lemma SectionOpens(t: string, endch: char, top: bool)
    requires "[CDATA[" <= t
    ensures var k := FindMark(t, 7, "]]", endch);
            k < |t| ==> ParseExclamation(t, endch, top) == Section(Lines(t[7..k]), AfterMark(t, k, "]]"))
  {
    hide Lines, AfterMark, FindMark, ParseGroup;
    assert t[0] == '[';
  }

  /** A piece of a section ends before its "]]>". */
  lemma PieceWhole(s: string)
    requires SectionEnd(s) < |s|
    ensures var k := SectionEnd(s); SectionEnd(s[..k + 2]) == k + 2
  {
    var k := SectionEnd(s);
    var p := s[..k + 2];
    forall i | 0 <= i < k + 2 ensures !MarkAt(p, i, "]]", '\0') {
      if i + 2 < k + 2 {
        assert !MarkAt(s, i, "]]", '\0');
        assert p[i..i + 2] == s[i..i + 2] && p[i + 2] == s[i + 2];
      }
    }
  }

  /** One section of the printed text. */
  lemma OneSection(s: string, tail: string, endch: char, rest: string, st: Stack)
    requires SectionEnd(s) == |s| && NoNul(s) && CloseEnd(tail, endch, rest)
    ensures ParseLoop("<![CDATA[" + s + "]]" + tail, endch, st, false) ==
            ParseLoop(rest, endch, Push(st, Cdata(Lines(s))), false)
  {
    hide ParseLoop, ParseTag, SectionEnd, Lines, UpToNul, Push;
    var t := "[CDATA[" + s + "]]" + tail;
    SectionRead(s, tail, endch, rest, |st| == 1);
    assert "<![CDATA[" + s + "]]" + tail == "<!" + t;
    LinesNoNul(s);
    CutNoNul(Lines(s));
    MarkupOpens(t, '!', endch, st);
  }

  /** The loop at "<?" or "<!". */
  lemma MarkupOpens(t: string, c: char, endch: char, st: Stack)
    requires c == '?' || c == '!'
    ensures var m := if c == '?' then ParseQuestion(t, endch) else ParseExclamation(t, endch, |st| == 1);
            && (m.Skipped? ==> ParseLoop(['<', c] + t, endch, st, false) == ParseLoop(m.rest, endch, st, false))
            && (m.Section? ==>
                  ParseLoop(['<', c] + t, endch, st, false) ==
                  ParseLoop(m.rest, endch, Push(st, Cdata(UpToNul(m.value))), false))
  {
    hide ParseLoop, ParseQuestion, ParseExclamation, Push, UpToNul;
    var s := ['<', c] + t;
    assert s[1..] == [c] + t && s[1..][1..] == t;
    LoopOpens(s, endch, st);
  }

  lemma {:induction false} CdataRead(s: string, tail: string, endch: char, rest: string, st: Stack)
    requires NoNul(s) && CloseEnd(tail, endch, rest)
    ensures ParseLoop(CdataText(s) + tail, endch, st, false) == ParseLoop(rest, endch, PushAll(st, CdataNodes(s)), false)
    decreases |s|
  {
    hide ParseLoop, SectionEnd, Lines, Push, PushAll;
    var k := SectionEnd(s);
    if k == |s| {
      assert CdataText(s) + tail == "<![CDATA[" + s + "]]" + tail;
      OneSection(s, tail, endch, rest, st);
      PushAllJoin(st, CdataNodes(s), []);
    } else {
      var piece, more := s[..k + 2], s[k + 2..];
      var next := CdataText(more) + tail;
      assert CdataText(s) + tail == "<![CDATA[" + piece + "]]" + (['>'] + next);
      PieceWhole(s);
      OneSection(piece, ['>'] + next, endch, next, st);
      CdataRead(more, tail, endch, rest, Push(st, Cdata(Lines(piece))));
      PushAllJoin(st, [Cdata(Lines(piece))], CdataNodes(more));
    }
  }

  // ----- document types

  /** What is skipped before the last character does not depend on that character. */
  predicate SkippedAlike(m: Markup, m': Markup, x: string, tail: string) {
    m.Skipped? && m.rest != [] && |m.rest| - 1 <= |x| && m.rest == x[|x| + 1 - |m.rest|..] + ['>']
    && m' == Skipped(x[|x| + 1 - |m.rest|..] + tail)
  }

  lemma AlikeShift(m: Markup, m': Markup, x: string, n: nat, tail: string)
    requires n <= |x| && SkippedAlike(m, m', x[n..], tail)
    ensures SkippedAlike(m, m', x, tail)
  {
    var k := |x| - n + 1 - |m.rest|;
    assert x[n..][k..] == x[n + k..];
  }

  lemma AlikeHere(x: string, tail: string)
    ensures SkippedAlike(Skipped(x + ['>']), Skipped(x + tail), x, tail)
  {
    assert x[0..] == x;
  }

  lemma PrefixSame(p: string, x: string, tail: string)
    requires |p| <= |x|
    ensures p <= x + ['>'] <==> p <= x + tail
    ensures (x + ['>'])[|p|..] == x[|p|..] + ['>'] && (x + tail)[|p|..] == x[|p|..] + tail
  {
    assert (x + ['>'])[..|p|] == x[..|p|] == (x + tail)[..|p|];
  }

  lemma IgnoreShort(s: string, depth: nat)
    requires |s| < 3
    ensures ParseIgnore(s, depth).BadMarkup?
  {
  }

  lemma IgnoreNearEnd(s: string, depth: nat)
    requires |s| <= 3 && ParseIgnore(s, depth).Skipped?
    ensures ParseIgnore(s, depth).rest == []
  {
    if s != [] {
      IgnoreShort(s[1..], depth);
      IgnoreShort([], depth - if depth > 0 then 1 else 0);
      IgnoreShort([], depth + 1);
    }
  }

  lemma {:induction false} IgnoreTail(x: string, depth: nat, tail: string)
    requires ParseIgnore(x + ['>'], depth).Skipped? && ParseIgnore(x + ['>'], depth).rest != []
    ensures SkippedAlike(ParseIgnore(x + ['>'], depth), ParseIgnore(x + tail, depth), x, tail)
    decreases |x|
  {
    hide ParseIgnore, SkippedAlike;
    var u, t := x + ['>'], x + tail;
    IgnoreCases(u, depth);
    if |x| < 3 {
      IgnoreNearEnd(u, depth);
    } else {
      IgnoreCases(t, depth);
      PrefixSame("<![", x, tail);
      PrefixSame("]]>", x, tail);
      PrefixSame([x[0]], x, tail);
      if "<![" <= u {
        IgnoreTail(x[3..], depth + 1, tail);
        AlikeShift(ParseIgnore(u, depth), ParseIgnore(t, depth), x, 3, tail);
      } else if "]]>" <= u {
        if depth > 0 {
          IgnoreTail(x[3..], depth - 1, tail);
        } else {
          AlikeHere(x[3..], tail);
        }
        AlikeShift(ParseIgnore(u, depth), ParseIgnore(t, depth), x, 3, tail);
      } else {
        IgnoreTail(x[1..], depth, tail);
        AlikeShift(ParseIgnore(u, depth), ParseIgnore(t, depth), x, 1, tail);
      }
    }
  }

  lemma MarkSame(x: string, from: nat, mark: string, tail: string)
    requires mark != [] && from <= |x|
    requires FindMark(x + ['>'], from, mark, '\0') + |mark| < |x|
    ensures FindMark(x + tail, from, mark, '\0') == FindMark(x + ['>'], from, mark, '\0')
  {
    hide FindMark;
    var u, t := x + ['>'], x + tail;
    var k := FindMark(u, from, mark, '\0');
    forall i | from <= i <= k ensures MarkAt(t, i, mark, '\0') <==> MarkAt(u, i, mark, '\0') {
      assert t[i..i + |mark|] == x[i..i + |mark|] == u[i..i + |mark|];
    }
  }

  /** Skipping up to a mark inside x. */
  lemma MarkTail(x: string, from: nat, mark: string, tail: string)
    requires mark != [] && from <= |x| && FindMark(x + ['>'], from, mark, '\0') + |mark| < |x|
    ensures var k := FindMark(x + ['>'], from, mark, '\0');
            && FindMark(x + tail, from, mark, '\0') == k
            && SkippedAlike(Skipped((x + ['>'])[k + |mark| + 1..]), Skipped((x + tail)[k + |mark| + 1..]), x, tail)
  {
    hide FindMark, MarkAt;
    MarkSame(x, from, mark, tail);
    PrefixSame(x[..FindMark(x + ['>'], from, mark, '\0') + |mark| + 1], x, tail);
  }

  lemma QuoteTail(x: string, tail: string)
    requires x != [] && IndexOf((x + ['>'])[1..], x[0]) < |x| - 1
    ensures var k := IndexOf((x + ['>'])[1..], x[0]);
            && IndexOf((x + tail)[1..], x[0]) == k
            && SkippedAlike(Skipped((x + ['>'])[k + 2..]), Skipped((x + tail)[k + 2..]), x, tail)
  {
    hide IndexOf;
    var u, t := (x + ['>'])[1..], (x + tail)[1..];
    assert forall i :: 0 <= i < |x| - 1 ==> u[i] == x[i + 1] == t[i];
    PrefixSame(x[..IndexOf(u, x[0]) + 2], x, tail);
  }

  lemma PrimitiveTail(x: string, tail: string)
    requires x != [] && ParsePrimitive(x + ['>']).Skipped? && ParsePrimitive(x + ['>']).rest != []
    ensures SkippedAlike(ParsePrimitive(x + ['>']), ParsePrimitive(x + tail), x, tail)
  {
    hide FindMark, IndexOf, SkippedAlike;
    var u, t := x + ['>'], x + tail;
    assert u[0] == t[0] == x[0];
    if x[0] == '"' || x[0] == '\'' {
      QuoteTail(x, tail);
    } else if |x| >= 4 {
      PrefixSame("<?", x, tail);
      PrefixSame("<!--", x, tail);
      if "<?" <= u {
        MarkTail(x, 2, "?", tail);
      } else {
        MarkTail(x, 4, "--", tail);
      }
    }
  }

  lemma GroupUnfold(s: string, depth: nat, endch: char)
    requires s != []
    ensures "<!" <= s && !("<!-" <= s) && !("<![" <= s) ==> ParseGroup(s, depth, endch) == ParseGroup(s[2..], depth + 1, endch)
    ensures "<!" <= s && !("<!-" <= s) && "<![" <= s ==>
              ParseGroup(s, depth, endch) == Grouped(ParseIgnore(s[3..], 0), depth, endch)
    ensures !("<!" <= s && !("<!-" <= s)) && (s[0] == '<' || s[0] == '"' || s[0] == '\'') ==>
              ParseGroup(s, depth, endch) == Grouped(ParsePrimitive(s), depth, endch)
    ensures s[0] == '>' ==>
              ParseGroup(s, depth, endch) == if depth == 0 then Skipped(s[1..]) else ParseGroup(s[1..], depth - 1, endch)
    ensures s[0] !in "<>\"'" ==> ParseGroup(s, depth, endch) == ParseGroup(s[1..], depth, endch)
  {
    hide ParseGroup, ParseIgnore, ParsePrimitive;
    GroupCases(s, depth, endch);
    assert "<!" <= s ==> s[0] == '<';
  }

  /** Going on after a nested piece. */
  function Grouped(m: Markup, depth: nat, endch: char): Markup {
    match m case Skipped(rest) => ParseGroup(rest, depth, endch) case bad => bad
  }

  /** Going on after a piece of v is the same whether '>' or tail follows v. */
  lemma {:induction false} PieceRead(m: Markup, m': Markup, v: string, depth: nat, tail: string, endch: char, rest: string)
    requires Grouped(m, depth, '\0') == Skipped([]) && CloseEnd(tail, endch, rest)
    requires m.Skipped? ==> |m.rest| <= |v| && (m.rest != [] ==> SkippedAlike(m, m', v, tail))
    ensures Grouped(m', depth, endch) == Skipped(rest)
    decreases |v|, 0
  {
    hide ParseGroup;
    GroupNothing(depth, '\0');
    var x := v[|v| + 1 - |m.rest|..];
    GroupRead(x, depth, tail, endch, rest);
  }

  lemma {:induction false} OpenRead(v: string, depth: nat, tail: string, endch: char, rest: string)
    requires v != [] && v[0] == '<'
    requires ParseGroup(v + ['>'], depth, '\0') == Skipped([]) && CloseEnd(tail, endch, rest)
    ensures ParseGroup(v + tail, depth, endch) == Skipped(rest)
    decreases |v|, 1
  {
    hide ParseGroup, ParseIgnore, ParsePrimitive, SkippedAlike, Grouped;
    var u, t := v + ['>'], v + tail;
    GroupUnfold(u, depth, '\0');
    GroupUnfold(t, depth, endch);
    if |v| == 1 {
      assert u == ['<', '>'] && "<!"[1] == '!';
      PrimitiveShort(u);
      GroupedBad(ParsePrimitive(u), depth, '\0');
    } else {
      PrefixSame("<!", v, tail);
      if |v| == 2 && "<!" <= u {
        assert u[2..] == ['>'];
        GroupUnfold(u[2..], depth + 1, '\0');
        GroupNothing(depth, '\0');
      } else {
        if |v| > 2 {
          PrefixSame("<!-", v, tail);
          PrefixSame("<![", v, tail);
        }
        if "<!" <= u && !("<!-" <= u) && !("<![" <= u) {
          GroupRead(v[2..], depth + 1, tail, endch, rest);
        } else if "<!" <= u && !("<!-" <= u) {
          var m, m' := ParseIgnore(u[3..], 0), ParseIgnore(t[3..], 0);
          if m.Skipped? && m.rest != [] {
            IgnoreTail(v[3..], 0, tail);
            AlikeShift(m, m', v, 3, tail);
          }
          PieceRead(m, m', v, depth, tail, endch, rest);
        } else {
          if ParsePrimitive(u).Skipped? && ParsePrimitive(u).rest != [] {
            PrimitiveTail(v, tail);
          }
          PieceRead(ParsePrimitive(u), ParsePrimitive(t), v, depth, tail, endch, rest);
        }
      }
    }
  }

  lemma PrimitiveShort(s: string)
    requires s == ['<', '>']
    ensures ParsePrimitive(s).BadMarkup?
  {
    assert s[1] != '?' && s[1] != '!';
  }

  lemma GroupedBad(m: Markup, depth: nat, endch: char)
    requires m.BadMarkup?
    ensures Grouped(m, depth, endch) == m
  {
  }

  /** A balanced document type is skipped up to its '>', wherever it is printed. */
  lemma {:induction false} GroupRead(v: string, depth: nat, tail: string, endch: char, rest: string)
    requires ParseGroup(v + ['>'], depth, '\0') == Skipped([]) && CloseEnd(tail, endch, rest)
    ensures ParseGroup(v + tail, depth, endch) == Skipped(rest)
    decreases |v|, 2
  {
    hide ParseGroup, ParseIgnore, ParsePrimitive, SkippedAlike, Grouped;
    var u, t := v + ['>'], v + tail;
    GroupUnfold(u, depth, '\0');
    if v == [] {
      assert u == ['>'] && t == tail;
      GroupNothing(depth, endch);
      GroupNothing(depth - if depth > 0 then 1 else 0, '\0');
      if tail != [] {
        GroupUnfold(t, depth, endch);
      }
    } else {
      GroupUnfold(t, depth, endch);
      PrefixSame(v[..1], v, tail);
      assert u[0] == t[0] == v[0];
      if v[0] == '<' {
        OpenRead(v, depth, tail, endch, rest);
      } else if v[0] == '"' || v[0] == '\'' {
        assert !("<!" <= u) && !("<!" <= t);
        if ParsePrimitive(u).Skipped? && ParsePrimitive(u).rest != [] {
          PrimitiveTail(v, tail);
        }
        PieceRead(ParsePrimitive(u), ParsePrimitive(t), v, depth, tail, endch, rest);
      } else if v[0] == '>' {
        GroupRead(v[1..], depth - 1, tail, endch, rest);
      } else {
        GroupRead(v[1..], depth, tail, endch, rest);
      }
    }
  }

  lemma DoctypeRead(s: string, tail: string, endch: char, rest: string)
    requires Balanced(s) && CloseEnd(tail, endch, rest)
    ensures ParseExclamation("DOCTYPE" + Spaced(s) + tail, endch, true) == Skipped(rest)
  {
    hide ParseGroup, CloseEnd, Spaced;
    GroupRead(Spaced(s), 0, tail, endch, rest);
    var t := "DOCTYPE" + Spaced(s) + tail;
    assert t == "DOCTYPE" + (Spaced(s) + tail);
    assert t[..6] == "DOCTYP" && t[6] == 'E' && t[0] == 'D';
    LettersSkipped("DOCTYPE", Spaced(s) + tail, endch);
  }

  lemma {:induction false} LettersSkipped(word: string, t: string, endch: char)
    requires forall i :: 0 <= i < |word| ==> word[i] !in "<>\"'"
    ensures ParseGroup(word + t, 0, endch) == ParseGroup(t, 0, endch)
  {
    hide ParseGroup;
    if word == [] {
      assert word + t == t;
    } else {
      assert (word + t)[0] == word[0] && (word + t)[1..] == word[1..] + t;
      GroupUnfold(word + t, 0, endch);
      LettersSkipped(word[1..], t, endch);
    }
  }
}
