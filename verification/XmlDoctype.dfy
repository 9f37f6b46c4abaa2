/** Document types by their parts: quoted strings, instructions, comments, ignored sections and nested declarations. */
module XmlDoctype {
  import opened XmlText
  import opened XmlParser
  import opened XmlPrint
  import opened XmlTags
  import opened XmlMarkup
  import opened XmlPrintLaws

  /** The inside of an ignored section: text, and further sections. */
  datatype Ignored = Text(s: string) | Nested(s: string, inner: Ignored, rest: Ignored)

  function ShowIgnored(b: Ignored): string {
    match b
    case Text(s) => s
    case Nested(s, inner, rest) => s + ("<![" + (ShowIgnored(inner) + ("]]>" + ShowIgnored(rest))))
  }

  predicate GoodIgnored(b: Ignored) {
    match b
    case Text(s) => !Holds(s, "<![") && !Holds(s, "]]>")
    case Nested(s, inner, rest) => !Holds(s, "<![") && !Holds(s, "]]>") && GoodIgnored(inner) && GoodIgnored(rest)
  }

  datatype Part =
    | Plain(c: char) | Quoted(q: char, s: string) | Instruction(s: string) | Remark(s: string) | Section(b: Ignored)
    | Declared(parts: seq<Part>)

  function Show(p: Part): string
    decreases p, 0
  {
    match p
    case Plain(c) => [c]
    case Quoted(q, s) => [q] + s + [q]
    case Instruction(s) => "<?" + s + "?>"
    case Remark(s) => "<!--" + s + "-->"
    case Section(b) => "<![" + (ShowIgnored(b) + "]]>")
    case Declared(parts) => "<!" + (ShowAll(parts) + ">")
  }

  function ShowAll(ps: seq<Part>): string
    decreases ps, 1
  {
    if ps == [] then [] else Show(ps[0]) + ShowAll(ps[1..])
  }

  predicate Good(p: Part)
    decreases p, 0
  {
    match p
    case Plain(c) => c !in "<>\"'"
    case Quoted(q, s) => (q == '"' || q == '\'') && q !in s
    case Instruction(s) => !Holds(s, "?>")
    case Remark(s) => !Holds(s, "-->")
    case Section(b) => GoodIgnored(b)
    case Declared(parts) => AllGood(parts) && !("-" <= ShowAll(parts)) && !("[" <= ShowAll(parts))
  }

  predicate AllGood(ps: seq<Part>)
    decreases ps, 1
  {
    forall i :: 0 <= i < |ps| ==> Good(ps[i])
  }

  // ----- ignored sections

  lemma {:induction false} RunIgnored(s: string, t: string, depth: nat)
    requires !Holds(s, "<![") && !Holds(s, "]]>") && ("<![" <= t || "]]>" <= t)
    ensures ParseIgnore(s + t, depth) == ParseIgnore(t, depth)
    decreases |s|
  {
    hide ParseIgnore;
    if s == [] {
      assert s + t == t;
    } else {
      RunIgnored(s[1..], t, depth);
      var u := s + t;
      assert u[1..] == s[1..] + t;
      NoneAcross(s, t);
      IgnoreCases(u, depth);
    }
  }

  /** A mark does not begin inside s and end in the mark behind it. */
  lemma NoneAcross(s: string, t: string)
    requires s != [] && !Holds(s, "<![") && !Holds(s, "]]>") && ("<![" <= t || "]]>" <= t)
    ensures !("<![" <= s + t) && !("]]>" <= s + t)
  {
    var u := s + t;
    assert t[0] == '<' || t[0] == ']';
    assert "<![" <= t ==> t[1] == '!';
    assert "]]>" <= t ==> t[1] == ']';
    if |s| >= 3 {
      assert u[..3] == s[..3];
    } else if |s| == 2 {
      assert u[2] == t[0];
    } else {
      assert u[1] == t[0] && u[2] == t[1];
    }
  }

  lemma {:induction false} IgnoredShown(b: Ignored, t: string, depth: nat)
    requires GoodIgnored(b) && "]]>" <= t
    ensures ParseIgnore(ShowIgnored(b) + t, depth) == ParseIgnore(t, depth)
    decreases b
  {
    hide ParseIgnore, Holds;
    match b
    case Text(s) => RunIgnored(s, t, depth);
    case Nested(s, inner, rest) =>
      var after := ShowIgnored(rest) + t;
      var close := "]]>" + after;
      var open := "<![" + (ShowIgnored(inner) + close);
      assert ShowIgnored(b) + t == s + open;
      RunIgnored(s, open, depth);
      IgnoreCases(open, depth);
      assert open[3..] == ShowIgnored(inner) + close;
      IgnoredShown(inner, close, depth + 1);
      IgnoreCases(close, depth + 1);
      assert close[3..] == after && close[0] == ']';
      assert !("<![" <= close) by {
        assert "<!["[0] == '<';
      }
      IgnoredShown(rest, t, depth);
  }

  // ----- the other parts

  lemma QuotedShown(q: char, s: string, t: string)
    requires (q == '"' || q == '\'') && q !in s
    ensures ParsePrimitive([q] + s + [q] + t) == Skipped(t)
  {
    hide IndexOf, FindMark;
    var u := [q] + s + [q] + t;
    assert u[1..] == s + ([q] + t) && u[0] == q;
    var k := IndexOf(u[1..], q);
    assert forall i :: 0 <= i < |s| ==> u[1..][i] == s[i];
    assert u[1..][|s|] == q;
    assert k == |s| && u[k + 2..] == t;
  }

  lemma {:induction false} NotHeldAt(s: string, i: nat, m: string)
    requires !Holds(s, m) && i + |m| <= |s|
    ensures s[i..i + |m|] != m
    decreases i
  {
    if i == 0 {
      assert s[0..|m|] == s[..|m|];
    } else {
      NotHeldAt(s[1..], i - 1, m);
      assert s[1..][i - 1..i - 1 + |m|] == s[i..i + |m|];
    }
  }

  lemma InstructionShown(s: string, t: string)
    requires !Holds(s, "?>")
    ensures ParsePrimitive("<?" + s + "?>" + t) == Skipped(t)
  {
    hide FindMark, Holds;
    var u := "<?" + s + "?" + (['>'] + t);
    assert "<?" + s + "?>" + t == u;
    forall i | 2 <= i < 2 + |s| ensures !MarkAt(u, i, "?", '\0') {
      NoQuestion(s, t, i - 2);
    }
    MarkFound("<?", s, "?", ['>'] + t, '\0', t);
    assert u[..2] == "<?";
  }

  lemma NoQuestion(s: string, t: string, j: nat)
    requires !Holds(s, "?>") && j < |s|
    ensures !MarkAt("<?" + s + "?" + (['>'] + t), j + 2, "?", '\0')
  {
    hide Holds;
    var u := "<?" + s + "?" + (['>'] + t);
    assert u[j + 2] == s[j] && u[j + 3] == if j + 1 < |s| then s[j + 1] else '?';
    assert u[j + 2..j + 3] == [s[j]];
    if j + 1 < |s| {
      NotHeldAt(s, j, "?>");
      assert s[j..j + 2] == [s[j], s[j + 1]];
    }
  }

  lemma RemarkShown(s: string, t: string)
    requires !Holds(s, "-->")
    ensures ParsePrimitive("<!--" + s + "-->" + t) == Skipped(t)
  {
    hide FindMark, Holds;
    var u := "<!--" + s + "--" + (['>'] + t);
    assert "<!--" + s + "-->" + t == u;
    forall i | 4 <= i < 4 + |s| ensures !MarkAt(u, i, "--", '\0') {
      NoDashes(s, t, i - 4);
    }
    MarkFound("<!--", s, "--", ['>'] + t, '\0', t);
    assert u[..4] == "<!--" && u[1] == '!';
    assert !("<?" <= u) by {
      assert "<?"[1] == '?';
    }
  }

  lemma NoDashes(s: string, t: string, j: nat)
    requires !Holds(s, "-->") && j < |s|
    ensures !MarkAt("<!--" + s + "--" + (['>'] + t), j + 4, "--", '\0')
  {
    hide Holds;
    var u := "<!--" + s + "--" + (['>'] + t);
    assert u[j + 4..j + 6] == [u[j + 4], u[j + 5]] && u[j + 4] == s[j];
    if j + 2 < |s| {
      NotHeldAt(s, j, "-->");
      assert u[j + 5] == s[j + 1] && u[j + 6] == s[j + 2];
      assert s[j..j + 3] == [s[j], s[j + 1], s[j + 2]];
    } else {
      assert u[j + 6] == '-';
    }
  }

  lemma SectionShown(b: Ignored, t: string)
    requires GoodIgnored(b)
    ensures ParseIgnore(ShowIgnored(b) + "]]>" + t, 0) == Skipped(t)
  {
    hide ParseIgnore;
    var close := "]]>" + t;
    assert ShowIgnored(b) + "]]>" + t == ShowIgnored(b) + close;
    IgnoredShown(b, close, 0);
    IgnoreCases(close, 0);
    assert close[0] == ']' && close[3..] == t;
    assert !("<![" <= close) by {
      assert "<!["[0] == '<';
    }
  }

  // ----- whole document types

  /** What stands behind a list of parts: the bracket of the declaration they are in. */
  lemma {:induction false} PartsShown(ps: seq<Part>, t: string, depth: nat, endch: char)
    requires AllGood(ps) && t != [] && t[0] == '>'
    ensures ParseGroup(ShowAll(ps) + t, depth, endch) == ParseGroup(t, depth, endch)
    decreases ps, 1
  {
    hide ParseGroup, Show, Good;
    if ps == [] {
      assert ShowAll(ps) + t == t;
    } else {
      var rest := ps[1..];
      assert Good(ps[0]) && AllGood(rest) by {
        forall i | 0 <= i < |rest| ensures Good(rest[i]) {
          assert rest[i] == ps[i + 1];
        }
      }
      assert ShowAll(ps) + t == Show(ps[0]) + (ShowAll(rest) + t);
      PartShown(ps[0], ShowAll(rest) + t, depth, endch);
      PartsShown(rest, t, depth, endch);
    }
  }

  lemma {:induction false} PartShown(p: Part, t: string, depth: nat, endch: char)
    requires Good(p)
    ensures ParseGroup(Show(p) + t, depth, endch) == ParseGroup(t, depth, endch)
    decreases p, 0
  {
    hide ParseGroup, ParseIgnore, ParsePrimitive, ShowAll, Holds, GoodIgnored, ShowIgnored;
    var u := Show(p) + t;
    GroupCases(u, depth, endch);
    match p {
      case Plain(c) =>
        assert u[1..] == t && u[0] == c;
        PlainStarts(u);
      case Quoted(q, s) =>
        QuotedShown(q, s, t);
        assert u == [q] + s + [q] + t;
        PlainStarts(u);
      case Instruction(s) =>
        InstructionShown(s, t);
        assert u == "<?" + s + "?>" + t && u[0] == '<' && u[1] == '?';
        PlainStarts(u);
      case Remark(s) =>
        RemarkShown(s, t);
        assert u == "<!--" + s + "-->" + t && u[..3] == "<!-" && u[..2] == "<!" && u[2] == '-';
        assert !("<![" <= u) by {
          assert "<!["[2] == '[';
        }
      case Section(b) =>
        SectionShown(b, t);
        assert u == "<![" + (ShowIgnored(b) + "]]>" + t) && u[..3] == "<![" && u[..2] == "<!" && u[2] == '[';
        assert u[3..] == ShowIgnored(b) + "]]>" + t;
        assert !("<!-" <= u) by {
          assert "<!-"[2] == '-';
        }
      case Declared(parts) =>
        DeclaredShown(parts, t, depth, endch);
    }
  }

  /** No declaration begins here. */
  lemma PlainStarts(u: string)
    requires u != [] && (u[0] != '<' || (|u| > 1 && u[1] != '!'))
    ensures !("<!" <= u) && !("<![" <= u) && !("<!-" <= u)
  {
    assert "<!"[0] == '<' && "<!"[1] == '!' && "<!["[0] == '<' && "<!["[1] == '!' && "<!-"[0] == '<' && "<!-"[1] == '!';
  }

  lemma {:induction false} DeclaredShown(parts: seq<Part>, t: string, depth: nat, endch: char)
    requires AllGood(parts) && !("-" <= ShowAll(parts)) && !("[" <= ShowAll(parts))
    ensures ParseGroup("<!" + (ShowAll(parts) + ">") + t, depth, endch) == ParseGroup(t, depth, endch)
    decreases parts, 2
  {
    hide ParseGroup, ParseIgnore, ParsePrimitive, ShowAll;
    var close := ">" + t;
    var u := "<!" + (ShowAll(parts) + ">") + t;
    assert u == "<!" + (ShowAll(parts) + close) && u[..2] == "<!" && u[2..] == ShowAll(parts) + close;
    GroupCases(u, depth, endch);
    ThirdCharacter(ShowAll(parts), close, u);
    PartsShown(parts, close, depth + 1, endch);
    GroupCases(close, depth + 1, endch);
    assert close[1..] == t;
    PlainStarts(close);
  }

  lemma ThirdCharacter(inside: string, close: string, u: string)
    requires u == "<!" + (inside + close) && close != [] && close[0] == '>' && !("-" <= inside) && !("[" <= inside)
    ensures !("<!-" <= u) && !("<![" <= u)
  {
    assert u[2] == (inside + close)[0];
    if inside != [] {
      assert u[2] == inside[0];
      assert inside[0] == '-' ==> "-" <= inside;
      assert inside[0] == '[' ==> "[" <= inside;
    }
    assert "<!-"[2] == '-' && "<!["[2] == '[';
  }

  /** A document type made of such parts is balanced: it ends at its own bracket. */
  lemma DoctypeLaw(ps: seq<Part>)
    requires AllGood(ps)
    ensures Balanced(ShowAll(ps))
  {
    hide ParseGroup, Show, Good;
    var s := ShowAll(ps);
    PartsShown(ps, ">", 0, '\0');
    GroupCases(">", 0, '\0');
    PlainStarts(">");
    assert ">"[1..] == [];
    if s == [] {
      assert Spaced(s) + ['>'] == ">";
      assert s + ">" == ">";
    } else {
      LettersSkipped(" ", s + ['>'], '\0');
      assert Spaced(s) + ['>'] == " " + (s + ['>']);
    }
  }
}
