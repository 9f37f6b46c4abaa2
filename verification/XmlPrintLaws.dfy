/** What printing does to each kind of string, without reference to how: which strings are printed as they are, which
    characters the output can hold, and what can be read off it again. */
module XmlPrintLaws {
  import opened XmlText
  import opened XmlParser
  import opened XmlPrint

  // ----- escaped text

  /** Characters that are printed as they are. */
  predicate Harmless(c: char, attr: bool) {
    && c !in "&<>" && (attr ==> c != '"')
    && (c as int >= 32 || c == '\t' || (!attr && (c == '\n' || c == '\r')))
  }

  lemma HarmlessIs(c: char, attr: bool)
    ensures Harmless(c, attr) <==> EscapeChar(c, attr) == [c]
    ensures !Harmless(c, attr) ==> |EscapeChar(c, attr)| >= 4 && EscapeChar(c, attr)[0] == '&'
    ensures forall i :: 0 <= i < |EscapeChar(c, attr)| ==> Harmless(EscapeChar(c, attr)[i], attr) || EscapeChar(c, attr)[i] == '&'
  {
  }

  lemma {:induction false} EscapeLength(s: string, attr: bool)
    ensures |Escape(s, attr)| >= |s|
  {
    hide EscapeChar, Harmless;
    if s != [] {
      EscapeLength(s[1..], attr);
      HarmlessIs(s[0], attr);
    }
  }

  /** Text is printed as it is exactly when all its characters are harmless. */
  lemma {:induction false} EscapeIdentity(s: string, attr: bool)
    ensures Escape(s, attr) == s <==> forall i :: 0 <= i < |s| ==> Harmless(s[i], attr)
  {
    hide EscapeChar, Harmless;
    if s != [] {
      var t := s[1..];
      EscapeIdentity(t, attr);
      EscapeLength(t, attr);
      HarmlessIs(s[0], attr);
      assert s == [s[0]] + t;
      assert (forall i :: 0 <= i < |s| ==> Harmless(s[i], attr)) <==>
             Harmless(s[0], attr) && (forall i :: 0 <= i < |t| ==> Harmless(t[i], attr)) by {
        assert forall i :: 0 <= i < |t| ==> t[i] == s[i + 1];
        assert forall i :: 1 <= i < |s| ==> s[i] == t[i - 1];
      }
      if Harmless(s[0], attr) {
        assert Escape(s, attr)[1..] == Escape(t, attr);
      }
    }
  }

  /** Printed text holds harmless characters and ampersands only. */
  lemma {:induction false} EscapeHolds(s: string, attr: bool, i: nat)
    requires i < |Escape(s, attr)|
    ensures Harmless(Escape(s, attr)[i], attr) || Escape(s, attr)[i] == '&'
  {
    hide EscapeChar, Harmless;
    var head := EscapeChar(s[0], attr);
    HarmlessIs(s[0], attr);
    if i >= |head| {
      EscapeHolds(s[1..], attr, i - |head|);
    }
  }

  // ----- comments

  /** Drop the space after every dash. */
  function Closed(t: string): string
    decreases |t|
  {
    if t == [] then []
    else if t[0] == '-' && |t| > 1 && t[1] == ' ' then ['-'] + Closed(t[2..])
    else [t[0]] + Closed(t[1..])
  }

  /** A comment is printed as it is exactly when it has no double dash and no dash at its end. */
  lemma {:induction false} CommentIdentity(s: string)
    ensures CommentText(s) == s <==> forall i :: 0 <= i < |s| && s[i] == '-' ==> i + 1 < |s| && s[i + 1] != '-'
  {
    if s != [] {
      var t := s[1..];
      CommentIdentity(t);
      CommentLength(t);
      assert s == [s[0]] + t;
      assert forall i :: 0 <= i < |t| ==> t[i] == s[i + 1];
      if CommentText(s) == s {
        assert CommentText(s)[1..] == CommentText(t);
        forall i | 0 <= i < |s| && s[i] == '-' ensures i + 1 < |s| && s[i + 1] != '-' {
          if i > 0 {
            assert t[i - 1] == '-';
          }
        }
      }
      if forall i :: 0 <= i < |s| && s[i] == '-' ==> i + 1 < |s| && s[i + 1] != '-' {
        forall i | 0 <= i < |t| && t[i] == '-' ensures i + 1 < |t| && t[i + 1] != '-' {
          assert s[i + 1] == '-';
        }
      }
    }
  }

  lemma {:induction false} CommentLength(s: string)
    ensures |CommentText(s)| >= |s|
  {
    if s != [] {
      CommentLength(s[1..]);
    }
  }

  lemma CommentStarts(s: string)
    requires s != []
    ensures CommentText(s) != [] && CommentText(s)[0] == s[0]
  {
  }

  /** What is printed differs from the value in spaces after dashes only. */
  lemma {:induction false} CommentReadable(s: string)
    ensures Closed(CommentText(s)) == Closed(s)
    decreases |s|
  {
    if s != [] {
      var t := s[1..];
      CommentReadable(t);
      var p := CommentText(s);
      if s[0] == '-' && (t == [] || t[0] == '-') {
        assert p == "- " + CommentText(t) && p[2..] == CommentText(t);
        assert t != [] ==> s[1] == '-';
        assert Closed(s) == ['-'] + Closed(t);
      } else {
        assert p == [s[0]] + CommentText(t) && p[1..] == CommentText(t);
        if t != [] {
          CommentStarts(t);
          if s[0] == '-' && t[0] == ' ' {
            CommentReadable(s[2..]);
            assert t[1..] == s[2..] && CommentText(t) == " " + CommentText(s[2..]);
            assert p[2..] == CommentText(s[2..]);
          }
        }
      }
    }
  }

  predicate DashSpace(s: string) {
    exists i :: 0 <= i < |s| - 1 && s[i] == '-' && s[i + 1] == ' '
  }

  lemma DashSpaceStep(s: string)
    requires s != []
    ensures DashSpace(s) <==> (|s| > 1 && s[0] == '-' && s[1] == ' ') || DashSpace(s[1..])
  {
    var t := s[1..];
    if i :| 0 <= i < |s| - 1 && s[i] == '-' && s[i + 1] == ' ' {
      assert i > 0 ==> t[i - 1] == '-' && t[i] == ' ';
    }
    if i :| 0 <= i < |t| - 1 && t[i] == '-' && t[i + 1] == ' ' {
      assert s[i + 1] == '-' && s[i + 2] == ' ';
    }
  }

  lemma {:induction false} ClosedIdentity(s: string)
    ensures |Closed(s)| <= |s|
    ensures Closed(s) == s <==> !DashSpace(s)
    decreases |s|
  {
    hide DashSpace;
    if s == [] {
      NothingDashed();
    } else {
      var t := s[1..];
      ClosedIdentity(t);
      DashSpaceStep(s);
      assert s == [s[0]] + t;
      if |s| > 1 && s[0] == '-' && s[1] == ' ' {
        ClosedIdentity(s[2..]);
      } else {
        assert Closed(s)[1..] == Closed(t);
      }
    }
  }

  lemma NothingDashed()
    ensures !DashSpace([])
  {
  }

  /** So the value can be read off the output exactly when it has no dash with a space behind it. */
  lemma CommentBack(s: string)
    ensures Closed(CommentText(s)) == s <==> !DashSpace(s)
  {
    CommentReadable(s);
    ClosedIdentity(s);
  }

  // ----- instructions

  /** Drop the space inside every "? >". */
  function Tight(t: string): string
    decreases |t|
  {
    if t == [] then []
    else if "? >" <= t then "?>" + Tight(t[3..])
    else [t[0]] + Tight(t[1..])
  }

  /** The mark stands somewhere in s. */
  predicate Holds(s: string, mark: string) {
    mark <= s || (s != [] && Holds(s[1..], mark))
  }

  /** An instruction's value is printed as it is exactly when it does not hold "?>". */
  lemma {:induction false} PiIdentity(s: string)
    ensures |PiText(s)| >= |s|
    ensures PiText(s) == s <==> !Holds(s, "?>")
    decreases |s|
  {
    if s == [] {
      NothingHeld("?>");
    } else {
      PiIdentity(s[1..]);
      assert s == [s[0]] + s[1..];
      if "?>" <= s {
        PiIdentity(s[2..]);
        assert |PiText(s)| == 3 + |PiText(s[2..])|;
      } else {
        assert PiText(s)[1..] == PiText(s[1..]);
      }
    }
  }

  lemma NothingHeld(mark: string)
    requires mark != []
    ensures !Holds([], mark)
  {
  }

  lemma PiStarts(s: string)
    ensures s == [] <==> PiText(s) == []
    ensures s != [] ==> PiText(s)[0] == s[0]
  {
  }

  lemma {:induction false} PiReadable(s: string)
    ensures Tight(PiText(s)) == Tight(s)
    decreases |s|
  {
    if s != [] {
      var p, t := PiText(s), s[1..];
      PiReadable(t);
      if "?>" <= s {
        PiReadable(s[2..]);
        var more := PiText(s[2..]);
        assert p == "? >" + more && p[..3] == "? >" && p[3..] == more;
        assert s[0] == '?' && s[1] == '>' && t[0] == '>' && t[1..] == s[2..];
        NotSpaced(s);
        NotSpaced(t);
        assert Tight(s) == ['?'] + Tight(t) && Tight(t) == ['>'] + Tight(s[2..]);
        assert ['?'] + (['>'] + Tight(s[2..])) == "?>" + Tight(s[2..]);
      } else {
        assert p == [s[0]] + PiText(t) && p[1..] == PiText(t);
        SpacedAlike(s);
        if "? >" <= s {
          PiReadable(s[3..]);
          assert p == "? >" + PiText(s[3..]) && p[3..] == PiText(s[3..]) by {
            SpacedText(s);
          }
        }
      }
    }
  }

  lemma NotSpaced(s: string)
    requires s != [] && (s[0] != '?' || (|s| > 1 && s[1] != ' '))
    ensures !("? >" <= s)
  {
    assert "? >"[0] == '?' && "? >"[1] == ' ';
  }

  lemma SpacedText(s: string)
    requires "? >" <= s
    ensures PiText(s) == "? >" + PiText(s[3..])
  {
    var t := s[1..];
    assert s[0] == '?' && s[1] == ' ' && s[2] == '>';
    assert t[1..] == s[2..] && s[2..][1..] == s[3..];
    assert !("?>" <= s) && !("?>" <= t) && !("?>" <= s[2..]) by {
      assert "?>"[0] == '?' && "?>"[1] == '>';
    }
    assert PiText(s[2..]) == ['>'] + PiText(s[3..]);
    assert PiText(t) == [' '] + PiText(s[2..]);
    assert PiText(s) == ['?'] + PiText(t);
  }

  /** Printing makes no new "? >" where there was no "?>". */
  lemma SpacedAlike(s: string)
    requires s != [] && !("?>" <= s)
    ensures "? >" <= PiText(s) <==> "? >" <= s
  {
    if "? >" <= s {
      SpacedText(s);
    }
    if "? >" <= PiText(s) {
      var p, t := PiText(s), s[1..];
      assert p[0] == '?' && p[1] == ' ' && p[2] == '>';
      assert p == [s[0]] + PiText(t) && PiText(t)[0] == ' ';
      PiStarts(t);
      assert !("?>" <= t) by {
        assert "?>"[0] == '?';
      }
      assert PiText(t) == [' '] + PiText(t[1..]) && PiText(t[1..])[0] == '>';
      PiStarts(t[1..]);
      assert s[1] == ' ' && s[2] == '>' && s[..3] == "? >";
    }
  }

  lemma {:induction false} TightIdentity(s: string)
    ensures |Tight(s)| <= |s|
    ensures Tight(s) == s <==> !Holds(s, "? >")
    decreases |s|
  {
    if s == [] {
      NothingHeld("? >");
    } else {
      TightIdentity(s[1..]);
      assert s == [s[0]] + s[1..];
      if "? >" <= s {
        TightIdentity(s[3..]);
      } else {
        assert Tight(s)[1..] == Tight(s[1..]);
      }
    }
  }

  /** The value can be read off the output exactly when it does not hold "? >". */
  lemma PiBack(s: string)
    ensures Tight(PiText(s)) == s <==> !Holds(s, "? >")
  {
    hide Holds;
    PiReadable(s);
    TightIdentity(s);
  }

  // ----- CDATA

  function JoinedSections(ts: seq<Tree>): string {
    if ts == [] then [] else (if ts[0].Cdata? then ts[0].s else []) + JoinedSections(ts[1..])
  }

  /** The pieces a section is cut into hold its text, in order. */
  lemma {:induction false} SectionsJoined(s: string)
    ensures JoinedSections(CdataNodes(s)) == Lines(s)
    decreases |s|
  {
    hide SectionEnd, Lines;
    var k := SectionEnd(s);
    if k == |s| {
      assert [Cdata(Lines(s))][1..] == [];
    } else {
      SectionsJoined(s[k + 2..]);
      var ts := CdataNodes(s);
      assert ts[1..] == CdataNodes(s[k + 2..]);
      SectionBracketed(s);
      LinesJoin(s[..k + 2], s[k + 2..]);
      assert s == s[..k + 2] + s[k + 2..];
    }
  }

  lemma SectionBracketed(s: string)
    requires SectionEnd(s) < |s|
    ensures s[SectionEnd(s) + 1] == ']'
  {
    hide FindMark;
    var n := SectionEnd(s);
    assert s[n..n + 2][1] == s[n + 1];
  }

  lemma {:induction false} LinesJoin(a: string, b: string)
    requires a == [] || a[|a| - 1] != '\r'
    ensures Lines(a + b) == Lines(a) + Lines(b)
    decreases |a|
  {
    hide Lines;
    if a == [] {
      assert a + b == b;
      LinesNone();
    } else {
      var n := if a[0] == '\r' && |a| > 1 && a[1] == '\n' then 2 else 1;
      var c := [if a[0] == '\r' then '\n' else a[0]];
      LinesHead(a);
      LinesHead(a + b);
      assert (a + b)[0] == a[0] && (|a| > 1 ==> (a + b)[1] == a[1]) && (a + b)[n..] == a[n..] + b;
      LinesJoin(a[n..], b);
      assert c + (Lines(a[n..]) + Lines(b)) == (c + Lines(a[n..])) + Lines(b);
    }
  }

  lemma LinesNone()
    ensures Lines([]) == []
  {
  }
}
