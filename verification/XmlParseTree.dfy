/** The parser as it runs: one pass over one buffer, terminating and decoding every string where it stands. */
module XmlParseTree {
  import opened XmlText
  import opened XmlParser
  import opened XmlSegments
  import XmlInPlace

  // ----- scanning the buffer

  method ScanSymbols(buf: array<char>, s: nat, end: nat) returns (q: nat)
    requires s <= end <= buf.Length
    ensures q == s + SymbolRun(buf[s..end])
  {
    hide SymbolRun;
    q := s;
    while q < end && IsSymbol(buf[q])
      invariant s <= q <= end && forall k :: s <= k < q ==> IsSymbol(buf[k])
    {
      q := q + 1;
    }
    ghost var n := SymbolRun(buf[s..end]);
    assert forall k :: 0 <= k < end - s ==> buf[s..end][k] == buf[s + k];
  }

  lemma SkipSpaceStep(t: string)
    requires t != []
    ensures SkipSpace(t) == if IsSpace(t[0]) then SkipSpace(t[1..]) else t
  {
  }

  method SkipWhite(buf: array<char>, s: nat, end: nat) returns (q: nat)
    requires s <= end <= buf.Length
    ensures s <= q <= end && buf[q..end] == SkipSpace(buf[s..end])
  {
    hide SkipSpace;
    q := s;
    while q < end && IsSpace(buf[q])
      invariant s <= q <= end && SkipSpace(buf[q..end]) == SkipSpace(buf[s..end])
    {
      SkipSpaceStep(buf[q..end]);
      assert buf[q..end][1..] == buf[q + 1..end];
      q := q + 1;
    }
    if q < end {
      SkipSpaceStep(buf[q..end]);
    } else {
      SkipNothing();
    }
  }

  lemma SkipNothing()
    ensures SkipSpace([]) == []
  {
  }

  method ScanFor(buf: array<char>, s: nat, from: nat, end: nat, mark: string, endch: char) returns (k: nat)
    requires s <= from <= end <= buf.Length && mark != []
    ensures k == s + FindMark(buf[s..end], from - s, mark, endch)
  {
    hide FindMark, MarkAt;
    k := from;
    while k < end && !MarkAt(buf[s..end], k - s, mark, endch)
      invariant from <= k <= end && forall i :: from - s <= i < k - s ==> !MarkAt(buf[s..end], i, mark, endch)
    {
      k := k + 1;
    }
  }

  // ----- attributes

  lemma AgreeTwice(a: seq<char>, b: seq<char>, c: seq<char>, from: nat, mid: nat, to: nat)
    requires Agree(a, b, from, mid) && Agree(b, c, mid, to) && from <= mid <= to
    ensures Agree(a, c, from, to)
  {
  }

  lemma AgreeMore(a: seq<char>, b: seq<char>, from: nat, to: nat, to': nat)
    requires Agree(a, b, from, to) && to <= to'
    ensures Agree(a, b, from, to')
  {
  }

  /** Save the character at q, terminate the segment there and step over it. */
  method EndSegment(buf: array<char>, s: nat, q: nat, end: nat) returns (ch: char, next: nat)
    requires s <= q <= end < buf.Length && buf[end] == '\0' && q == s + SymbolRun(buf[s..end])
    modifies buf
    ensures ch == old(buf[q]) && next == q + 1
    ensures buf[end] == '\0' && Agree(old(buf[..]), buf[..], s, if q == end then end else q + 1)
    ensures StringAt(buf[..], s) == old(buf[s..q]) && s + |StringAt(buf[..], s)| == q
  {
    hide StringAt, UpToNul, SymbolRun;
    ghost var name := buf[s..q];
    assert NoNul(name) by {
      assert forall k :: 0 <= k < q - s ==> name[k] == buf[s..end][k];
    }
    ch := buf[q];
    buf[q] := '\0';
    next := q + 1;
    assert buf[..][s..q] == name && buf[..][q] == '\0';
    StringIs(buf[..], s, name);
    CutNoNul(name);
  }

  lemma SpaceAfter(t: string, n: nat)
    requires n < |t| && IsSpace(t[n])
    ensures SkipSpace(t[n..]) == SkipSpace(t[n + 1..])
  {
    assert t[n..][1..] == t[n + 1..];
  }

  /** The equals sign after a name: where the value's quote stands, if all is well. */
  method FindQuote(buf: array<char>, ch0: char, p0: nat, end: nat, ghost t: string) returns (ok: bool, p: nat)
    requires 0 < p0 <= end + 1 && end < buf.Length && buf[end] == '\0'
    requires if p0 == end + 1 then t == [] && ch0 == '\0' else t == [ch0] + buf[p0..end]
    ensures var sep := if t != [] && IsSpace(t[0]) then SkipSpace(t) else t;
            if sep == [] || sep[0] != '=' then !ok
            else var q := SkipSpace(sep[1..]);
              ok == !(q == [] || !(q[0] == '"' || q[0] == '\''))
              && (ok ==> p0 <= p < end && q == buf[p..end])
  {
    hide SkipSpace;
    var ch := ch0;
    p := p0;
    if IsSpace(ch) {
      SpaceAfter(t, 0);
      assert t[0..] == t && t[1..] == buf[p0..end];
      p := SkipWhite(buf, p, end);
      ch := buf[p];
      p := p + 1;
      assert p <= end ==> buf[p - 1..end][1..] == buf[p..end];
    }
    if ch != '=' {
      return false, end;
    }
    p := SkipWhite(buf, p, end);
    ok := buf[p] == '"' || buf[p] == '\'';
  }

  lemma AttributeCases(t: string)
    requires t != []
    ensures var n := SymbolRun(t);
            var sep := if n < |t| && IsSpace(t[n]) then SkipSpace(t[n..]) else t[n..];
            if sep == [] || sep[0] != '=' then ReadAttribute(t) == NoAttribute
            else var q := SkipSpace(sep[1..]);
              if q == [] || !(q[0] == '"' || q[0] == '\'') then ReadAttribute(t) == NoAttribute
              else var v := ReadValue(q[1..], q[0]);
                ReadAttribute(t) == if v.Unterminated? || (v.rest != [] && IsStartSymbol(v.rest[0])) then NoAttribute
                                    else OneAttribute(Attribute(t[..n], UpToNul(v.value)), v.rest)
  {
    hide SkipSpace, SymbolRun, ReadValue, UpToNul;
  }

  /** A name and the equals sign after it: the name is terminated, and p is where the quote stands. */
  method ReadNameAt(buf: array<char>, s: nat, end: nat) returns (ok: bool, p: nat)
    requires s < end < buf.Length && buf[end] == '\0' && IsStartSymbol(buf[s])
    modifies buf
    ensures buf[end] == '\0' && s < p <= end && Agree(old(buf[..]), buf[..], s, p)
    ensures !ok ==> ReadAttribute(old(buf[s..end])) == NoAttribute
    ensures ok ==>
              && p < end && (buf[p] == '"' || buf[p] == '\'') && Ends(buf[..], s, p)
              && var v := ReadValue(buf[p + 1..end], buf[p]);
                 ReadAttribute(old(buf[s..end])) ==
                 if v.Unterminated? || (v.rest != [] && IsStartSymbol(v.rest[0])) then NoAttribute
                 else OneAttribute(Attribute(StringAt(buf[..], s), UpToNul(v.value)), v.rest)
  {
    hide StringAt, UpToNul, SymbolRun, SkipSpace, ReadValue, ReadAttribute;
    ghost var was := buf[..];
    ghost var t := buf[s..end];
    AttributeCases(t);
    var q := ScanSymbols(buf, s, end);
    assert q > s by {
      assert t[0] == buf[s];
    }
    var ch;
    ch, p := EndSegment(buf, s, q, end);
    assert t[..q - s] == was[s..q];
    ghost var after := t[q - s..];
    assert q < end ==> after == [ch] + buf[p..end] && t[q - s] == ch;
    ok, p := FindQuote(buf, ch, p, end, after);
    if !ok {
      AgreeMore(was, buf[..], s, if q == end then end else q + 1, end);
      return false, end;
    }
    AgreeMore(was, buf[..], s, q + 1, p);
    assert buf[p..end][1..] == buf[p + 1..end];
  }

  method ReadAttributeAt(buf: array<char>, s: nat, end: nat) returns (ok: bool, a: AttributeAt, next: nat)
    requires s < end < buf.Length && buf[end] == '\0' && IsStartSymbol(buf[s])
    modifies buf
    ensures s < next <= end && buf[end] == '\0' && Agree(old(buf[..]), buf[..], s, next)
    ensures !ok ==> ReadAttribute(old(buf[s..end])) == NoAttribute
    ensures ok ==>
              && ReadAttribute(old(buf[s..end])) ==
                 OneAttribute(Attribute(StringAt(buf[..], a.name), StringAt(buf[..], a.value)), buf[next..end])
              && Ends(buf[..], a.name, next) && Ends(buf[..], a.value, next)
  {
    hide StringAt, UpToNul, SymbolRun, SkipSpace, ReadValue, ReadAttribute, Agree, Ends;
    ghost var was := buf[..];
    var p;
    ok, p := ReadNameAt(buf, s, end);
    a := AttributeAt(s, p + 1);
    if !ok {
      return false, a, p;
    }
    ghost var named := buf[..];
    AgreeMore(was, named, s, p, p + 1);
    ghost var v;
    ok, next, v := XmlInPlace.StrconvAttribute(buf, p + 1, end, buf[p]);
    AgreesOutside(named, buf[..], p + 1, next);
    AgreeTwice(was, named, buf[..], s, p + 1, next);
    if ok {
      SegmentEnds(buf[..], p + 1, v.value, next);
      SegmentKept(named, buf[..], s, p, p + 1, next);
      ok := !IsStartSymbol(buf[next]);
      assert next < end ==> buf[next] == v.rest[0];
    }
  }

  lemma AgreesOutside(a: seq<char>, b: seq<char>, from: nat, to: nat)
    requires |a| == |b| && forall k :: 0 <= k < |a| && !(from <= k < to) ==> b[k] == a[k]
    ensures Agree(a, b, from, to)
  {
  }

  lemma SegmentEnds(b: seq<char>, i: nat, text: string, limit: nat)
    requires i + |text| < limit <= |b| && b[i..i + |text|] == text && b[i + |text|] == '\0'
    ensures StringAt(b, i) == UpToNul(text) && Ends(b, i, limit)
  {
    StringIs(b, i, text);
  }

  lemma SegmentKept(a: seq<char>, b: seq<char>, i: nat, limit: nat, from: nat, to: nat)
    requires Ends(a, i, limit) && Agree(a, b, from, to) && limit <= from <= to <= |a|
    ensures StringAt(b, i) == StringAt(a, i) && Ends(b, i, to)
  {
    OneSame(a, b, i, limit, to);
  }

  datatype TagAt = BadTagAt(error: Error) | GoodTagAt(attrs: seq<AttributeAt>, closed: bool)

  function WithAttributes(attrs: seq<Attribute>, t: Tag): Tag {
    match t case BadTag(e) => BadTag(e) case GoodTag(more, closed, rest) => GoodTag(attrs + more, closed, rest)
  }

  lemma WithMore(attrs: seq<Attribute>, a: Attribute, t: Tag)
    ensures WithAttributes(attrs, WithAttribute(a, t)) == WithAttributes(attrs + [a], t)
    ensures WithAttributes([], t) == t
  {
    if t.GoodTag? {
      assert attrs + ([a] + t.attrs) == (attrs + [a]) + t.attrs;
    }
  }

  lemma AttributesCases(s0: string, endch: char)
    ensures var s := SkipSpace(s0); var t := ParseAttributes(s0, endch);
            && (s == [] ==> t == if endch == '>' then GoodTag([], false, []) else BadTag(BadStartElement))
            && (s != [] && IsStartSymbol(s[0]) && ReadAttribute(s).NoAttribute? ==> t == BadTag(BadAttribute))
            && (s != [] && IsStartSymbol(s[0]) && ReadAttribute(s).OneAttribute? ==>
                  t == WithAttribute(ReadAttribute(s).a, ParseAttributes(ReadAttribute(s).rest, endch)))
            && (s != [] && s[0] == '>' ==> t == GoodTag([], false, s[1..]))
            && (s != [] && s[0] == '/' ==>
                  t == if |s| > 1 && s[1] == '>' then GoodTag([], true, s[2..])
                       else if |s| == 1 && endch == '>' then GoodTag([], true, [])
                       else BadTag(BadStartElement))
            && (s != [] && !IsStartSymbol(s[0]) && s[0] != '/' && s[0] != '>' ==> t == BadTag(BadStartElement))
  {
    hide SkipSpace, ReadAttribute;
  }

  /** The end of a start tag, at the first character that starts no attribute. */
  method CloseTag(buf: array<char>, s: nat, end: nat, endch: char) returns (t: TagAt, next: nat)
    requires s <= end < buf.Length && buf[end] == '\0' && (s < end ==> !IsStartSymbol(buf[s]))
    requires SkipSpace(buf[s..end]) == buf[s..end]
    ensures s <= next <= end
    ensures t.BadTagAt? ==> ParseAttributes(buf[s..end], endch) == BadTag(t.error)
    ensures t.GoodTagAt? ==> t.attrs == [] && ParseAttributes(buf[s..end], endch) == GoodTag([], t.closed, buf[next..end])
  {
    hide SkipSpace, ReadAttribute, ParseAttributes;
    ghost var u := buf[s..end];
    AttributesCases(u, endch);
    next := end;
    if s == end {
      return if endch == '>' then GoodTagAt([], false) else BadTagAt(BadStartElement), end;
    }
    assert u[1..] == buf[s + 1..end];
    if buf[s] == '/' {
      assert |u| > 1 ==> u[2..] == buf[s + 2..end];
      if s + 1 < end && buf[s + 1] == '>' {
        return GoodTagAt([], true), s + 2;
      } else if s + 1 == end && endch == '>' {
        return GoodTagAt([], true), end;
      }
    } else if buf[s] == '>' {
      return GoodTagAt([], false), s + 1;
    }
    t := BadTagAt(BadStartElement);
  }

  lemma SkipSkipped(t: string)
    ensures SkipSpace(SkipSpace(t)) == SkipSpace(t)
  {
    var r := SkipSpace(t);
    assert SkipSpace(r) == r;
  }

  lemma AttributesSkip(t: string, endch: char)
    ensures ParseAttributes(SkipSpace(t), endch) == ParseAttributes(t, endch)
  {
    hide SkipSpace, ParseAttributes;
    SkipSkipped(t);
    AttributesCases(t, endch);
    AttributesCases(SkipSpace(t), endch);
  }

  lemma ViewAttributesMore(b: seq<char>, limit: nat, attrs: seq<AttributeAt>, a: AttributeAt)
    requires SettledAttributes(b, limit, attrs) && Ends(b, a.name, limit) && Ends(b, a.value, limit)
    ensures ViewAttributes(b, attrs + [a]) ==
            ViewAttributes(b, attrs) + [Attribute(StringAt(b, a.name), StringAt(b, a.value))]
    ensures SettledAttributes(b, limit, attrs + [a])
  {
    hide StringAt, Ends;
  }

  lemma AttributesCarried(a: seq<char>, b: seq<char>, s: nat, next: nat, attrs: seq<AttributeAt>)
    requires SettledAttributes(a, s, attrs) && Agree(a, b, s, next) && s <= next <= |a|
    ensures ViewAttributes(b, attrs) == ViewAttributes(a, attrs) && SettledAttributes(b, next, attrs)
  {
    hide SettledAttributes, ViewAttributes;
    assert Agree(a, b, s, |a|);
    AttributesSame(a, b, s, next, attrs);
  }

  method ReadAttributes(buf: array<char>, s0: nat, end: nat, endch: char) returns (t: TagAt, next: nat)
    requires s0 <= end < buf.Length && buf[end] == '\0'
    modifies buf
    ensures s0 <= next <= end && buf[end] == '\0' && Agree(old(buf[..]), buf[..], s0, next)
    ensures t.BadTagAt? ==> ParseAttributes(old(buf[s0..end]), endch) == BadTag(t.error)
    ensures t.GoodTagAt? ==>
              && ParseAttributes(old(buf[s0..end]), endch) == GoodTag(ViewAttributes(buf[..], t.attrs), t.closed, buf[next..end])
              && SettledAttributes(buf[..], next, t.attrs)
  {
    hide *;
    ghost var was := buf[..];
    ghost var whole := ParseAttributes(was[s0..end], endch);
    var s, attrs := s0, [];
    ghost var seen: seq<Attribute> := [];
    WithMore([], Attribute("", ""), whole);
    NoAttributesYet(was, s0);
    assert buf[s0..end] == was[s0..end];
    while true
      invariant s0 <= s <= end && buf[end] == '\0' && Agree(was, buf[..], s0, s)
      invariant seen == ViewAttributes(buf[..], attrs) && SettledAttributes(buf[..], s, attrs)
      invariant WithAttributes(seen, ParseAttributes(buf[s..end], endch)) == whole
      decreases end - s
    {
      ghost var here := buf[..];
      ghost var u := buf[s..end];
      var p := SkipWhite(buf, s, end);
      AttributesSkip(u, endch);
      SkipSkipped(u);
      AttributesCases(buf[p..end], endch);
      AgreeMore(was, here, s0, s, p);
      AgreeSelf(here, s, p);
      AttributesCarried(here, here, s, p, attrs);
      if p < end && IsStartSymbol(buf[p]) {
        var ok, a;
        ok, a, s := ReadAttributeAt(buf, p, end);
        AgreeTwice(was, here, buf[..], s0, p, s);
        if !ok {
          WithBad(seen, BadAttribute);
          return BadTagAt(BadAttribute), s;
        }
        AttributesCarried(here, buf[..], p, s, attrs);
        ViewAttributesMore(buf[..], s, attrs, a);
        WithMore(seen, Attribute(StringAt(buf[..], a.name), StringAt(buf[..], a.value)), ParseAttributes(buf[s..end], endch));
        attrs := attrs + [a];
        seen := seen + [Attribute(StringAt(buf[..], a.name), StringAt(buf[..], a.value))];
      } else {
        t, next := CloseTag(buf, p, end, endch);
        AgreeMore(was, here, s0, p, next);
        if t.GoodTagAt? {
          t := GoodTagAt(attrs, t.closed);
          AgreeSelf(here, p, next);
          AttributesCarried(here, here, p, next, attrs);
          WithNone(seen, t.closed, buf[next..end]);
        } else {
          WithBad(seen, t.error);
        }
        return;
      }
    }
  }

  lemma WithBad(attrs: seq<Attribute>, e: Error)
    ensures WithAttributes(attrs, BadTag(e)) == BadTag(e)
  {
  }

  lemma WithNone(attrs: seq<Attribute>, closed: bool, rest: string)
    ensures WithAttributes(attrs, GoodTag([], closed, rest)) == GoodTag(attrs, closed, rest)
  {
  }

  lemma NoAttributesYet(b: seq<char>, s: nat)
    requires s <= |b|
    ensures ViewAttributes(b, []) == [] && SettledAttributes(b, s, []) && Agree(b, b, s, s)
  {
  }

  lemma AgreeSelf(b: seq<char>, from: nat, to: nat)
    ensures Agree(b, b, from, to)
  {
  }

  // ----- tags

  /** Where parsing stands after a tag: it failed, or goes on at next. */
  datatype Step = Stop(error: Error) | Go(st: StackAt)

  /** The step did what the parser should do from here. */
  ghost predicate Follows(b: seq<char>, next: nat, end: nat, endch: char, step: Step, spec: Parsed) {
    match step
    case Stop(e) => spec == Fail(e)
    case Go(st) => Ready(b, next, end, st) && spec == ParseLoop(b[next..end], endch, ViewStack(b, st), false)
  }

  lemma StartCases(t: string, endch: char, st: Stack)
    requires t != [] && IsStartSymbol(t[0])
    ensures var n := SymbolRun(t);
            var st' := st + [Frame(t[..n], [], [])];
            var r := ParseTag(t, endch, st);
            && n > 0
            && (n == |t| ==> r == if endch == '>' then ParseLoop([], endch, st', false) else Fail(BadStartElement))
            && (n < |t| && t[n] == '>' ==> r == ParseLoop(t[n + 1..], endch, st', false))
            && (n < |t| && t[n] == '/' ==>
                  r == if n + 1 < |t| && t[n + 1] == '>' then ParseLoop(t[n + 2..], endch, Pop(st'), false)
                       else if n + 1 == |t| && endch == '>' then ParseLoop([], endch, Pop(st'), false)
                       else Fail(BadStartElement))
            && (n < |t| && t[n] != '>' && t[n] != '/' && !IsSpace(t[n]) ==> r == Fail(BadStartElement))
  {
    hide ParseLoop, Pop, ParseAttributes, ParseQuestion, ParseExclamation, SymbolRun;
  }

  lemma StartAttributes(t: string, endch: char, st: Stack)
    requires t != [] && IsStartSymbol(t[0]) && SymbolRun(t) < |t| && IsSpace(t[SymbolRun(t)])
    ensures var n := SymbolRun(t);
            var tag := ParseAttributes(t[n + 1..], endch);
            ParseTag(t, endch, st) ==
            if tag.BadTag? then Fail(tag.error)
            else
              var open := st + [Frame(t[..n], tag.attrs, [])];
              ParseLoop(tag.rest, endch, if tag.closed then Pop(open) else open, false)
  {
    hide ParseLoop, Pop, ParseAttributes, ParseQuestion, ParseExclamation, SymbolRun;
  }

  /** An element is opened, and perhaps closed again, at next. */
  lemma Opened(was: seq<char>, b: seq<char>, s: nat, next: nat, end: nat, st: StackAt, attrs: seq<AttributeAt>, closed: bool)
    requires Ready(was, s, end, st) && Agree(was, b, s, next) && s < next <= end
    requires Ends(b, s, Limit(next, end)) && SettledAttributes(b, Limit(next, end), attrs)
    ensures var open := st + [FrameAt(s, attrs, [])];
            var open' := ViewStack(was, st) + [Frame(StringAt(b, s), ViewAttributes(b, attrs), [])];
            var st' := if closed then PopAt(open) else open;
            Ready(b, next, end, st') && ViewStack(b, st') == if closed then Pop(open') else open'
  {
    hide ViewStack, StringAt, ViewAttributes, SettledAttributes, SettledStack, Pop, PopAt, Ends;
    Carried(was, b, s, next, end, st);
    OpenViewed(b, Limit(next, end), st, s, attrs);
    PopViewed(b, Limit(next, end), st + [FrameAt(s, attrs, [])]);
  }

  method StartTag(buf: array<char>, s: nat, end: nat, endch: char, st: StackAt) returns (step: Step, next: nat)
    requires Ready(buf[..], s, end, st) && s < end && IsStartSymbol(buf[s])
    modifies buf
    ensures s < next <= end && buf[end] == '\0' && Agree(old(buf[..]), buf[..], s, next)
    ensures Follows(buf[..], next, end, endch, step, ParseTag(old(buf[s..end]), endch, ViewStack(old(buf[..]), st)))
  {
    hide ParseTag, ParseLoop, ViewStack, StringAt, ViewAttributes, SettledStack, SettledAttributes, Pop, PopAt, SymbolRun,
      ParseAttributes;
    ghost var was := buf[..];
    ghost var t := buf[s..end];
    StartCases(t, endch, ViewStack(was, st));
    var q := ScanSymbols(buf, s, end);
    var ch;
    ch, next := EndSegment(buf, s, q, end);
    ghost var named := buf[..];
    assert t[..q - s] == was[s..q];
    ghost var upTo := if q == end then end else q + 1;
    NoAttributesYet(named, upTo);
    NothingSettled(named, Limit(upTo, end));
    if ch == '\0' && q == end {
      Opened(was, named, s, end, end, st, [], false);
      assert named[end..end] == [];
      return if endch == '>' then Go(st + [FrameAt(s, [], [])]) else Stop(BadStartElement), end;
    }
    assert t[q - s] == ch && t[q - s + 1..] == named[q + 1..end];
    if ch == '>' {
      Opened(was, named, s, next, end, st, [], false);
      step := Go(st + [FrameAt(s, [], [])]);
    } else if IsSpace(ch) {
      StartAttributes(t, endch, ViewStack(was, st));
      step, next := AfterName(buf, s, next, end, endch, st, was);
    } else if ch == '/' {
      assert next < end ==> t[q - s + 1] == buf[next] && t[q - s + 2..] == buf[next + 1..end];
      step, next := EmptyTag(buf, s, next, end, endch, st, was);
    } else {
      step := Stop(BadStartElement);
    }
  }

  lemma NothingSettled(b: seq<char>, limit: nat)
    ensures SettledAttributes(b, limit, [])
  {
  }

  /** The rest of a start tag whose name was followed by a space. */
  method AfterName(buf: array<char>, s: nat, p: nat, end: nat, endch: char, st: StackAt, ghost was: seq<char>) returns (step: Step, next: nat)
    requires s < p <= end < buf.Length && buf[end] == '\0' && Ready(was, s, end, st) && Agree(was, buf[..], s, p)
    requires Ends(buf[..], s, p)
    modifies buf
    ensures p <= next <= end && buf[end] == '\0' && Agree(was, buf[..], s, next)
    ensures var name := StringAt(old(buf[..]), s);
            var tag := ParseAttributes(old(buf[p..end]), endch);
            Follows(buf[..], next, end, endch, step,
                    if tag.BadTag? then Fail(tag.error)
                    else
                      var open := ViewStack(was, st) + [Frame(name, tag.attrs, [])];
                      ParseLoop(tag.rest, endch, if tag.closed then Pop(open) else open, false))
  {
    hide *;
    ghost var here := buf[..];
    var tag;
    tag, next := ReadAttributes(buf, p, end, endch);
    AgreeTwice(was, here, buf[..], s, p, next);
    if tag.BadTagAt? {
      step := Stop(tag.error);
      StopFollows(buf[..], next, end, endch, tag.error);
    } else {
      var open: StackAt := st + [FrameAt(s, tag.attrs, [])];
      SegmentKept(here, buf[..], s, p, p, next);
      ReadyBounds(was, s, end, st);
      LimitAfter(next, end);
      AgreeSelf(buf[..], next, Limit(next, end));
      EndsLater(buf[..], s, next, Limit(next, end));
      AttributesCarried(buf[..], buf[..], next, Limit(next, end), tag.attrs);
      Opened(was, buf[..], s, next, end, st, tag.attrs, tag.closed);
      step := Go(if tag.closed then PopAt(open) else open);
      GoFollows(buf[..], next, end, endch, step.st);
    }
  }

  lemma LimitAfter(s: nat, end: nat)
    requires s <= end
    ensures s <= Limit(s, end) <= end + 1
  {
  }

  lemma ReadyBounds(b: seq<char>, s: nat, end: nat, st: StackAt)
    requires Ready(b, s, end, st)
    ensures s <= end < |b| && b[end] == '\0'
  {
  }

  lemma StopFollows(b: seq<char>, next: nat, end: nat, endch: char, e: Error)
    ensures Follows(b, next, end, endch, Stop(e), Fail(e))
  {
  }

  lemma GoFollows(b: seq<char>, next: nat, end: nat, endch: char, st: StackAt)
    requires Ready(b, next, end, st)
    ensures Follows(b, next, end, endch, Go(st), ParseLoop(b[next..end], endch, ViewStack(b, st), false))
  {
    hide ParseLoop, ViewStack;
  }

  /** A start tag whose name was followed by a slash. */
  method EmptyTag(buf: array<char>, s: nat, p: nat, end: nat, endch: char, st: StackAt, ghost was: seq<char>) returns (step: Step, next: nat)
    requires s < p <= end < buf.Length && buf[end] == '\0' && Ready(was, s, end, st) && Agree(was, buf[..], s, p)
    requires Ends(buf[..], s, p)
    ensures p <= next <= end && Agree(was, buf[..], s, next)
    ensures var open := ViewStack(was, st) + [Frame(StringAt(buf[..], s), [], [])];
            Follows(buf[..], next, end, endch, step,
                    if p < end && buf[p] == '>' then ParseLoop(buf[p + 1..end], endch, Pop(open), false)
                    else if p == end && endch == '>' then ParseLoop([], endch, Pop(open), false)
                    else Fail(BadStartElement))
  {
    hide *;
    next := p;
    if (p < end && buf[p] == '>') || (p == end && endch == '>') {
      next := if p < end then p + 1 else p;
      step := Go(PopAt(st + [FrameAt(s, [], [])]));
      AgreeMore(was, buf[..], s, p, next);
      NoAttributesYet(buf[..], next);
      NothingSettled(buf[..], Limit(next, end));
      ReadyBounds(was, s, end, st);
      LimitAfter(next, end);
      EndsLater(buf[..], s, p, Limit(next, end));
      Opened(was, buf[..], s, next, end, st, [], true);
      GoFollows(buf[..], next, end, endch, step.st);
      assert p == end ==> buf[next..end] == [];
    } else {
      step := Stop(BadStartElement);
      StopFollows(buf[..], next, end, endch, BadStartElement);
    }
  }

  /** The string at i, character by character. */
  lemma StringParts(b: seq<char>, i: nat, limit: nat)
    requires Ends(b, i, limit)
    ensures var t := StringAt(b, i);
            && (forall k :: 0 <= k < |t| ==> b[i + k] == t[k] != '\0') && b[i + |t|] == '\0'
  {
    hide UpToNul;
    CutParts(b[i..]);
    CutNoNul(b[i..]);
    var t := StringAt(b, i);
    forall k | 0 <= k < |t| ensures b[i + k] == t[k] != '\0' {
      assert b[i..][..|t|][k] == b[i + k];
    }
  }

  /** Compare the name in an end tag at p with the one at name, side by side. */
  method CompareName(buf: array<char>, p: nat, end: nat, name: nat, endch: char) returns (ok: bool, error: Error, q: nat)
    requires p <= end < buf.Length && buf[end] == '\0' && Ends(buf[..], name, buf.Length)
    ensures var t, n, nm := buf[p..end], SymbolRun(buf[p..end]), StringAt(buf[..], name);
            && q <= end
            && (ok ==> t[..n] == nm && q == p + n)
            && (!ok ==> t[..n] != nm && error == if n == |t| && nm == t[..n] + [endch] then BadEndElement else EndElementMismatch)
  {
    hide StringAt, UpToNul, SymbolRun;
    ghost var t, n, nm := buf[p..end], SymbolRun(buf[p..end]), StringAt(buf[..], name);
    StringParts(buf[..], name, buf.Length);
    var i := name;
    q := p;
    error := EndElementMismatch;
    while q < end && IsSymbol(buf[q])
      invariant p <= q <= end && i - name == q - p <= |nm|
      invariant forall k :: 0 <= k < q - p ==> t[k] == nm[k] && IsSymbol(t[k])
    {
      if buf[q] != buf[i] {
        assert q - p < n && t[q - p] == buf[q];
        assert q - p < |nm| ==> nm[q - p] == buf[i];
        Differ(t[..n], nm, q - p, endch);
        return false, error, q;
      }
      assert q - p < |nm|;
      i, q := i + 1, q + 1;
    }
    assert n == q - p;
    ok := buf[i] == '\0';
    assert n < |nm| ==> nm[n] == buf[i];
    if ok {
      assert t[..n] == nm;
    } else {
      assert nm[n] == buf[i];
      assert |nm| > n + 1 ==> nm[n + 1] == buf[i + 1];
      if q == end && buf[i] == endch && buf[i + 1] == '\0' {
        error := BadEndElement;
        assert nm == t[..n] + [endch];
      } else {
        assert q == end && nm == t[..n] + [endch] ==> nm[n] == endch;
      }
    }
  }

  lemma Differ(a: string, b: string, k: nat, c: char)
    requires k < |a| && (k < |b| ==> a[k] != b[k])
    ensures a != b && b != a + [c]
  {
    assert (a + [c])[k] == a[k];
  }

  method EndTag(buf: array<char>, s: nat, end: nat, endch: char, st: StackAt) returns (step: Step, next: nat)
    requires Ready(buf[..], s, end, st) && s < end && buf[s] == '/'
    ensures s < next <= end
    ensures Follows(buf[..], next, end, endch, step, ParseTag(buf[s..end], endch, ViewStack(buf[..], st)))
  {
    hide *;
    ReadyBounds(buf[..], s, end, st);
    ReadyHere(buf[..], s, end, st);
    ghost var b, t := buf[..], buf[s..end];
    next := end;
    if |st| == 1 {
      BottomCloses(t, endch, ViewStack(b, st));
      StopFollows(b, end, end, endch, EndElementMismatch);
      return Stop(EndElementMismatch), end;
    }
    ghost var u := buf[s + 1..end];
    assert t == ['/'] + u;
    EndCases(t, u, endch, ViewStack(b, st));
    TopName(b, s, end, st);
    var ok, error, q := CompareName(buf, s + 1, end, st[|st| - 1].name, endch);
    if !ok {
      StopFollows(b, end, end, endch, error);
      return Stop(error), end;
    }
    assert u[SymbolRun(u)..] == buf[q..end];
    q := SkipWhite(buf, q, end);
    ghost var rest := buf[q..end];
    if (q == end && endch == '>') || (q < end && buf[q] == '>') {
      next := if q == end then end else q + 1;
      step := Go(PopAt(st));
      Popped(b, s, next, end, st);
      GoFollows(b, next, end, endch, step.st);
      assert q < end ==> rest[1..] == buf[next..end];
      assert q == end ==> rest == [] && buf[next..end] == [];
    } else {
      step := Stop(BadEndElement);
      StopFollows(b, next, end, endch, BadEndElement);
    }
  }

  lemma BottomCloses(t: string, endch: char, st: Stack)
    requires t != [] && t[0] == '/' && |st| == 1
    ensures ParseTag(t, endch, st) == Fail(EndElementMismatch)
  {
  }

  lemma TopName(b: seq<char>, s: nat, end: nat, st: StackAt)
    requires Ready(b, s, end, st) && |st| > 1
    ensures Ends(b, st[|st| - 1].name, |b|) && ViewStack(b, st)[|st| - 1].name == StringAt(b, st[|st| - 1].name)
  {
    hide StringAt;
    assert SettledFrame(b, Limit(s, end), st[|st| - 1]);
  }

  lemma Popped(b: seq<char>, s: nat, next: nat, end: nat, st: StackAt)
    requires Ready(b, s, end, st) && |st| > 1 && s <= next <= end
    ensures Ready(b, next, end, PopAt(st)) && ViewStack(b, PopAt(st)) == Pop(ViewStack(b, st))
  {
    hide ViewStack, SettledStack, Pop, PopAt;
    AgreeSelf(b, s, next);
    Carried(b, b, s, next, end, st);
    PopViewed(b, Limit(next, end), st);
  }

  // ----- markup other than elements

  /** An instruction or a declaration is stepped over. */
  method SkipQuestion(buf: array<char>, s: nat, end: nat, endch: char) returns (ok: bool, next: nat)
    requires s <= end < buf.Length
    ensures s <= next <= end
    ensures ParseQuestion(buf[s..end], endch) == if ok then Skipped(buf[next..end]) else BadMarkup(BadInstruction)
  {
    hide SymbolRun, FindMark;
    ghost var t := buf[s..end];
    if s == end || !IsStartSymbol(buf[s]) {
      return false, end;
    }
    var q := ScanSymbols(buf, s, end);
    if q == end {
      return false, end;
    }
    var k := ScanFor(buf, s, q, end, "?", endch);
    ok, next := k < end, end;
    if ok {
      next := if k + 1 < end then k + 2 else end;
      assert k + 1 < end ==> t[k - s + 2..] == buf[next..end];
    }
  }

  /** A comment is stepped over; s is behind its two dashes. */
  method SkipComment(buf: array<char>, s: nat, end: nat, endch: char) returns (ok: bool, next: nat)
    requires 2 <= s <= end < buf.Length
    ensures s <= next <= end
    ensures var t := buf[s - 2..end]; var k := FindMark(t, 2, "--", endch);
            ok == (k < |t|) && (ok ==> buf[next..end] == AfterMark(t, k, "--"))
  {
    hide FindMark;
    var k := ScanFor(buf, s - 2, s, end, "--", endch);
    ghost var t := buf[s - 2..end];
    ok, next := k < end, end;
    if ok {
      next := if k + 2 < end then k + 3 else end;
      assert k + 2 < end ==> t[k - s + 5..] == buf[next..end];
    }
  }

  // document types

  method SkipIgnore(buf: array<char>, s: nat, end: nat) returns (ok: bool, next: nat)
    requires s <= end < buf.Length
    ensures s <= next <= end
    ensures ParseIgnore(buf[s..end], 0) == if ok then Skipped(buf[next..end]) else BadMarkup(BadDoctype)
  {
    hide ParseIgnore;
    var depth: nat := 0;
    next := s;
    while next < end
      invariant s <= next <= end && ParseIgnore(buf[next..end], depth) == ParseIgnore(buf[s..end], 0)
    {
      var t := buf[next..end];
      IgnoreCases(t, depth);
      assert t[1..] == buf[next + 1..end] && (|t| >= 3 ==> t[3..] == buf[next + 3..end]);
      if "<![" <= t {
        next, depth := next + 3, depth + 1;
      } else if "]]>" <= t {
        next := next + 3;
        if depth == 0 {
          return true, next;
        }
        depth := depth - 1;
      } else {
        next := next + 1;
      }
    }
    IgnoreNothing(depth);
    assert buf[end..end] == [];
    return false, end;
  }

  method SkipQuoted(buf: array<char>, s: nat, end: nat) returns (ok: bool, next: nat)
    requires s < end < buf.Length
    ensures s <= next <= end
    ensures var t := buf[s..end]; var k := IndexOf(t[1..], t[0]);
            ok == (k < |t| - 1) && (ok ==> buf[next..end] == t[k + 2..])
  {
    hide IndexOf;
    var k := s + 1;
    while k < end && buf[k] != buf[s]
      invariant s < k <= end && forall i :: s < i < k ==> buf[i] != buf[s]
    {
      k := k + 1;
    }
    ghost var t := buf[s..end];
    assert forall i :: 0 <= i < |t| - 1 ==> t[1..][i] == buf[s + 1 + i];
    assert IndexOf(t[1..], t[0]) == k - s - 1;
    ok, next := k < end, if k < end then k + 1 else end;
  }

  method SkipPrimitive(buf: array<char>, s: nat, end: nat) returns (ok: bool, next: nat)
    requires s < end < buf.Length
    ensures s <= next <= end
    ensures ParsePrimitive(buf[s..end]) == if ok then Skipped(buf[next..end]) else BadMarkup(BadDoctype)
  {
    hide FindMark, IndexOf;
    var t := buf[s..end];
    if buf[s] == '"' || buf[s] == '\'' {
      ok, next := SkipQuoted(buf, s, end);
    } else if "<?" <= t {
      ok, next := SkipTo(buf, s, 2, end, "?");
    } else if "<!--" <= t {
      ok, next := SkipTo(buf, s, 4, end, "--");
    } else {
      ok, next := false, end;
    }
  }

  method SkipTo(buf: array<char>, s: nat, from: nat, end: nat, mark: string) returns (ok: bool, next: nat)
    requires s + from <= end < buf.Length && mark != []
    ensures s <= next <= end
    ensures var t := buf[s..end]; var k := FindMark(t, from, mark, '\0');
            ok == (k < |t|) && (ok ==> k + |mark| < |t| && buf[next..end] == t[k + |mark| + 1..])
  {
    hide FindMark;
    var k := ScanFor(buf, s, s + from, end, mark, '\0');
    ok, next := k < end, if k < end then k + |mark| + 1 else end;
  }

  /** Over a document type and everything nested in it, to its closing bracket or the end. */
  method SkipGroup(buf: array<char>, s: nat, end: nat, endch: char) returns (ok: bool, next: nat)
    requires s <= end < buf.Length
    ensures s <= next <= end && (next < end ==> buf[next] == '>')
    ensures ParseGroup(buf[s..end], 0, endch) ==
            if ok then Skipped(if next < end then buf[next + 1..end] else []) else BadMarkup(BadDoctype)
  {
    hide ParseGroup, ParseIgnore, ParsePrimitive;
    var depth: nat := 0;
    next := s;
    while next < end
      invariant s <= next <= end && ParseGroup(buf[next..end], depth, endch) == ParseGroup(buf[s..end], 0, endch)
      decreases end - next
    {
      var t := buf[next..end];
      GroupCases(t, depth, endch);
      assert t[1..] == buf[next + 1..end] && (|t| >= 2 ==> t[2..] == buf[next + 2..end]);
      if "<!" <= t && !("<!-" <= t) && !("<![" <= t) {
        next, depth := next + 2, depth + 1;
      } else if buf[next] == '<' || buf[next] == '"' || buf[next] == '\'' {
        var p;
        if "<!" <= t && !("<!-" <= t) {
          assert t[3..] == buf[next + 3..end];
          ok, p := SkipIgnore(buf, next + 3, end);
        } else {
          ok, p := SkipPrimitive(buf, next, end);
        }
        if !ok {
          return false, end;
        }
        assert |buf[p..end]| < |t|;
        next := p;
      } else if buf[next] == '>' {
        if depth == 0 {
          return true, next;
        }
        next, depth := next + 1, depth - 1;
      } else {
        next := next + 1;
      }
    }
    GroupNothing(depth, endch);
    assert buf[end..end] == [];
    return depth == 0 && endch == '>', end;
  }

  // CDATA sections

  function LineChar(c: char): char {
    if c == '\r' then '\n' else c
  }

  /** One character, or a carriage return with the line feed after it. */
  method DecodeLine(buf: array<char>, begin: nat, g: XmlInPlace.Gap, s: nat, end: nat, ghost out: string)
    returns (s': nat, g': XmlInPlace.Gap)
    requires s < end <= buf.Length && XmlInPlace.Holds(buf[..], begin, s, g, out)
    modifies buf
    ensures s' == s + (if old(buf[s]) == '\r' && s + 1 < end && old(buf[s + 1]) == '\n' then 2 else 1)
    ensures XmlInPlace.Holds(buf[..], begin, s', g', out + [LineChar(old(buf[s]))])
    ensures forall k :: 0 <= k < buf.Length && !(begin <= k < s') ==> buf[k] == old(buf[k])
  {
    hide XmlInPlace.Holds;
    if buf[s] == '\r' {
      s', g' := XmlInPlace.EndLine(buf, begin, g, s, end, '\n', out);
    } else {
      XmlInPlace.HoldsMore(buf[..], begin, s, g, out);
      s', g' := s + 1, g;
    }
  }

  lemma LinesStep(was: seq<char>, s: nat, m: nat, out: string)
    requires s < m <= |was|
    ensures var n := if was[s] == '\r' && s + 1 < m && was[s + 1] == '\n' then 2 else 1;
            out + Lines(was[s..m]) == (out + [LineChar(was[s])]) + Lines(was[s + n..m])
  {
    hide Lines;
    var t := was[s..m];
    LinesHead(t);
    var n := if t[0] == '\r' && |t| > 1 && t[1] == '\n' then 2 else 1;
    assert t[n..] == was[s + n..m];
  }

  /** Decode a section in place from begin on; m is where its mark stands, or the end if it has none. */
  method StrconvCdata(buf: array<char>, begin: nat, end: nat, ghost m: nat, endch: char) returns (ok: bool, stop: nat)
    requires begin <= m <= end < buf.Length
    requires forall i :: 0 <= i < m - begin ==> !MarkAt(buf[begin..end], i, "]]", endch)
    requires m < end ==> MarkAt(buf[begin..end], m - begin, "]]", endch)
    modifies buf
    ensures ok == (m < end) && (ok ==> stop == m)
    ensures begin <= stop <= end
    ensures forall k :: 0 <= k < buf.Length && !(begin <= k <= stop && k < end) ==> buf[k] == old(buf[k])
    ensures ok ==>
              var text := Lines(old(buf[begin..m]));
              begin + |text| <= m && buf[begin..begin + |text|] == text && buf[begin + |text|] == '\0'
  {
    hide MarkAt, Lines, XmlInPlace.Holds;
    ghost var was := buf[..];
    ghost var all := was[begin..end];
    assert buf[begin..end] == all && buf[begin..m] == was[begin..m];
    var s, g := begin, XmlInPlace.Gap(0, 0);
    ghost var out: string := [];
    XmlInPlace.HoldsNothing(buf[..], begin);
    assert [] + Lines(was[begin..m]) == Lines(was[begin..m]);
    SectionMark(was, begin, m, end, endch);
    while s < end && !(s + 1 < end && buf[s] == ']' && buf[s + 1] == ']' && (if s + 2 == end then endch else buf[s + 2]) == '>')
      invariant begin <= s <= m && XmlInPlace.Holds(buf[..], begin, s, g, out)
      invariant out + Lines(was[s..m]) == Lines(was[begin..m])
      invariant forall k :: 0 <= k < begin || s <= k < buf.Length ==> buf[k] == was[k]
    {
      LinesStep(was, s, m, out);
      out := out + [LineChar(was[s])];
      s, g := DecodeLine(buf, begin, g, s, end, out[..|out| - 1]);
    }
    ok, stop := s < end, s;
    SectionMark(was, begin, s, end, endch);
    if ok {
      FirstMark(all, m - begin, s - begin, endch);
      LinesNothing();
      assert was[s..m] == [] && out + [] == out;
      XmlInPlace.Finish(buf, begin, g, s, out);
    }
  }

  lemma FirstMark(t: string, k: nat, j: nat, endch: char)
    requires (forall i :: 0 <= i < k ==> !MarkAt(t, i, "]]", endch)) && MarkAt(t, j, "]]", endch)
    ensures k <= j
  {
  }

  lemma LinesNothing()
    ensures Lines([]) == []
  {
  }

  lemma SectionMark(b: seq<char>, begin: nat, i: nat, end: nat, endch: char)
    requires begin <= i <= end < |b|
    ensures MarkAt(b[begin..end], i - begin, "]]", endch) <==>
            i + 1 < end && b[i] == ']' && b[i + 1] == ']' && (if i + 2 == end then endch else b[i + 2]) == '>'
  {
    var t, j := b[begin..end], i - begin;
    if i + 1 < end {
      assert t[j..j + 2] == [b[i], b[i + 1]];
    }
  }

  lemma ExclamationCases(t: string, endch: char, top: bool)
    requires t != []
    ensures var r := ParseExclamation(t, endch, top);
            && (t[0] == '-' && (|t| == 1 || t[1] != '-') ==> r == BadMarkup(BadComment))
            && (t[0] == '-' && |t| > 1 && t[1] == '-' ==>
                  var k := FindMark(t, 2, "--", endch);
                  r == if k == |t| then BadMarkup(BadComment) else Skipped(AfterMark(t, k, "--")))
            && (t[0] == '[' && !("[CDATA[" <= t) ==> r == BadMarkup(BadCdata))
            && (t[0] == '[' && "[CDATA[" <= t ==>
                  var k := FindMark(t, 7, "]]", endch);
                  r == if k == |t| then BadMarkup(BadCdata) else Section(Lines(t[7..k]), AfterMark(t, k, "]]")))
            && (t[0] != '-' && t[0] != '[' ==>
                  r == if "DOCTYP" <= t && (if |t| == 6 then endch == 'E' else t[6] == 'E')
                       then (if top then ParseGroup(t, 0, endch) else BadMarkup(BadDoctype))
                       else BadMarkup(UnrecognizedTag))
  {
    hide FindMark, AfterMark, ParseGroup, Lines;
  }

  datatype MarkupAt = BadMarkupAt(error: Error) | SkippedAt | SectionAt(value: nat)

  /** A section, from its '[' at s. */
  method ReadSection(buf: array<char>, s: nat, end: nat, endch: char) returns (ok: bool, next: nat)
    requires s <= end < buf.Length && buf[end] == '\0' && "[CDATA[" <= buf[s..end]
    modifies buf
    ensures s + 7 <= next <= end && buf[end] == '\0' && Agree(old(buf[..]), buf[..], s, next)
    ensures var t := old(buf[s..end]); var k := FindMark(t, 7, "]]", endch);
            && ok == (k < |t|)
            && (ok ==> buf[next..end] == AfterMark(t, k, "]]") && StringAt(buf[..], s + 7) == UpToNul(Lines(t[7..k]))
                       && Ends(buf[..], s + 7, next))
  {
    hide FindMark, Lines, UpToNul, StringAt, Ends, MarkAt;
    ghost var was := buf[..];
    ghost var t := buf[s..end];
    ghost var k := FindMark(t, 7, "]]", endch);
    var begin := s + 7;
    assert buf[begin..end] == t[7..];
    Slice(was, s, end, 7, k);
    SectionBegins(t, endch);
    var stop;
    ok, stop := StrconvCdata(buf, begin, end, s + k, endch);
    next := end;
    if ok {
      MarkFits(t, k, endch);
      next := if stop + 2 == end then end else stop + 3;
      SegmentEnds(buf[..], begin, Lines(t[7..k]), next);
      assert stop + 2 < end ==> buf[next..end] == t[k + 3..];
    }
  }

  lemma Slice(b: seq<char>, s: nat, end: nat, i: nat, j: nat)
    requires i <= j <= end - s && s <= end <= |b|
    ensures b[s..end][i..j] == b[s + i..s + j]
  {
    assert forall k :: 0 <= k < j - i ==> b[s..end][i..j][k] == b[s..end][i + k] == b[s + i + k];
  }

  lemma MarkFits(t: string, k: nat, endch: char)
    requires MarkAt(t, k, "]]", endch)
    ensures k + 2 <= |t|
  {
  }

  lemma SectionBegins(t: string, endch: char)
    requires |t| >= 7
    ensures var k := FindMark(t, 7, "]]", endch);
            var u := t[7..];
            && (forall i :: 0 <= i < k - 7 ==> !MarkAt(u, i, "]]", endch))
            && (k < |t| ==> MarkAt(u, k - 7, "]]", endch))
  {
    hide FindMark;
    var k, u := FindMark(t, 7, "]]", endch), t[7..];
    forall i | 0 <= i <= k - 7 ensures MarkAt(u, i, "]]", endch) <==> MarkAt(t, i + 7, "]]", endch) {
      if i + 2 <= |u| {
        Slice(t, 7, |t|, i, i + 2);
        assert t[7..|t|] == u;
      }
    }
  }

  /** A comment, a section or a document type, after its "<!". */
  method ReadExclamation(buf: array<char>, s: nat, end: nat, endch: char, top: bool) returns (m: MarkupAt, next: nat)
    requires s <= end < buf.Length && buf[end] == '\0'
    modifies buf
    ensures s <= next <= end && buf[end] == '\0' && Agree(old(buf[..]), buf[..], s, next)
    ensures var r := ParseExclamation(old(buf[s..end]), endch, top);
            match m
            case BadMarkupAt(e) => r == BadMarkup(e)
            case SkippedAt => r == Skipped(buf[next..end])
            case SectionAt(value) =>
              r.Section? && r.rest == buf[next..end] && StringAt(buf[..], value) == UpToNul(r.value) && Ends(buf[..], value, next)
  {
    hide FindMark, AfterMark, ParseGroup, Lines, UpToNul, StringAt, Ends, ParseExclamation;
    ghost var t := buf[s..end];
    next := end;
    if s == end {
      NothingExclaimed(endch, top);
      return BadMarkupAt(if endch == '-' then BadComment else if endch == '[' then BadCdata else UnrecognizedTag), end;
    }
    ExclamationCases(t, endch, top);
    var ok;
    if buf[s] == '-' {
      if s + 1 == end || buf[s + 1] != '-' {
        return BadMarkupAt(BadComment), end;
      }
      ok, next := SkipComment(buf, s + 2, end, endch);
      m := if ok then SkippedAt else BadMarkupAt(BadComment);
    } else if buf[s] == '[' {
      if !("[CDATA[" <= buf[s..end]) {
        return BadMarkupAt(BadCdata), end;
      }
      ok, next := ReadSection(buf, s, end, endch);
      m := if ok then SectionAt(s + 7) else BadMarkupAt(BadCdata);
    } else if "DOCTYP" <= buf[s..end] && (if s + 6 == end then endch else buf[s + 6]) == 'E' {
      if !top {
        return BadMarkupAt(BadDoctype), end;
      }
      ok, next := SkipGroup(buf, s, end, endch);
      assert buf[end..end] == [];
      m := if ok then SkippedAt else BadMarkupAt(BadDoctype);
      if ok && next < end {
        // the closing bracket is overwritten
        ghost var rest := buf[next + 1..end];
        buf[next] := '\0';
        next := next + 1;
        assert buf[next..end] == rest;
      }
    } else {
      m := BadMarkupAt(UnrecognizedTag);
    }
  }

  lemma NothingExclaimed(endch: char, top: bool)
    ensures ParseExclamation([], endch, top) ==
            BadMarkup(if endch == '-' then BadComment else if endch == '[' then BadCdata else UnrecognizedTag)
  {
  }

  lemma MarkupCases(t: string, endch: char, st: Stack)
    requires t != [] && (t[0] == '?' || t[0] == '!')
    ensures var m := if t[0] == '?' then ParseQuestion(t[1..], endch) else ParseExclamation(t[1..], endch, |st| == 1);
            ParseTag(t, endch, st) ==
            if m.BadMarkup? then Fail(m.error)
            else ParseLoop(m.rest, endch, if m.Skipped? then st else Push(st, Cdata(UpToNul(m.value))), false)
  {
    hide ParseLoop, Push, UpToNul, ParseQuestion, ParseExclamation;
  }

  lemma OtherCases(t: string, endch: char, st: Stack)
    ensures t == [] ==> ParseTag(t, endch, st) == Fail(if endch == '?' then BadInstruction else UnrecognizedTag)
    ensures t != [] && !IsStartSymbol(t[0]) && t[0] != '/' && t[0] != '?' && t[0] != '!' ==>
              ParseTag(t, endch, st) == Fail(UnrecognizedTag)
  {
    hide ParseLoop, ParseQuestion, ParseExclamation;
  }

  /** A new text or section joins the open element. */
  lemma Joined(was: seq<char>, b: seq<char>, s: nat, next: nat, end: nat, st: StackAt, n: NodeAt)
    requires Ready(was, s, end, st) && Agree(was, b, s, next) && s <= next <= end && SettledNode(b, Limit(next, end), n)
    ensures Ready(b, next, end, PushAt(st, n)) && ViewStack(b, PushAt(st, n)) == Push(ViewStack(was, st), View(b, n))
  {
    hide ViewStack, SettledStack, SettledNode, View, Push, PushAt;
    Carried(was, b, s, next, end, st);
    PushViewed(b, Limit(next, end), st, n);
  }

  lemma SegmentNode(b: seq<char>, i: nat, limit: nat, limit': nat)
    requires Ends(b, i, limit) && limit <= limit' <= |b|
    ensures SettledNode(b, limit', TextAt(i)) && View(b, TextAt(i)) == Text(StringAt(b, i))
    ensures SettledNode(b, limit', CdataAt(i)) && View(b, CdataAt(i)) == Cdata(StringAt(b, i))
  {
  }

  /** Markup other than an element, at its '?' or '!'. */
  method ReadMarkup(buf: array<char>, s: nat, end: nat, endch: char, st: StackAt) returns (step: Step, next: nat)
    requires Ready(buf[..], s, end, st) && s < end && (buf[s] == '?' || buf[s] == '!')
    modifies buf
    ensures s < next <= end && buf[end] == '\0' && Agree(old(buf[..]), buf[..], s, next)
    ensures Follows(buf[..], next, end, endch, step, ParseTag(old(buf[s..end]), endch, ViewStack(old(buf[..]), st)))
  {
    hide *;
    ReadyBounds(buf[..], s, end, st);
    ghost var was := buf[..];
    ghost var t := buf[s..end];
    assert t[1..] == buf[s + 1..end];
    MarkupCases(t, endch, ViewStack(was, st));
    AgreeSelf(was, s, s + 1);
    var m;
    if buf[s] == '?' {
      var ok;
      ok, next := SkipQuestion(buf, s + 1, end, endch);
      m := if ok then SkippedAt else BadMarkupAt(BadInstruction);
      AgreeSelf(was, s + 1, next);
    } else {
      m, next := ReadExclamation(buf, s + 1, end, endch, |st| == 1);
    }
    AgreeTwice(was, was, buf[..], s, s + 1, next);
    ReadyHere(was, s, end, st);
    match m {
      case BadMarkupAt(e) =>
        step := Stop(e);
        StopFollows(buf[..], next, end, endch, e);
      case SkippedAt =>
        step := Go(st);
        Carried(was, buf[..], s, next, end, st);
        GoFollows(buf[..], next, end, endch, st);
      case SectionAt(value) =>
        step := Go(PushAt(st, CdataAt(value)));
        LimitAfter(next, end);
        SegmentNode(buf[..], value, next, Limit(next, end));
        Joined(was, buf[..], s, next, end, st, CdataAt(value));
        GoFollows(buf[..], next, end, endch, step.st);
    }
  }

  lemma ReadyHere(b: seq<char>, s: nat, end: nat, st: StackAt)
    requires Ready(b, s, end, st)
    ensures |ViewStack(b, st)| == |st|
  {
  }

  /** Whatever follows a '<'. */
  method ReadTag(buf: array<char>, s: nat, end: nat, endch: char, st: StackAt) returns (step: Step, next: nat)
    requires Ready(buf[..], s, end, st)
    modifies buf
    ensures s <= next <= end < buf.Length && (step.Go? ==> s < next) && buf[end] == '\0' && Agree(old(buf[..]), buf[..], s, next)
    ensures Follows(buf[..], next, end, endch, step, ParseTag(old(buf[s..end]), endch, ViewStack(old(buf[..]), st)))
  {
    hide *;
    ReadyBounds(buf[..], s, end, st);
    ghost var was := buf[..];
    OtherCases(buf[s..end], endch, ViewStack(was, st));
    AgreeSelf(was, s, end);
    next := end;
    if s == end {
      step := Stop(if endch == '?' then BadInstruction else UnrecognizedTag);
      StopFollows(was, end, end, endch, step.error);
    } else if IsStartSymbol(buf[s]) {
      step, next := StartTag(buf, s, end, endch, st);
    } else if buf[s] == '/' {
      step, next := EndTag(buf, s, end, endch, st);
      AgreeSelf(was, s, next);
    } else if buf[s] == '?' || buf[s] == '!' {
      step, next := ReadMarkup(buf, s, end, endch, st);
    } else {
      step := Stop(UnrecognizedTag);
      StopFollows(was, end, end, endch, UnrecognizedTag);
    }
  }

  // ----- the main loop

  lemma LoopCases(t: string, endch: char, st: Stack)
    requires t != []
    ensures var u := SkipSpace(t);
            var r := ParseLoop(t, endch, st, false);
            && (t[0] == '<' ==> r == ParseLoop(t[1..], endch, st, true))
            && (t[0] != '<' && (u == [] || u[0] == '<') ==> r == ParseLoop(u, endch, st, false) && |u| < |t|)
            && (t[0] != '<' && !(u == [] || u[0] == '<') && |st| > 1 ==>
                  var c := ReadText(t);
                  r == if |c.rest| <= 1 then Fail(EndElementMismatch)
                       else ParseLoop(c.rest[1..], endch, Push(st, Text(UpToNul(c.text))), true))
            && (t[0] != '<' && !(u == [] || u[0] == '<') && |st| == 1 ==>
                  var k := IndexOf(t, '<');
                  r == if k == |t| then Ok(st[0].kids) else ParseLoop(t[k + 1..], endch, st, true))
  {
    hide ParseTag, SkipSpace, ReadText, Push, UpToNul, IndexOf;
    if t[0] != '<' && (SkipSpace(t) == [] || SkipSpace(t)[0] == '<') {
      SpaceFirst(t);
    }
  }

  lemma SpaceFirst(t: string)
    requires t != [] && t[0] != '<' && (SkipSpace(t) == [] || SkipSpace(t)[0] == '<')
    ensures |SkipSpace(t)| < |t|
  {
    SkipSpaceStep(t);
  }

  lemma LoopEnds(endch: char, st: Stack)
    ensures ParseLoop([], endch, st, false) == if |st| == 1 then Ok(st[0].kids) else Fail(EndElementMismatch)
  {
  }

  lemma LoopInTag(t: string, endch: char, st: Stack)
    ensures ParseLoop(t, endch, st, true) == ParseTag(t, endch, st)
  {
    hide ParseTag;
  }

  /** Text inside an element, decoded where it stands. */
  method ReadTextAt(buf: array<char>, s: nat, end: nat, endch: char, st: StackAt) returns (ok: bool, next: nat)
    requires Ready(buf[..], s, end, st) && s < end
    modifies buf
    ensures s <= next <= end < buf.Length && buf[end] == '\0' && Agree(old(buf[..]), buf[..], s, next)
    ensures ok == (|ReadText(old(buf[s..end])).rest| > 1)
    ensures ok ==>
              var c := ReadText(old(buf[s..end]));
              && s < next < end && buf[next..end] == c.rest[1..] && Ready(buf[..], next, end, PushAt(st, TextAt(s)))
              && ViewStack(buf[..], PushAt(st, TextAt(s))) == Push(ViewStack(old(buf[..]), st), Text(UpToNul(c.text)))
  {
    hide *;
    ReadyBounds(buf[..], s, end, st);
    ghost var was := buf[..];
    ghost var c;
    next, c := XmlInPlace.StrconvPcdata(buf, s, end);
    AgreesOutside(was, buf[..], s, next);
    ok := next < end;
    if ok {
      SegmentEnds(buf[..], s, c.text, next);
      LimitAfter(next, end);
      SegmentNode(buf[..], s, next, Limit(next, end));
      Joined(was, buf[..], s, next, end, st, TextAt(s));
    }
  }

  /** Where c next stands, or the end. */
  method ScanChar(buf: array<char>, s: nat, end: nat, c: char) returns (k: nat)
    requires s <= end <= buf.Length
    ensures k == s + IndexOf(buf[s..end], c)
  {
    hide IndexOf;
    k := s;
    while k < end && buf[k] != c
      invariant s <= k <= end && forall i :: s <= i < k ==> buf[i] != c
    {
      k := k + 1;
    }
    assert forall i :: 0 <= i < end - s ==> buf[s..end][i] == buf[s + i];
  }

  lemma KidsViewed(b: seq<char>, s: nat, end: nat, st: StackAt)
    requires Ready(b, s, end, st)
    ensures ViewStack(b, st)[0].kids == Views(b, st[0].kids) && Settled(b, end + 1, st[0].kids)
  {
    hide View, SettledNode;
    AgreeSelf(b, Limit(s, end), |b|);
    NodesSame(b, b, Limit(s, end), end + 1, st[0].kids);
  }

  /** Nothing is open and nothing is collected yet. */
  lemma Fresh(b: seq<char>, s: nat, end: nat)
    requires s <= end < |b| && b[end] == '\0'
    ensures Ready(b, s, end, [FrameAt(0, [], [])]) && ViewStack(b, [FrameAt(0, [], [])]) == [Frame("", [], [])]
  {
    assert Views(b, []) == [];
  }

  /** The parser over the buffer from begin to its terminator at end. The nodes are read off the buffer as it is
      afterwards: every string is a terminated segment that nothing written later has touched. */
  method ParseTree(buf: array<char>, begin: nat, end: nat, endch: char) returns (r: ParsedAt)
    requires begin <= end < buf.Length && buf[end] == '\0'
    modifies buf
    ensures ViewParsed(buf[..], r) == ParseLoop(old(buf[begin..end]), endch, [Frame("", [], [])], false)
    ensures r.OkAt? ==> Settled(buf[..], end + 1, r.kids)
    ensures Agree(old(buf[..]), buf[..], begin, end)
  {
    hide *;
    ghost var was := buf[..];
    ghost var whole := ParseLoop(was[begin..end], endch, [Frame("", [], [])], false);
    var s, st: StackAt, inTag := begin, [FrameAt(0, [], [])], false;
    Fresh(was, begin, end);
    AgreeSelf(was, begin, begin);
    assert buf[begin..end] == was[begin..end];
    while inTag || s < end
      invariant begin <= s <= end && buf[end] == '\0' && Agree(was, buf[..], begin, s) && Ready(buf[..], s, end, st)
      invariant ParseLoop(buf[s..end], endch, ViewStack(buf[..], st), inTag) == whole
      decreases end - s, if inTag then 0 else 1
    {
      ghost var here, view := buf[..], ViewStack(buf[..], st);
      ghost var t := buf[s..end];
      ReadyHere(here, s, end, st);
      if inTag {
        LoopInTag(t, endch, view);
        var step, next := ReadTag(buf, s, end, endch, st);
        AgreeTwice(was, here, buf[..], begin, s, next);
        FollowsIs(buf[..], next, end, endch, step, whole);
        if step.Stop? {
          AgreeMore(was, buf[..], begin, next, end);
          FailViewed(buf[..], step.error);
          return FailAt(step.error);
        }
        s, st, inTag := next, step.st, false;
      } else {
        LoopCases(t, endch, view);
        var p := SkipWhite(buf, s, end);
        if buf[s] == '<' {
          assert t[1..] == buf[s + 1..end];
          Moved(here, begin, was, s, s + 1, end, st);
          s, inTag := s + 1, true;
        } else if p == end || buf[p] == '<' {
          Moved(here, begin, was, s, p, end, st);
          s := p;
        } else if |st| > 1 {
          var ok, next := ReadTextAt(buf, s, end, endch, st);
          AgreeTwice(was, here, buf[..], begin, s, next);
          if !ok {
            AgreeMore(was, buf[..], begin, next, end);
            FailViewed(buf[..], EndElementMismatch);
            return FailAt(EndElementMismatch);
          }
          s, st, inTag := next, PushAt(st, TextAt(s)), true;
        } else {
          var k := ScanChar(buf, s, end, '<');
          if k == end {
            AgreeMore(was, buf[..], begin, s, end);
            KidsViewed(buf[..], s, end, st);
            OkViewed(buf[..], st[0].kids);
            return OkAt(st[0].kids);
          }
          assert t[k - s + 1..] == buf[k + 1..end];
          Moved(here, begin, was, s, k + 1, end, st);
          s, inTag := k + 1, true;
        }
      }
    }
    assert buf[s..end] == [];
    ReadyHere(buf[..], s, end, st);
    LoopEnds(endch, ViewStack(buf[..], st));
    KidsViewed(buf[..], s, end, st);
    OkViewed(buf[..], st[0].kids);
    FailViewed(buf[..], EndElementMismatch);
    r := if |st| == 1 then OkAt(st[0].kids) else FailAt(EndElementMismatch);
  }

  lemma FailViewed(b: seq<char>, e: Error)
    ensures ViewParsed(b, FailAt(e)) == Fail(e)
  {
  }

  lemma OkViewed(b: seq<char>, kids: seq<NodeAt>)
    ensures ViewParsed(b, OkAt(kids)) == Ok(Views(b, kids))
  {
  }

  lemma FollowsIs(b: seq<char>, next: nat, end: nat, endch: char, step: Step, spec: Parsed)
    requires Follows(b, next, end, endch, step, spec) && next <= end < |b|
    ensures step.Stop? ==> spec == Fail(step.error)
    ensures step.Go? ==> Ready(b, next, end, step.st) && spec == ParseLoop(b[next..end], endch, ViewStack(b, step.st), false)
  {
    hide ParseLoop, ViewStack;
  }

  /** Stepping forward without writing. */
  lemma Moved(b: seq<char>, begin: nat, was: seq<char>, s: nat, s': nat, end: nat, st: StackAt)
    requires Ready(b, s, end, st) && begin <= s <= s' <= end && Agree(was, b, begin, s)
    ensures Ready(b, s', end, st) && Agree(was, b, begin, s')
  {
    hide SettledStack;
    AgreeSelf(b, s, s');
    AgreeMore(was, b, begin, s, s');
    Carried(b, b, s, s', end, st);
  }

  // ----- whole buffers

  /** Parse a whole buffer in place. */
  method Parse(buf: array<char>) returns (r: ParsedAt)
    modifies buf
    ensures ViewParsed(buf[..], r) == ParseDocument(old(buf[..]))
    ensures r.OkAt? ==> Settled(buf[..], buf.Length, r.kids)
  {
    hide *;
    ghost var was := buf[..];
    DocumentCases(was);
    if buf.Length == 0 {
      FailViewed(buf[..], NoDocumentElement);
      return FailAt(NoDocumentElement);
    }
    var last := buf.Length - 1;
    var endch := buf[last];
    buf[last] := '\0';
    var end := ScanChar(buf, 0, buf.Length, '\0');
    InputIs(was, buf[..], end);
    var begin := if end >= 3 && buf[0] as int == 0xEF && buf[1] as int == 0xBB && buf[2] as int == 0xBF then 3 else 0;
    BomAt(buf[..end]);
    assert buf[begin..end] == buf[..end][begin..];
    r := ParseTree(buf, begin, end, endch);
    if r.OkAt? {
      SettledLater(buf[..], end + 1, buf.Length, r.kids);
      OkViewed(buf[..], r.kids);
      var found := FindElement(buf, r.kids);
      if endch == '<' {
        r := FailAt(UnrecognizedTag);
      } else if !found {
        r := FailAt(NoDocumentElement);
      }
    }
    if r.FailAt? {
      FailViewed(buf[..], r.error);
    }
  }

  lemma DocumentCases(buffer: string)
    ensures buffer == [] ==> ParseDocument(buffer) == Fail(NoDocumentElement)
    ensures buffer != [] ==>
              var n := |buffer| - 1;
              var p := ParseLoop(SkipBom(UpToNul(buffer[..n])), buffer[n], [Frame("", [], [])], false);
              ParseDocument(buffer) ==
              if p.Ok? && buffer[n] == '<' then Fail(UnrecognizedTag)
              else if p.Ok? && !HasElement(p.kids) then Fail(NoDocumentElement)
              else p
  {
    hide ParseLoop, SkipBom, UpToNul, HasElement;
  }

  /** The input ends at the first NUL of the buffer whose last character was replaced by one. */
  lemma InputIs(was: seq<char>, b: seq<char>, end: nat)
    requires was != [] && b == was[|was| - 1 := '\0'] && end == IndexOf(b[0..|b|], '\0')
    ensures end < |b| && b[end] == '\0' && b[..end] == UpToNul(was[..|was| - 1])
  {
    hide IndexOf, UpToNul;
    var last := |was| - 1;
    var s := was[..last];
    CutParts(s);
    CutNoNul(s);
    var n := |UpToNul(s)|;
    assert b[0..|b|] == b && b[..last] == s;
    assert b[n] == '\0';
    forall i | 0 <= i < n ensures b[i] != '\0' {
      assert b[i] == s[i] == UpToNul(s)[i];
    }
    assert end == n;
    assert b[..n] == s[..n];
  }

  lemma BomAt(s: string)
    ensures SkipBom(s) ==
            if |s| >= 3 && s[0] as int == 0xEF && s[1] as int == 0xBB && s[2] as int == 0xBF then s[3..] else s[0..]
  {
  }

  lemma SettledLater(b: seq<char>, limit: nat, limit': nat, ns: seq<NodeAt>)
    requires Settled(b, limit, ns) && limit <= limit' <= |b|
    ensures Settled(b, limit', ns)
  {
    hide Settled;
    AgreeSelf(b, limit, |b|);
    NodesSame(b, b, limit, limit', ns);
  }

  method FindElement(buf: array<char>, kids: seq<NodeAt>) returns (found: bool)
    ensures found == HasElement(Views(buf[..], kids))
  {
    ghost var ts := Views(buf[..], kids);
    var i := 0;
    while i < |kids|
      invariant 0 <= i <= |kids| && forall k :: 0 <= k < i ==> !ts[k].Elem?
    {
      assert ts[i] == View(buf[..], kids[i]);
      if kids[i].ElemAt? {
        return true;
      }
      i := i + 1;
    }
    return false;
  }
}
