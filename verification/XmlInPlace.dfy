/** Decoding text inside the parse buffer: references and line ends shrink the text, and the holes
    they leave are collected in one moving gap. */
module XmlInPlace {
  import opened XmlText

  /** The hole: its end in the buffer and its total size; no hole yet when size is 0. */
  datatype Gap = Gap(end: nat, size: nat)

  /** out is the decoded text: the buffer from begin to s, without the gap. */
  ghost predicate Holds(buf: seq<char>, begin: nat, s: nat, g: Gap, out: string) {
    && begin <= s <= |buf|
    && (if g.size == 0 then out == buf[begin..s]
        else begin + g.size <= g.end <= s && out == buf[begin..g.end - g.size] + buf[g.end..s])
  }

  /** Close the gap by moving what follows it down; memmove from the front. */
  method Collapse(buf: array<char>, g: Gap, s: nat)
    requires g.size <= g.end <= s <= buf.Length
    modifies buf
    ensures buf[g.end - g.size..s - g.size] == old(buf[g.end..s])
    ensures forall k :: 0 <= k < buf.Length && !(g.end - g.size <= k < s - g.size) ==> buf[k] == old(buf[k])
  {
    ghost var moved := buf[g.end..s];
    var to, i := g.end - g.size, 0;
    while i < s - g.end
      invariant 0 <= i <= s - g.end
      invariant buf[to..to + i] == moved[..i]
      invariant forall k :: 0 <= k < buf.Length && !(to <= k < to + i) ==> buf[k] == old(buf[k])
    {
      assert buf[g.end + i] == moved[i];
      buf[to + i] := buf[g.end + i];
      assert buf[to..to + i + 1] == buf[to..to + i] + [moved[i]];
      i := i + 1;
    }
  }

  /** Add count characters after s to the gap. */
  method Push(buf: array<char>, begin: nat, g: Gap, s: nat, count: nat, ghost out: string) returns (g': Gap)
    requires Holds(buf[..], begin, s, g, out) && count > 0 && s + count <= buf.Length
    modifies buf
    ensures g' == Gap(s + count, g.size + count)
    ensures Holds(buf[..], begin, s + count, g', out)
    ensures forall k :: 0 <= k < buf.Length && !(begin <= k < s) ==> buf[k] == old(buf[k])
  {
    ghost var was := buf[..];
    if g.size != 0 {
      Collapse(buf, g, s);
      assert buf[begin..g.end - g.size] == was[begin..g.end - g.size];
      assert buf[begin..s - g.size] == buf[begin..g.end - g.size] + buf[g.end - g.size..s - g.size];
    }
    assert buf[begin..s - g.size] == out;
    g' := Gap(s + count, g.size + count);
    assert buf[..][begin..g'.end - g'.size] == buf[begin..s - g.size];
    assert buf[..][g'.end..s + count] == [];
  }

  /** Close all gaps; the decoded text then ends at the returned position. */
  method Flush(buf: array<char>, begin: nat, g: Gap, s: nat, ghost out: string) returns (end: nat)
    requires Holds(buf[..], begin, s, g, out)
    modifies buf
    ensures begin <= end <= s && end == begin + |out| && buf[begin..end] == out
    ensures forall k :: 0 <= k < buf.Length && !(begin <= k < s) ==> buf[k] == old(buf[k])
  {
    ghost var was := buf[..];
    if g.size != 0 {
      Collapse(buf, g, s);
      assert buf[begin..g.end - g.size] == was[begin..g.end - g.size];
      assert buf[begin..s - g.size] == buf[begin..g.end - g.size] + buf[g.end - g.size..s - g.size];
    }
    end := s - g.size;
  }

  lemma HoldsMore(buf: seq<char>, begin: nat, s: nat, g: Gap, out: string)
    requires Holds(buf, begin, s, g, out) && s < |buf|
    ensures Holds(buf, begin, s + 1, g, out + [buf[s]])
  {
  }

  lemma {:induction false} HoldsRun(buf: seq<char>, begin: nat, s: nat, n: nat, g: Gap, out: string)
    requires Holds(buf, begin, s, g, out) && s + n <= |buf|
    ensures Holds(buf, begin, s + n, g, out + buf[s..s + n])
  {
    if n > 0 {
      HoldsRun(buf, begin, s, n - 1, g, out);
      HoldsMore(buf, begin, s + n - 1, g, out + buf[s..s + n - 1]);
      assert out + buf[s..s + n - 1] + [buf[s + n - 1]] == out + buf[s..s + n];
    }
  }

  lemma HoldsFrame(a: seq<char>, b: seq<char>, begin: nat, s: nat, g: Gap, out: string)
    requires Holds(a, begin, s, g, out) && |b| == |a| && a[..s] == b[..s]
    ensures Holds(b, begin, s, g, out)
  {
    if g.size == 0 {
      SamePart(a, b, s, begin, s);
    } else {
      SamePart(a, b, s, begin, g.end - g.size);
      SamePart(a, b, s, g.end, s);
    }
  }

  lemma SamePart(a: seq<char>, b: seq<char>, s: nat, i: nat, j: nat)
    requires i <= j <= s <= |a| == |b| && a[..s] == b[..s]
    ensures a[i..j] == b[i..j]
  {
    forall k | i <= k < j
      ensures a[k] == b[k]
    {
      assert a[..s][k] == b[..s][k];
    }
  }

  /** Replace the reference at s by its text, or step over it. */
  method Unescape(buf: array<char>, begin: nat, g: Gap, s: nat, end: nat, ghost out: string) returns (s': nat, g': Gap)
    requires s < end <= buf.Length && buf[s] == '&' && Holds(buf[..], begin, s, g, out)
    modifies buf
    ensures var r := ReadReference(old(buf[s..end]));
            s' == s + r.n && s < s' <= end && Holds(buf[..], begin, s', g', out + TextOf(old(buf[s..end]), r))
    ensures forall k :: 0 <= k < buf.Length && !(begin <= k < s') ==> buf[k] == old(buf[k])
  {
    hide ReadReference, Holds;
    var t := buf[s..end];
    ReferenceShrinks(t);
    var r := ReadReference(t);
    s' := s + r.n;
    HoldsBounds(buf[..], begin, s, g, out);
    if r.Replaced? {
      var w := PutAll(buf, begin, g, s, r.text, out);
      g' := Push(buf, begin, g, w, s' - w, out + r.text);
    } else {
      HoldsRun(buf[..], begin, s, r.n, g, out);
      PartOf(buf[..], s, end, r.n);
      assert buf[..][s..end] == t;
      g' := g;
    }
  }

  lemma PartOf(buf: seq<char>, s: nat, end: nat, n: nat)
    requires s + n <= end <= |buf|
    ensures buf[s..s + n] == buf[s..end][..n]
  {
  }

  /** Write decoded characters over those at s. */
  method PutAll(buf: array<char>, begin: nat, g: Gap, s: nat, text: string, ghost out: string) returns (w: nat)
    requires s + |text| <= buf.Length && Holds(buf[..], begin, s, g, out)
    modifies buf
    ensures w == s + |text| && Holds(buf[..], begin, w, g, out + text)
    ensures forall k :: 0 <= k < buf.Length && !(s <= k < w) ==> buf[k] == old(buf[k])
  {
    hide Holds;
    w := s;
    assert out + text[..0] == out;
    while w < s + |text|
      invariant s <= w <= s + |text| && Holds(buf[..], begin, w, g, out + text[..w - s])
      invariant forall k :: 0 <= k < buf.Length && !(s <= k < w) ==> buf[k] == old(buf[k])
    {
      Put(buf, begin, g, w, text[w - s], out + text[..w - s]);
      TextGrows(out, text, w - s);
      w := w + 1;
    }
    assert text[..w - s] == text;
  }

  lemma TextGrows(out: string, text: string, i: nat)
    requires i < |text|
    ensures (out + text[..i]) + [text[i]] == out + text[..i + 1]
  {
  }

  lemma HoldsBounds(buf: seq<char>, begin: nat, s: nat, g: Gap, out: string)
    requires Holds(buf, begin, s, g, out)
    ensures begin <= s <= |buf| && |out| <= s - begin
  {
  }

  /** Write one decoded character over the one at s. */
  method Put(buf: array<char>, begin: nat, g: Gap, s: nat, c: char, ghost out: string)
    requires s < buf.Length && Holds(buf[..], begin, s, g, out)
    modifies buf
    ensures Holds(buf[..], begin, s + 1, g, out + [c])
    ensures forall k :: 0 <= k < buf.Length && k != s ==> buf[k] == old(buf[k])
  {
    hide Holds;
    ghost var was := buf[..];
    buf[s] := c;
    assert buf[..] == was[s := c];
    assert was[s := c][..s] == was[..s];
    HoldsFrame(was, buf[..], begin, s, g, out);
    HoldsMore(buf[..], begin, s, g, out);
  }

  /** Turn the carriage return at s, with a line feed after it if there is one, into one character. */
  method EndLine(buf: array<char>, begin: nat, g: Gap, s: nat, end: nat, c: char, ghost out: string) returns (s': nat, g': Gap)
    requires s < end <= buf.Length && Holds(buf[..], begin, s, g, out)
    modifies buf
    ensures s' == s + (if s + 1 < end && old(buf[s + 1]) == '\n' then 2 else 1) && Holds(buf[..], begin, s', g', out + [c])
    ensures forall k :: 0 <= k < buf.Length && !(begin <= k < s') ==> buf[k] == old(buf[k])
  {
    hide Holds;
    HoldsBounds(buf[..], begin, s, g, out);
    Put(buf, begin, g, s, c, out);
    s', g' := s + 1, g;
    if s' < end && buf[s'] == '\n' {
      g' := Push(buf, begin, g, s', 1, out + [c]);
      s' := s' + 1;
    }
  }

  // ----- one step of decoding

  /** What the front of t becomes, and how much of t it takes. */
  datatype Unit = Unit(n: nat, text: string)

  /** attr: white space in attribute values becomes a space; in text only carriage returns matter. */
  function FirstUnit(t: string, attr: bool): (u: Unit)
    requires t != []
    ensures 1 <= u.n <= |t|
  {
    if t[0] == '\r' then Unit(if |t| > 1 && t[1] == '\n' then 2 else 1, if attr then " " else "\n")
    else if attr && IsSpace(t[0]) then Unit(1, " ")
    else if t[0] == '&' then
      ReferenceShrinks(t);
      Unit(ReadReference(t).n, TextOf(t, ReadReference(t)))
    else Unit(1, [t[0]])
  }

  lemma TextUnit(t: string)
    requires t != [] && t[0] != '<'
    ensures var u := FirstUnit(t, false);
            ReadText(t) == Content(u.text + ReadText(t[u.n..]).text, ReadText(t[u.n..]).rest)
  {
    hide ReadReference;
  }

  lemma ValueUnit(t: string, quote: char)
    requires t != [] && t[0] != quote
    ensures var u := FirstUnit(t, true);
            ReadValue(t, quote) == Prefixed(u.text, ReadValue(t[u.n..], quote))
  {
    hide ReadReference;
  }

  method DecodeOne(buf: array<char>, begin: nat, g: Gap, s: nat, end: nat, attr: bool, ghost out: string) returns (s': nat, g': Gap)
    requires s < end <= buf.Length && Holds(buf[..], begin, s, g, out)
    modifies buf
    ensures var u := FirstUnit(old(buf[s..end]), attr);
            s' == s + u.n && Holds(buf[..], begin, s', g', out + u.text)
    ensures forall k :: 0 <= k < buf.Length && !(begin <= k < s') ==> buf[k] == old(buf[k])
  {
    hide ReadReference, Holds;
    HoldsBounds(buf[..], begin, s, g, out);
    ghost var t := buf[s..end];
    assert t[0] == buf[s] && (|t| > 1 ==> t[1] == buf[s + 1]);
    if buf[s] == '\r' {
      s', g' := EndLine(buf, begin, g, s, end, if attr then ' ' else '\n', out);
    } else if attr && IsSpace(buf[s]) {
      Put(buf, begin, g, s, ' ', out);
      s', g' := s + 1, g;
    } else if buf[s] == '&' {
      s', g' := Unescape(buf, begin, g, s, end, out);
    } else {
      HoldsMore(buf[..], begin, s, g, out);
      s', g' := s + 1, g;
    }
  }

  /** Terminate the decoded text at its end. */
  method Finish(buf: array<char>, begin: nat, g: Gap, s: nat, ghost out: string)
    requires s < buf.Length && Holds(buf[..], begin, s, g, out)
    modifies buf
    ensures begin + |out| <= s && buf[begin..begin + |out|] == out && buf[begin + |out|] == '\0'
    ensures forall k :: 0 <= k < buf.Length && !(begin <= k < s) && k != begin + |out| ==> buf[k] == old(buf[k])
  {
    HoldsBounds(buf[..], begin, s, g, out);
    var stop := Flush(buf, begin, g, s, out);
    ghost var done := buf[begin..stop];
    buf[stop] := '\0';
    assert buf[begin..stop] == done;
  }

  lemma HoldsNothing(buf: seq<char>, begin: nat)
    requires begin <= |buf|
    ensures Holds(buf, begin, begin, Gap(0, 0), [])
  {
  }

  /** Decode text content in place. buf[end] is the terminator. The decoded text replaces the front of
      the content, followed by a terminator; everything from the returned position on is untouched. */
  method StrconvPcdata(buf: array<char>, begin: nat, end: nat) returns (next: nat, ghost c: Content)
    requires begin <= end < buf.Length
    modifies buf
    ensures c == ReadText(old(buf[begin..end]))
    ensures begin + |c.text| < buf.Length && buf[begin..begin + |c.text|] == c.text && buf[begin + |c.text|] == '\0'
    ensures if c.rest == [] then begin + |c.text| <= next == end else begin + |c.text| < next == end - |c.rest| + 1
    ensures c.rest != [] ==> buf[next..end] == c.rest[1..]
    ensures forall k :: 0 <= k < buf.Length && !(begin <= k < next) && k != end ==> buf[k] == old(buf[k])
    ensures old(buf[end]) == '\0' ==> buf[end] == '\0'
  {
    hide ReadText, FirstUnit, Holds;
    ghost var was := buf[..];
    assert buf[begin..end] == was[begin..end];
    c := ReadText(was[begin..end]);
    ghost var out: string := [];
    assert [] + c.text == c.text;
    var s, g := begin, Gap(0, 0);
    HoldsNothing(buf[..], begin);
    while s < end && buf[s] != '<'
      invariant begin <= s <= end
      invariant Holds(buf[..], begin, s, g, out)
      invariant c == Content(out + ReadText(was[s..end]).text, ReadText(was[s..end]).rest)
      invariant forall k :: 0 <= k < begin || s <= k < buf.Length ==> buf[k] == was[k]
    {
      ghost var t := was[s..end];
      assert buf[s..end] == t;
      TextStep(was, s, end, out);
      ghost var u := FirstUnit(t, false);
      s, g := DecodeOne(buf, begin, g, s, end, false, out);
      out := out + u.text;
    }
    StoppedText(was, s, end);
    assert out + [] == out;
    Finish(buf, begin, g, s, out);
    next := if s == end then s else s + 1;
    if s < end {
      RestAfter(was, buf[..], s, end);
    }
  }

  lemma RestAfter(was: seq<char>, b: seq<char>, s: nat, end: nat)
    requires s < end <= |was| == |b| && forall k :: s < k < |b| ==> b[k] == was[k]
    ensures b[s + 1..end] == was[s..end][1..]
  {
  }

  lemma TextStep(was: seq<char>, s: nat, end: nat, out: string)
    requires s < end <= |was| && was[s] != '<'
    ensures var u := FirstUnit(was[s..end], false);
            && s + u.n <= end && ReadText(was[s..end]).rest == ReadText(was[s + u.n..end]).rest
            && out + ReadText(was[s..end]).text == (out + u.text) + ReadText(was[s + u.n..end]).text
  {
    hide ReadText, FirstUnit;
    TextUnit(was[s..end]);
    var u := FirstUnit(was[s..end], false);
    Rest(was, s, end, u.n);
    Joined(out, u.text, ReadText(was[s + u.n..end]).text);
  }

  lemma Rest(was: seq<char>, s: nat, end: nat, n: nat)
    requires s + n <= end <= |was|
    ensures was[s..end][n..] == was[s + n..end]
  {
  }

  lemma Joined(a: string, b: string, c: string)
    ensures a + (b + c) == (a + b) + c
  {
  }

  lemma StoppedText(was: seq<char>, s: nat, end: nat)
    requires s <= end <= |was| && (s == end || was[s] == '<')
    ensures ReadText(was[s..end]) == Content([], was[s..end])
  {
  }

  /** Decode an attribute value in place; fails without a closing quote. */
  method StrconvAttribute(buf: array<char>, begin: nat, end: nat, quote: char) returns (ok: bool, next: nat, ghost q: Quoted)
    requires begin <= end < buf.Length
    modifies buf
    ensures q == ReadValue(old(buf[begin..end]), quote) && ok == q.Quoted?
    ensures ok ==>
              && begin + |q.value| < buf.Length && buf[begin..begin + |q.value|] == q.value && buf[begin + |q.value|] == '\0'
              && begin + |q.value| < next == end - |q.rest| && buf[next..end] == q.rest
    ensures forall k :: 0 <= k < buf.Length && !(begin <= k < next) ==> buf[k] == old(buf[k])
    ensures begin <= next <= end
  {
    hide ReadValue, FirstUnit, Holds;
    ghost var was := buf[..];
    assert buf[begin..end] == was[begin..end];
    q := ReadValue(was[begin..end], quote);
    ghost var out: string := [];
    PrefixedTwice([], [], q);
    var s, g := begin, Gap(0, 0);
    HoldsNothing(buf[..], begin);
    while s < end && buf[s] != quote
      invariant begin <= s <= end
      invariant Holds(buf[..], begin, s, g, out)
      invariant q == Prefixed(out, ReadValue(was[s..end], quote))
      invariant forall k :: 0 <= k < begin || s <= k < buf.Length ==> buf[k] == was[k]
    {
      ghost var t, o := was[s..end], out;
      assert buf[s..end] == t && t[0] == buf[s];
      ValueUnit(t, quote);
      ghost var u := FirstUnit(t, true);
      out := out + u.text;
      s, g := DecodeOne(buf, begin, g, s, end, true, o);
      assert t[u.n..] == was[s..end];
      PrefixedTwice(o, u.text, ReadValue(was[s..end], quote));
    }
    StoppedValue(was, s, end, quote);
    if s == end {
      return false, end, q;
    }
    assert out + [] == out;
    Finish(buf, begin, g, s, out);
    return true, s + 1, q;
  }

  lemma StoppedValue(was: seq<char>, s: nat, end: nat, quote: char)
    requires s <= end <= |was| && (s == end || was[s] == quote)
    ensures ReadValue(was[s..end], quote) == if s == end then Unterminated else Quoted([], was[s + 1..end])
  {
    if s < end {
      assert was[s..end][1..] == was[s + 1..end];
    }
  }

  lemma PrefixedTwice(a: string, b: string, q: Quoted)
    ensures Prefixed(a, Prefixed(b, q)) == Prefixed(a + b, q)
    ensures Prefixed([], q) == q
  {
    if q.Quoted? {
      assert a + (b + q.value) == (a + b) + q.value;
    }
  }

  /** Decoding what printing escaped, followed by a tag, leaves the text in the buffer with its line ends
      normalised, and continues after the '<'. */
  method DecodeEscaped(buf: array<char>, begin: nat, end: nat, text: string, rest: string) returns (next: nat)
    requires begin <= end < buf.Length && NoNul(text) && rest != [] && rest[0] == '<'
    requires buf[begin..end] == Escape(text, false) + rest
    modifies buf
    ensures begin + |Lines(text)| < buf.Length
    ensures buf[begin..begin + |Lines(text)|] == Lines(text) && buf[begin + |Lines(text)|] == '\0'
    ensures '\r' !in text ==> Lines(text) == text
    ensures next == end - |rest| + 1 && buf[next..end] == rest[1..]
  {
    hide ReadText, Escape, Lines;
    ReadEscapedText(text, rest);
    LinesIdentity(text);
    ghost var all := buf[begin..end];
    ghost var c;
    next, c := StrconvPcdata(buf, begin, end);
    assert forall k :: next <= k < end ==> buf[k] == all[k - begin];
    assert all[|all| - |rest|..] == rest;
    assert buf[next..end] == rest[1..];
  }
}
