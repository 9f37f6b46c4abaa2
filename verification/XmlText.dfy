/** Character classes, escaping and unescaping of XML text. A character stands for one byte. */
module XmlText {
  import Utf

  predicate IsSpace(c: char) {
    c == ' ' || c == '\t' || c == '\n' || c == '\r'
  }

  predicate IsStartSymbol(c: char) {
    c as int > 127 || 'a' <= c <= 'z' || 'A' <= c <= 'Z' || c == '_' || c == ':'
  }

  predicate IsSymbol(c: char) {
    IsStartSymbol(c) || '0' <= c <= '9' || c == '-' || c == '.'
  }

  predicate NoNul(s: string) {
    forall i :: 0 <= i < |s| ==> s[i] != '\0'
  }

  /** What a reader of a NUL-terminated string sees of s. */
  function UpToNul(s: string): string {
    if s == [] || s[0] == '\0' then [] else [s[0]] + UpToNul(s[1..])
  }

  lemma {:induction false} CutNoNul(s: string)
    ensures NoNul(UpToNul(s))
    ensures NoNul(s) ==> UpToNul(s) == s
  {
    if s != [] {
      CutNoNul(s[1..]);
    }
  }

  // ----- printing

  /** Must this character be escaped in text, or in an attribute value? */
  predicate IsSpecial(c: char, attr: bool) {
    || c == '&' || c == '<' || c == '>'
    || (c as int < 32 && c != '\t' && (attr || (c != '\n' && c != '\r')))
    || (attr && c == '"')
  }

  function Digit(n: nat): char
    requires n < 10
  {
    '0' + n as char
  }

  function EscapeChar(c: char, attr: bool): string {
    if !IsSpecial(c, attr) then [c]
    else if c == '&' then "&amp;"
    else if c == '<' then "&lt;"
    else if c == '>' then "&gt;"
    else if c == '"' then "&quot;"
    else ['&', '#', Digit(c as int / 10), Digit(c as int % 10), ';']
  }

  function Escape(s: string, attr: bool): string {
    if s == [] then [] else EscapeChar(s[0], attr) + Escape(s[1..], attr)
  }

  // ----- numeric and named references

  function HexValue(c: char): int {
    if '0' <= c <= '9' then c as int - '0' as int
    else if 'a' <= c <= 'f' then c as int - 'a' as int + 10
    else if 'A' <= c <= 'F' then c as int - 'A' as int + 10
    else -1
  }

  function DecValue(c: char): int {
    if '0' <= c <= '9' then c as int - '0' as int else -1
  }

  function DigitValue(c: char, base: nat): (v: int)
    ensures v < 16
  {
    if base == 16 then HexValue(c) else DecValue(c)
  }

  /** How many digits s starts with. */
  function DigitRun(s: string, base: nat): (n: nat)
    ensures n <= |s|
    ensures forall i :: 0 <= i < n ==> DigitValue(s[i], base) >= 0
    ensures n < |s| ==> DigitValue(s[n], base) < 0
  {
    if s == [] || DigitValue(s[0], base) < 0 then 0 else 1 + DigitRun(s[1..], base)
  }

  /** The code point, in 32-bit arithmetic. */
  function CodePoint(s: string, base: nat): Utf.Dword
    requires forall i :: 0 <= i < |s| ==> DigitValue(s[i], base) >= 0
  {
    if s == [] then 0
    else (base * CodePoint(s[..|s| - 1], base) + DigitValue(s[|s| - 1], base)) % 0x1_0000_0000
  }

  /** Bytes as characters. */
  function Chars(bytes: seq<Utf.Byte>): (s: string)
    ensures |s| == |bytes|
  {
    seq(|bytes|, i requires 0 <= i < |bytes| => bytes[i] as char)
  }

  /** Characters as bytes. */
  function Bytes(s: string): (bytes: seq<Utf.Byte>)
    ensures |bytes| == |s|
  {
    seq(|s|, i requires 0 <= i < |s| => s[i] as int % 256)
  }

  lemma BytesJoin(s: string, t: string)
    ensures Bytes(s + t) == Bytes(s) + Bytes(t)
  {
  }

  /** Every character is a byte. */
  predicate AllBytes(s: string) {
    forall i :: 0 <= i < |s| ==> s[i] as int < 256
  }

  /** The bytes written for a code point. */
  function Utf8(ch: Utf.Dword): (bytes: string)
    ensures 1 <= |bytes| <= 4
  {
    Chars(Utf.Put8(if ch < 0x10000 then Utf.Low(ch) else Utf.High(ch)))
  }

  /** Outcome of a reference: n characters are read; they become text, or stay as they are. */
  datatype Reference = Replaced(n: nat, text: string) | Kept(n: nat)

  /** Length of the common prefix of s and word. */
  function Matched(s: string, word: string): (n: nat)
    ensures n <= |s| && n <= |word| && s[..n] == word[..n]
    ensures n < |s| && n < |word| ==> s[n] != word[n]
  {
    if s == [] || word == [] || s[0] != word[0] then 0 else 1 + Matched(s[1..], word[1..])
  }

  /** A named reference, given what follows the first letter that chose it. */
  function Named(s: string, word: string, c: char): Reference {
    var n := Matched(s, word);
    if n == |word| then Replaced(n, [c]) else Kept(n)
  }

  /** A reference at the start of s; on failure scanning resumes where the match broke off. */
  function ReadReference(s: string): Reference
    requires s != [] && s[0] == '&'
  {
    if |s| == 1 then Kept(1)
    else if s[1] == '#' then
      var hex := |s| > 2 && s[2] == 'x';
      var base := if hex then 16 else 10;
      var from := if hex then 3 else 2;
      var n := DigitRun(s[from..], base);
      if n > 0 && from + n < |s| && s[from + n] == ';'
      then Replaced(from + n + 1, Utf8(CodePoint(s[from..from + n], base)))
      else Kept(from + n)
    else if s[1] == 'a' then
      if |s| > 2 && s[2] == 'm' then Named(s, "&amp;", '&')
      else if |s| > 2 && s[2] == 'p' then Named(s, "&apos;", '\'')
      else Kept(2)
    else if s[1] == 'g' then Named(s, "&gt;", '>')
    else if s[1] == 'l' then Named(s, "&lt;", '<')
    else if s[1] == 'q' then Named(s, "&quot;", '"')
    else Kept(1)
  }

  /** A reference reads at least one character and never grows. */
  lemma ReferenceShrinks(s: string)
    requires s != [] && s[0] == '&'
    ensures 1 <= ReadReference(s).n <= |s|
    ensures ReadReference(s).Replaced? ==> |ReadReference(s).text| < ReadReference(s).n
  {
    if |s| > 1 && s[1] == '#' {
      var hex := |s| > 2 && s[2] == 'x';
      var base := if hex then 16 else 10;
      var from := if hex then 3 else 2;
      var n := DigitRun(s[from..], base);
      if ReadReference(s).Replaced? {
        CodePointSize(s[from..from + n], base);
      }
    }
  }

  /** A code point of few digits is small. */
  lemma CodePointSize(s: string, base: nat)
    requires (base == 10 || base == 16) && forall i :: 0 <= i < |s| ==> DigitValue(s[i], base) >= 0
    ensures |s| == 1 ==> CodePoint(s, base) < 0x80
    ensures |s| == 0 ==> CodePoint(s, base) < 0x80
  {
    if |s| == 1 {
      assert CodePoint(s[..0], base) == 0;
    }
  }

  function TextOf(s: string, r: Reference): string
    requires r.n <= |s|
  {
    match r case Replaced(_, text) => text case Kept(n) => s[..n]
  }

  // ----- reading text content

  /** Text up to the next '<' or the end, and what is left from there. */
  datatype Content = Content(text: string, rest: string)

  function ReadText(s: string): (c: Content)
    ensures |c.rest| <= |s|
    ensures c.rest != [] ==> c.rest[0] == '<'
    decreases |s|
  {
    if s == [] then Content([], [])
    else if s[0] == '<' then Content([], s)
    else if s[0] == '\r' then
      var c := ReadText(if |s| > 1 && s[1] == '\n' then s[2..] else s[1..]);
      Content(['\n'] + c.text, c.rest)
    else if s[0] == '&' then
      ReferenceShrinks(s);
      var r := ReadReference(s);
      var c := ReadText(s[r.n..]);
      Content(TextOf(s, r) + c.text, c.rest)
    else
      var c := ReadText(s[1..]);
      Content([s[0]] + c.text, c.rest)
  }

  /** Line ends as the parser normalises them. */
  function Lines(s: string): string {
    if s == [] then []
    else if s[0] == '\r' then ['\n'] + Lines(if |s| > 1 && s[1] == '\n' then s[2..] else s[1..])
    else [s[0]] + Lines(s[1..])
  }

  /** One line end, or one other character. */
  lemma LinesHead(t: string)
    requires t != []
    ensures var n := if t[0] == '\r' && |t| > 1 && t[1] == '\n' then 2 else 1;
            Lines(t) == [if t[0] == '\r' then '\n' else t[0]] + Lines(t[n..])
  {
  }

  // ----- reading attribute values

  datatype Quoted = Unterminated | Quoted(value: string, rest: string)

  function ReadValue(s: string, quote: char): (q: Quoted)
    ensures q.Quoted? ==> |q.rest| < |s|
    decreases |s|
  {
    if s == [] then Unterminated
    else if s[0] == quote then Quoted([], s[1..])
    else if IsSpace(s[0]) then Prefixed(" ", ReadValue(if s[0] == '\r' && |s| > 1 && s[1] == '\n' then s[2..] else s[1..], quote))
    else if s[0] == '&' then
      ReferenceShrinks(s);
      var r := ReadReference(s);
      Prefixed(TextOf(s, r), ReadValue(s[r.n..], quote))
    else Prefixed([s[0]], ReadValue(s[1..], quote))
  }

  function Prefixed(p: string, q: Quoted): Quoted {
    match q case Unterminated => Unterminated case Quoted(v, rest) => Quoted(p + v, rest)
  }

  function TabsToSpaces(s: string): string {
    seq(|s|, i requires 0 <= i < |s| => if s[i] == '\t' then ' ' else s[i])
  }

  // ----- unescaping undoes escaping

  /** One escaped character is read back as one reference. */
  lemma EscapedReference(c: char, attr: bool, rest: string)
    requires IsSpecial(c, attr) && c != '\0'
    ensures var e := EscapeChar(c, attr) + rest;
            e[0] == '&' && ReadReference(e) == Replaced(|EscapeChar(c, attr)|, [c])
  {
    var esc := EscapeChar(c, attr);
    var e := esc + rest;
    if c == '&' {
      MatchedWord("&amp;", rest);
    } else if c == '<' {
      MatchedWord("&lt;", rest);
    } else if c == '>' {
      MatchedWord("&gt;", rest);
    } else if c == '"' {
      MatchedWord("&quot;", rest);
    } else {
      NumericReference(c, rest);
    }
  }

  lemma MatchedWord(word: string, rest: string)
    ensures Matched(word + rest, word) == |word|
  {
    assert forall i :: 0 <= i < |word| ==> (word + rest)[i] == word[i];
  }

  lemma NumericReference(c: char, rest: string)
    requires 0 < c as int < 32
    ensures var esc := ['&', '#', Digit(c as int / 10), Digit(c as int % 10), ';'];
            ReadReference(esc + rest) == Replaced(5, [c])
  {
    var d1, d2 := Digit(c as int / 10), Digit(c as int % 10);
    var s := ['&', '#', d1, d2, ';'] + rest;
    var tail := s[2..];
    assert tail[0] == d1 && tail[1] == d2 && tail[2] == ';';
    assert DigitValue(d1, 10) == c as int / 10 && DigitValue(d2, 10) == c as int % 10;
    assert DigitRun(tail, 10) == 2 by {
      assert tail[1..][0] == d2 && tail[1..][1..][0] == ';';
      assert DigitRun(tail[1..][1..], 10) == 0;
      assert DigitRun(tail[1..], 10) == 1;
    }
    var digits := s[2..4];
    assert digits == [d1, d2] && digits[..1] == [d1] && digits[..1][..0] == [];
    assert CodePoint([d1], 10) == c as int / 10;
    assert CodePoint([d1, d2], 10) == c as int;
    assert Utf8(c as int) == [c];
  }

  // one step of reading

  lemma ReadsReference(e: string, n: nat, c: char, after: string)
    requires n <= |e| && e != [] && e[0] == '&' && ReadReference(e) == Replaced(n, [c]) && e[n..] == after
    ensures ReadText(e) == Content([c] + ReadText(after).text, ReadText(after).rest)
  {
    hide ReadReference;
  }

  lemma ReadsPlain(c: char, after: string)
    requires c != '<' && c != '&' && c != '\r'
    ensures ReadText([c] + after) == Content([c] + ReadText(after).text, ReadText(after).rest)
  {
    hide ReadReference;
    assert ([c] + after)[1..] == after;
  }

  lemma ReadsLineEnd(after: string)
    ensures var next := if after != [] && after[0] == '\n' then after[1..] else after;
            ReadText(['\r'] + after) == Content(['\n'] + ReadText(next).text, ReadText(next).rest)
  {
    hide ReadReference;
    var e := ['\r'] + after;
    assert e[1..] == after;
    assert after != [] ==> e[1] == after[0] && e[2..] == after[1..];
  }

  lemma EscapeSplit(s: string, attr: bool, rest: string)
    requires s != []
    ensures Escape(s, attr) + rest == EscapeChar(s[0], attr) + (Escape(s[1..], attr) + rest)
  {
    hide EscapeChar;
  }

  /** Reading back printed text gives the text with its line ends normalised, and nothing else is touched. */
  lemma {:induction false} ReadEscapedText(s: string, rest: string)
    requires NoNul(s) && rest != [] && rest[0] == '<'
    ensures ReadText(Escape(s, false) + rest) == Content(Lines(s), rest)
    decreases |s|
  {
    hide ReadReference;
    if s == [] {
      assert Escape(s, false) + rest == rest;
    } else {
      hide ReadText, Escape;
      var c := s[0];
      var e := Escape(s, false) + rest;
      var after := Escape(s[1..], false) + rest;
      EscapeSplit(s, false, rest);
      if IsSpecial(c, false) {
        EscapedReference(c, false, after);
        assert e[|EscapeChar(c, false)|..] == after;
        ReadsReference(e, |EscapeChar(c, false)|, c, after);
        ReadEscapedText(s[1..], rest);
      } else if c == '\r' {
        EscapeHead(s[1..], rest);
        ReadsLineEnd(after);
        if |s| > 1 && s[1] == '\n' {
          assert s[1..][1..] == s[2..];
          ReadEscapedText(s[2..], rest);
        } else {
          ReadEscapedText(s[1..], rest);
        }
      } else {
        ReadsPlain(c, after);
        ReadEscapedText(s[1..], rest);
      }
    }
  }

  /** Escaped text starts with a line feed only if the text does. */
  lemma EscapeHead(s: string, rest: string)
    requires rest != [] && rest[0] == '<'
    ensures var e := Escape(s, false) + rest;
            e != [] && (e[0] == '\n' <==> s != [] && s[0] == '\n')
            && (s != [] && s[0] == '\n' ==> e[1..] == Escape(s[1..], false) + rest)
  {
    if s != [] {
      assert Escape(s, false) + rest == EscapeChar(s[0], false) + (Escape(s[1..], false) + rest);
    }
  }

  /** Reading back a printed attribute value gives the value with tabs turned into spaces. */
  lemma {:induction false} ReadEscapedValue(s: string, rest: string)
    requires NoNul(s)
    ensures ReadValue(Escape(s, true) + ['"'] + rest, '"') == Quoted(TabsToSpaces(s), rest)
    decreases |s|
  {
    var e := Escape(s, true) + ['"'] + rest;
    if s == [] {
      assert e == ['"'] + rest;
    } else {
      var c := s[0];
      var after := Escape(s[1..], true) + ['"'] + rest;
      assert e == EscapeChar(c, true) + after;
      assert e[|EscapeChar(c, true)|..] == after;
      assert TabsToSpaces(s) == [if c == '\t' then ' ' else c] + TabsToSpaces(s[1..]);
      if IsSpecial(c, true) {
        EscapedReference(c, true, after);
      }
      ReadEscapedValue(s[1..], rest);
    }
  }

  /** In-place decoding undoes escaping exactly for text without carriage returns. */
  lemma {:induction false} LinesIdentity(s: string)
    ensures Lines(s) == s <==> '\r' !in s
    decreases |s|
  {
    LinesLength(s);
    if s != [] {
      LinesIdentity(s[1..]);
      LinesLength(s[1..]);
      assert s == [s[0]] + s[1..];
      if s[0] == '\r' {
        assert Lines(s)[0] == '\n';
      }
    }
  }

  lemma {:induction false} LinesLength(s: string)
    ensures |Lines(s)| <= |s|
    decreases |s|
  {
    if s != [] {
      LinesLength(s[1..]);
      if |s| > 1 { LinesLength(s[2..]); }
    }
  }
}
