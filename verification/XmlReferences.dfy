/** Character and entity references, in the terms of section 4.1 and 4.6 of XML 1.0: what a reader of text or of a value
    makes of them, and of an ampersand that starts none. */
module XmlReferences {
  import opened XmlText
  import Utf

  // ----- the predefined entities

  /** The character an entity stands for. */
  function Entity(name: string): string {
    if name == "amp" then "&"
    else if name == "lt" then "<"
    else if name == "gt" then ">"
    else if name == "quot" then "\""
    else if name == "apos" then "'"
    else ""
  }

  predicate Predefined(name: string) {
    name == "amp" || name == "lt" || name == "gt" || name == "quot" || name == "apos"
  }

  lemma EntityReference(name: string, rest: string)
    requires Predefined(name)
    ensures ReadReference("&" + name + ";" + rest) == Replaced(|name| + 2, Entity(name))
  {
    var s := "&" + name + ";" + rest;
    if name == "amp" {
      assert s == "&amp;" + rest;
      MatchedWord("&amp;", rest);
    } else if name == "lt" {
      assert s == "&lt;" + rest;
      MatchedWord("&lt;", rest);
    } else if name == "gt" {
      assert s == "&gt;" + rest;
      MatchedWord("&gt;", rest);
    } else if name == "quot" {
      assert s == "&quot;" + rest;
      MatchedWord("&quot;", rest);
    } else {
      assert s == "&apos;" + rest;
      MatchedWord("&apos;", rest);
    }
  }

  // ----- numbers

  /** The digit a character stands for, in either case; 16 if none. */
  function DigitOf(c: char): nat {
    if c == '0' then 0 else if c == '1' then 1 else if c == '2' then 2 else if c == '3' then 3
    else if c == '4' then 4 else if c == '5' then 5 else if c == '6' then 6 else if c == '7' then 7
    else if c == '8' then 8 else if c == '9' then 9
    else if c == 'a' || c == 'A' then 10 else if c == 'b' || c == 'B' then 11
    else if c == 'c' || c == 'C' then 12 else if c == 'd' || c == 'D' then 13
    else if c == 'e' || c == 'E' then 14 else if c == 'f' || c == 'F' then 15
    else 16
  }

  predicate Numeral(ds: string, base: nat) {
    ds != [] && forall i :: 0 <= i < |ds| ==> DigitOf(ds[i]) < base
  }

  /** The number ds spells, read from the left behind a number already read. */
  function Spelt(ds: string, base: nat, before: nat): nat {
    if ds == [] then before else Spelt(ds[1..], base, before * base + DigitOf(ds[0]))
  }

  lemma DigitIs(c: char)
    ensures DigitValue(c, 16) == if DigitOf(c) < 16 then DigitOf(c) else -1
    ensures DigitValue(c, 10) == if DigitOf(c) < 10 then DigitOf(c) else -1
  {
  }

  lemma {:induction false} SpeltLast(ds: string, base: nat, before: nat)
    requires ds != []
    ensures Spelt(ds, base, before) == Spelt(ds[..|ds| - 1], base, before) * base + DigitOf(ds[|ds| - 1])
    decreases |ds|
  {
    hide DigitOf;
    var n := |ds| - 1;
    if n == 0 {
      assert ds[..0] == [] && ds[1..] == [];
    } else {
      SpeltLast(ds[1..], base, before * base + DigitOf(ds[0]));
      assert ds[1..][..n - 1] == ds[..n][1..];
    }
  }

  /** No overflow below 2^32: the digits in front spell no more than the whole. */
  lemma {:induction false} CodePointSpelt(ds: string, base: nat)
    requires (base == 10 || base == 16) && (forall i :: 0 <= i < |ds| ==> DigitOf(ds[i]) < base)
    requires Spelt(ds, base, 0) < 0x1_0000_0000
    ensures forall i :: 0 <= i < |ds| ==> DigitValue(ds[i], base) >= 0
    ensures CodePoint(ds, base) == Spelt(ds, base, 0)
    decreases |ds|
  {
    forall i | 0 <= i < |ds| ensures DigitValue(ds[i], base) == DigitOf(ds[i]) {
      DigitIs(ds[i]);
    }
    hide DigitValue, DigitOf;
    if ds != [] {
      var n := |ds| - 1;
      SpeltLast(ds, base, 0);
      CodePointSpelt(ds[..n], base);
    }
  }

  /** The reference that spells ds. */
  function Numeric(ds: string, hex: bool): string {
    (if hex then "&#x" else "&#") + ds + ";"
  }

  lemma {:induction false} RunIs(ds: string, rest: string, base: nat)
    requires (base == 10 || base == 16) && (forall i :: 0 <= i < |ds| ==> DigitOf(ds[i]) < base)
    ensures DigitRun(ds + ";" + rest, base) == |ds|
  {
    hide DigitRun;
    var s := ds + ";" + rest;
    var n := DigitRun(s, base);
    forall i | 0 <= i < |ds| ensures DigitValue(s[i], base) >= 0 {
      DigitIs(s[i]);
    }
    DigitIs(';');
    assert s[|ds|] == ';';
  }

  lemma NumericReference(ds: string, hex: bool, rest: string)
    requires Numeral(ds, if hex then 16 else 10) && Spelt(ds, if hex then 16 else 10, 0) < 0x1_0000_0000
    ensures ReadReference(Numeric(ds, hex) + rest) ==
            Replaced(|Numeric(ds, hex)|, Utf8(Spelt(ds, if hex then 16 else 10, 0)))
  {
    hide DigitRun, CodePoint, Utf8, DigitOf, Spelt;
    var s := Numeric(ds, hex) + rest;
    var base, from := if hex then 16 else 10, if hex then 3 else 2;
    assert s[0] == '&' && s[1] == '#' && s[from..] == ds + ";" + rest;
    RunIs(ds, rest, base);
    CodePointSpelt(ds, base);
    assert s[from..from + |ds|] == ds && s[from + |ds|] == ';';
    if !hex {
      DigitIs('x');
      assert s[2] == ds[0];
      NotHexMark(ds[0]);
    } else {
      assert s[2] == 'x';
    }
  }

  lemma NotHexMark(c: char)
    requires DigitOf(c) < 10
    ensures c != 'x'
  {
  }

  /** The bytes written for a code point decode to it. */
  lemma Utf8Decodes(n: nat)
    requires n < 0xD800 || 0xE000 <= n < 0x110000
    ensures AllBytes(Utf8(n)) && Utf.Decode8(Bytes(Utf8(n))) == [if n < 0x10000 then Utf.Low(n) else Utf.High(n)]
  {
    hide Utf.Decode8, Utf.Lex8;
    var p := if n < 0x10000 then Utf.Low(n) else Utf.High(n);
    var b := Utf.Put8(p);
    assert Bytes(Chars(b)) == b;
    assert [p][1..] == [] && Utf.Write8([p]) == b + Utf.Write8([]) == b;
    Utf.Write8Decodes([p]);
  }

  // ----- reading

  lemma TextReplaced(s: string, n: nat, c: string)
    requires s != [] && s[0] == '&' && n <= |s| && ReadReference(s) == Replaced(n, c)
    ensures ReadText(s) == Content(c + ReadText(s[n..]).text, ReadText(s[n..]).rest)
  {
    hide ReadReference;
  }

  lemma ValueReplaced(s: string, quote: char, n: nat, c: string)
    requires s != [] && s[0] == '&' && quote != '&' && n <= |s| && ReadReference(s) == Replaced(n, c)
    ensures ReadValue(s, quote) == Prefixed(c, ReadValue(s[n..], quote))
  {
    hide ReadReference;
  }

  /** An entity reads as its character, in text and in values. */
  lemma EntityLaw(name: string, rest: string, quote: char)
    requires Predefined(name) && quote != '&'
    ensures ReadText("&" + name + ";" + rest) == Content(Entity(name) + ReadText(rest).text, ReadText(rest).rest)
    ensures ReadValue("&" + name + ";" + rest, quote) == Prefixed(Entity(name), ReadValue(rest, quote))
  {
    hide ReadReference, ReadText, ReadValue, Entity, Predefined;
    var s := "&" + name + ";" + rest;
    EntityReference(name, rest);
    assert s[|name| + 2..] == rest;
    TextReplaced(s, |name| + 2, Entity(name));
    ValueReplaced(s, quote, |name| + 2, Entity(name));
  }

  /** Every spelling of a code point, decimal or hexadecimal, in either case and with zeros in front, reads as bytes that
      decode to it, in text and in values. */
  lemma CharacterLaw(ds: string, hex: bool, rest: string, quote: char)
    requires Numeral(ds, if hex then 16 else 10) && quote != '&'
    requires var n := Spelt(ds, if hex then 16 else 10, 0); n < 0xD800 || 0xE000 <= n < 0x110000
    ensures var n := Spelt(ds, if hex then 16 else 10, 0);
            exists bytes: string ::
              && AllBytes(bytes) && Utf.Decode8(Bytes(bytes)) == [if n < 0x10000 then Utf.Low(n) else Utf.High(n)]
              && ReadText(Numeric(ds, hex) + rest) == Content(bytes + ReadText(rest).text, ReadText(rest).rest)
              && ReadValue(Numeric(ds, hex) + rest, quote) == Prefixed(bytes, ReadValue(rest, quote))
  {
    hide ReadReference, ReadText, ReadValue, Spelt, Utf8, Numeral, Utf.Decode8, AllBytes;
    var n := Spelt(ds, if hex then 16 else 10, 0);
    var s, k := Numeric(ds, hex) + rest, |Numeric(ds, hex)|;
    NumericReference(ds, hex, rest);
    Utf8Decodes(n);
    assert s[k..] == rest && s[0] == '&';
    TextReplaced(s, k, Utf8(n));
    ValueReplaced(s, quote, k, Utf8(n));
  }

  // ----- an ampersand that starts no reference

  predicate EntityAt(s: string) {
    "&amp;" <= s || "&lt;" <= s || "&gt;" <= s || "&quot;" <= s || "&apos;" <= s
  }

  ghost predicate NumberAt(s: string) {
    exists ds: string, hex: bool :: Numeral(ds, if hex then 16 else 10) && Numeric(ds, hex) <= s
  }

  /** A character that means nothing to a reader. */
  predicate Inert(c: char) {
    c == '#' || c == ';' || 'a' <= c <= 'z' || 'A' <= c <= 'Z' || '0' <= c <= '9'
  }

  predicate AllInert(s: string) {
    forall i :: 0 <= i < |s| ==> Inert(s[i])
  }

  lemma NamedKept(s: string, word: string, c: char)
    requires word != [] && AllInert(word[1..]) && !(word <= s)
    ensures var r := Named(s, word, c); r.Kept? && r.n <= |s| && (r.n > 0 ==> AllInert(s[1..r.n]))
  {
    var n := Matched(s, word);
    if n > 0 {
      forall i | 0 <= i < n - 1 ensures Inert(s[1..n][i]) {
        assert s[1..n][i] == s[..n][i + 1] == word[..n][i + 1] == word[1..][i];
      }
    }
  }

  /** What is replaced as a number is one. */
  lemma NumberFound(s: string)
    requires |s| > 1 && s[0] == '&' && s[1] == '#' && ReadReference(s).Replaced?
    ensures NumberAt(s)
  {
    hide Utf8, CodePoint, DigitRun;
    var hex := |s| > 2 && s[2] == 'x';
    var base, from := if hex then 16 else 10, if hex then 3 else 2;
    var n := DigitRun(s[from..], base);
    var ds := s[from..from + n];
    forall i | 0 <= i < n ensures DigitOf(ds[i]) < base {
      assert ds[i] == s[from..][i];
      DigitIs(ds[i]);
    }
    assert Numeral(ds, if hex then 16 else 10);
    assert Numeric(ds, hex) == s[..from + n + 1];
  }

  lemma NumberKept(s: string)
    requires |s| > 1 && s[0] == '&' && s[1] == '#' && ReadReference(s).Kept?
    ensures var n := ReadReference(s).n; 1 <= n <= |s| && AllInert(s[1..n])
  {
    hide Utf8, CodePoint, DigitRun, DigitOf;
    var hex := |s| > 2 && s[2] == 'x';
    var base, from := if hex then 16 else 10, if hex then 3 else 2;
    var n := DigitRun(s[from..], base);
    var run := s[1..from + n];
    forall i | 0 <= i < |run| ensures Inert(run[i]) {
      if i >= from - 1 {
        assert run[i] == s[from..][i + 1 - from];
        DigitInert(run[i], base);
      }
    }
  }

  lemma DigitInert(c: char, base: nat)
    requires DigitValue(c, base) >= 0
    ensures Inert(c)
  {
  }

  lemma ReferenceKept(s: string)
    requires s != [] && s[0] == '&' && !EntityAt(s) && !NumberAt(s)
    ensures var r := ReadReference(s); r.Kept? && 1 <= r.n <= |s| && AllInert(s[1..r.n])
  {
    hide NumberAt, Matched, AllInert, EntityAt;
    if |s| > 1 && s[1] == '#' {
      if ReadReference(s).Replaced? {
        NumberFound(s);
      }
      NumberKept(s);
    } else {
      EntitiesKept(s);
      MatchesFirst(s);
      ShortInert(s);
    }
  }

  lemma EntitiesKept(s: string)
    requires s != [] && s[0] == '&' && !EntityAt(s)
    ensures forall word: string, c: char :: word in {"&amp;", "&apos;", "&gt;", "&lt;", "&quot;"} ==>
              var r := Named(s, word, c); r.Kept? && r.n <= |s| && (r.n > 0 ==> AllInert(s[1..r.n]))
  {
    hide Matched;
    forall word: string, c: char | word in {"&amp;", "&apos;", "&gt;", "&lt;", "&quot;"}
      ensures var r := Named(s, word, c); r.Kept? && r.n <= |s| && (r.n > 0 ==> AllInert(s[1..r.n]))
    {
      NamedKept(s, word, c);
    }
  }

  lemma ShortInert(s: string)
    requires s != []
    ensures AllInert(s[1..1]) && (|s| > 1 && s[1] == 'a' ==> AllInert(s[1..2]))
  {
  }

  lemma MatchesFirst(s: string)
    requires s != [] && s[0] == '&'
    ensures Matched(s, "&amp;") >= 1 && Matched(s, "&apos;") >= 1 && Matched(s, "&gt;") >= 1 && Matched(s, "&lt;") >= 1
    ensures Matched(s, "&quot;") >= 1
  {
  }

  lemma {:induction false} InertRead(s: string, n: nat, quote: char)
    requires n <= |s| && AllInert(s[..n]) && (quote == '"' || quote == '\'')
    ensures ReadText(s) == Content(s[..n] + ReadText(s[n..]).text, ReadText(s[n..]).rest)
    ensures ReadValue(s, quote) == Prefixed(s[..n], ReadValue(s[n..], quote))
    decreases n
  {
    hide ReadText, ReadValue;
    if n == 0 {
      assert s[0..] == s && [] + ReadText(s).text == ReadText(s).text;
      PrefixNothing(ReadValue(s, quote));
    } else {
      var t := s[1..];
      assert s[..n][0] == s[0] && s == [s[0]] + t;
      var run := t[..n - 1];
      forall i | 0 <= i < |run| ensures Inert(run[i]) {
        assert run[i] == s[..n][i + 1];
      }
      InertRead(t, n - 1, quote);
      InertHead(s[0], t, quote);
      assert t[n - 1..] == s[n..] && s[..n] == [s[0]] + run;
      PrefixTwice([s[0]], run, ReadValue(s[n..], quote));
      assert [s[0]] + (run + ReadText(s[n..]).text) == s[..n] + ReadText(s[n..]).text;
    }
  }

  lemma InertHead(c: char, rest: string, quote: char)
    requires Inert(c) && (quote == '"' || quote == '\'')
    ensures ReadText([c] + rest) == Content([c] + ReadText(rest).text, ReadText(rest).rest)
    ensures ReadValue([c] + rest, quote) == Prefixed([c], ReadValue(rest, quote))
  {
    hide ReadText, ReadValue;
    TextLaws(c, rest);
    ValueLaws(c, rest, quote);
  }

  lemma PrefixNothing(q: Quoted)
    ensures Prefixed([], q) == q
  {
  }

  lemma PrefixTwice(a: string, b: string, q: Quoted)
    ensures Prefixed(a, Prefixed(b, q)) == Prefixed(a + b, q)
  {
    if q.Quoted? {
      assert a + (b + q.value) == (a + b) + q.value;
    }
  }

  /** An ampersand that starts no entity and no number stands for itself, and reading goes on right behind it. */
  lemma AmpersandLaw(s: string, quote: char)
    requires s != [] && s[0] == '&' && !EntityAt(s) && !NumberAt(s) && (quote == '"' || quote == '\'')
    ensures ReadText(s) == Content("&" + ReadText(s[1..]).text, ReadText(s[1..]).rest)
    ensures ReadValue(s, quote) == Prefixed("&", ReadValue(s[1..], quote))
  {
    hide *;
    ReferenceKept(s);
    KeptRead(s, quote);
    var n := ReadReference(s).n;
    var t, run := s[1..], s[1..n];
    assert t[..n - 1] == run && t[n - 1..] == s[n..] && s[..n] == "&" + run;
    InertRead(t, n - 1, quote);
    PrefixTwice("&", run, ReadValue(s[n..], quote));
    assert "&" + (run + ReadText(s[n..]).text) == s[..n] + ReadText(s[n..]).text;
  }

  lemma KeptRead(s: string, quote: char)
    requires s != [] && s[0] == '&' && ReadReference(s).Kept? && ReadReference(s).n <= |s| && quote != '&'
    ensures var n := ReadReference(s).n;
            && ReadText(s) == Content(s[..n] + ReadText(s[n..]).text, ReadText(s[n..]).rest)
            && ReadValue(s, quote) == Prefixed(s[..n], ReadValue(s[n..], quote))
  {
    hide ReadReference;
  }

  /** Every other character of text: a tag ends it, line ends become line feeds, the rest stand for themselves. */
  lemma TextLaws(c: char, rest: string)
    ensures c == '<' ==> ReadText([c] + rest) == Content("", [c] + rest)
    ensures c == '\r' && (rest == [] || rest[0] != '\n') ==> ReadText([c] + rest) == Content("\n" + ReadText(rest).text, ReadText(rest).rest)
    ensures c == '\r' && rest != [] && rest[0] == '\n' ==>
              ReadText([c] + rest) == Content("\n" + ReadText(rest[1..]).text, ReadText(rest[1..]).rest)
    ensures c != '<' && c != '\r' && c != '&' ==> ReadText([c] + rest) == Content([c] + ReadText(rest).text, ReadText(rest).rest)
    ensures ReadText("") == Content("", "")
  {
    hide ReadReference;
    var s := [c] + rest;
    assert s[1..] == rest && (rest != [] ==> s[1] == rest[0] && s[2..] == rest[1..]);
  }

  /** Every other character of a value: the quote ends it, white space and line ends become one space each. */
  lemma ValueLaws(c: char, rest: string, quote: char)
    requires quote == '"' || quote == '\''
    ensures c == quote ==> ReadValue([c] + rest, quote) == Quoted("", rest)
    ensures c in " \t\n" || (c == '\r' && (rest == [] || rest[0] != '\n')) ==> ReadValue([c] + rest, quote) == Prefixed(" ", ReadValue(rest, quote))
    ensures c == '\r' && rest != [] && rest[0] == '\n' ==> ReadValue([c] + rest, quote) == Prefixed(" ", ReadValue(rest[1..], quote))
    ensures c != quote && c !in " \t\n\r&" ==> ReadValue([c] + rest, quote) == Prefixed([c], ReadValue(rest, quote))
    ensures ReadValue("", quote) == Unterminated
  {
    hide ReadReference;
    var s := [c] + rest;
    assert s[1..] == rest && (rest != [] ==> s[1] == rest[0] && s[2..] == rest[1..]);
  }
}
