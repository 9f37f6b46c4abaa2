/** Saving a document and loading it again: walk, buffered writer, and the parser in place. */
module XmlSave {
  import opened Documents
  import opened XmlText
  import opened XmlParser
  import opened XmlPrint
  import opened XmlTree
  import opened XmlOutput
  import opened XmlSegments
  import XmlParseTree
  import W = BufferedWriters
  import C = OutputConversion
  import I = InputConversion
  import Utf

  // ----- what is printed before the document

  function Bom(): (s: string)
    ensures |s| == 3 && s[0] as int == 0xEF
  {
    [0xEF as char, 0xBB as char, 0xBF as char]
  }

  function Opening(latin1: bool): Tree {
    Tree.Declaration("xml", [Attribute("version", "1.0")] + (if latin1 then [Attribute("encoding", "ISO-8859-1")] else []))
  }

  /** What save() prints: a byte-order mark if asked for, a declaration unless there is one, and the document. */
  function Saved(doc: seq<Tree>, enc: C.Encoding, bom: bool): seq<Tree> {
    (if bom && !enc.Latin1? then [Text(Bom())] else []) + (if Declares(doc) then [] else [Opening(enc.Latin1?)]) + doc
  }

  lemma {:induction false} PlainEscape(s: string, attr: bool)
    requires forall i :: 0 <= i < |s| ==> !IsSpecial(s[i], attr)
    ensures Escape(s, attr) == s
  {
    if s != [] {
      PlainEscape(s[1..], attr);
    }
  }

  lemma BomText()
    ensures PrintAll([Text(Bom())]) == Bom()
  {
    PlainEscape(Bom(), false);
    LastPrinted(Text(Bom()));
  }

  lemma DeclarationText(latin1: bool)
    ensures PrintAll([Opening(latin1)]) ==
            "<?xml version=\"1.0\"" + (if latin1 then " encoding=\"ISO-8859-1\"" else "") + "?>"
  {
    hide PrintAttributes, PrintAll;
    var version, encoding := Attribute("version", "1.0"), Attribute("encoding", "ISO-8859-1");
    var more := if latin1 then [encoding] else [];
    AnyDeclaration([version] + more);
    VersionText(more);
    if latin1 {
      EncodingText();
    } else {
      NoAttributesText();
    }
    assert "<?xml" + " version=\"1.0\"" == "<?xml version=\"1.0\"";
  }

  lemma AnyDeclaration(attrs: seq<Attribute>)
    ensures PrintAll([Tree.Declaration("xml", attrs)]) == "<?xml" + PrintAttributes(attrs) + "?>"
  {
    hide PrintAttributes, PrintAll;
    LastPrinted(Tree.Declaration("xml", attrs));
    assert "<?" + "xml" == "<?xml" && "?" + ">" == "?>";
  }

  lemma VersionText(more: seq<Attribute>)
    ensures PrintAttributes([Attribute("version", "1.0")] + more) == " version=\"1.0\"" + PrintAttributes(more)
  {
    hide PrintAttributes, Escape;
    OneAttributeText(Attribute("version", "1.0"), more);
    VersionPlain();
    assert " " + "version" + "=\"" + "1.0" + "\"" == " version=\"1.0\"";
  }

  lemma EncodingText()
    ensures PrintAttributes([Attribute("encoding", "ISO-8859-1")]) == " encoding=\"ISO-8859-1\""
  {
    hide PrintAttributes, Escape;
    var a := Attribute("encoding", "ISO-8859-1");
    OneAttributeText(a, []);
    VersionPlain();
    NoAttributesText();
    assert [a] + [] == [a] && " " + "encoding" + "=\"" + "ISO-8859-1" + "\"" + "" == " encoding=\"ISO-8859-1\"";
  }

  lemma VersionPlain()
    ensures Escape("1.0", true) == "1.0" && Escape("ISO-8859-1", true) == "ISO-8859-1"
  {
    PlainEscape("1.0", true);
    PlainEscape("ISO-8859-1", true);
  }

  lemma NoAttributesText()
    ensures PrintAttributes([]) == ""
  {
  }

  lemma OneAttributeText(a: Attribute, more: seq<Attribute>)
    requires a.name != []
    ensures PrintAttributes([a] + more) == " " + a.name + "=\"" + Escape(a.value, true) + "\"" + PrintAttributes(more)
  {
    hide Escape;
    assert ([a] + more)[1..] == more;
  }

  /** A declaration is added exactly if none stands before the first element. */
  lemma DeclarationLaw(doc: seq<Tree>, enc: C.Encoding)
    ensures (exists i :: 0 <= i < |doc| && doc[i].Declaration? && forall j :: 0 <= j < i ==> !doc[j].Elem?) ==>
              Saved(doc, enc, false) == doc
    ensures !(exists i :: 0 <= i < |doc| && doc[i].Declaration? && forall j :: 0 <= j < i ==> !doc[j].Elem?) ==>
              Saved(doc, enc, false) == [Opening(enc.Latin1?)] + doc
  {
    hide Declares, Opening;
    DeclaresIs(doc);
    assert [] + [] + doc == doc;
    assert [] + [Opening(enc.Latin1?)] + doc == [Opening(enc.Latin1?)] + doc;
  }

  lemma {:induction false} DeclaresIs(ts: seq<Tree>)
    ensures Declares(ts) <==> exists i :: 0 <= i < |ts| && ts[i].Declaration? && forall j :: 0 <= j < i ==> !ts[j].Elem?
  {
    if ts != [] {
      var rest := ts[1..];
      DeclaresIs(rest);
      if ts[0].Declaration? {
        var i := 0;
        assert ts[i].Declaration?;
      } else if Declares(ts) {
        var i :| 0 <= i < |rest| && rest[i].Declaration? && forall j :: 0 <= j < i ==> !rest[j].Elem?;
        assert ts[i + 1].Declaration?;
        forall j | 0 <= j < i + 1 ensures !ts[j].Elem? {
          assert j > 0 ==> ts[j] == rest[j - 1];
        }
      }
      if i :| 0 <= i < |ts| && ts[i].Declaration? && forall j :: 0 <= j < i ==> !ts[j].Elem? {
        if i > 0 {
          assert rest[i - 1].Declaration?;
          forall j | 0 <= j < i - 1 ensures !rest[j].Elem? {
            assert rest[j] == ts[j + 1];
          }
        }
      }
    }
  }

  // ----- saving

  lemma StartFaithful(enc: C.Encoding)
    ensures W.Faithful(enc, W.Progress([], [])) && W.Text(W.Progress([], [])) == []
  {
    W.AfterFaithful(enc, []);
  }

  /** Saving without indentation: the bytes handed over are the printed text in the encoding asked for. */
  method Save(d: Doc, enc: C.Encoding, littleEndian: bool, bom: bool) returns (sink: seq<Utf.Byte>)
    requires d.Valid() && OneDocument(d) && d.kind[0] == NodeKind.Document
    ensures SeamlessDoc(enc, d) ==> sink == C.Converted(enc, Bytes(PrintAll(Saved(NodesAt(d, 0), enc, bom))))
  {
    hide *;
    Bounds(d);
    var w := new W.Writer(enc, littleEndian);
    ghost var was, ok := w.State(), SeamlessDoc(enc, d);
    ghost var out := "";
    WroteNothing(enc, was, ok);
    HasStart(w, was, ok);
    ghost var doc := NodesAt(d, 0);
    if bom && !enc.Latin1? {
      out := Put(w, Bom(), was, out, ok);
    }
    ghost var first := out;
    assert first == if bom && !enc.Latin1? then Bom() else "";
    var declared := HasDeclaration(d);
    if !declared {
      LiteralStarts(enc);
      out := PutString(w, "<?xml version=\"1.0\"", was, out, ok);
      if enc.Latin1? {
        out := PutString(w, " encoding=\"ISO-8859-1\"", was, out, ok);
      }
      out := Put(w, "?>", was, out, ok);
    }
    assert out == first + if declared then ""
                          else "<?xml version=\"1.0\"" + (if enc.Latin1? then " encoding=\"ISO-8859-1\"" else "") + "?>";
    out := NodeOutput(w, d, 0, was, out, ok);
    HasMeans(w, was, out, ok);
    SavedText(doc, enc, bom);
    StartFaithful(enc);
    assert [] + Bytes(out) == Bytes(out);
    w.Flush();
    sink := w.sink;
  }

  lemma HasStart(w: W.Writer, was: W.Progress, ok: bool)
    requires w.Valid() && was == w.State() && Wrote(w.encoding, was, was, "", ok)
    ensures Has(w, was, "", ok)
  {
  }

  lemma HasMeans(w: W.Writer, was: W.Progress, out: string, ok: bool)
    requires Has(w, was, out, ok)
    ensures w.Valid() && W.Text(w.State()) == W.Text(was) + Bytes(out)
    ensures ok && W.Faithful(w.encoding, was) ==> W.Faithful(w.encoding, w.State())
  {
  }

  lemma LiteralStarts(enc: C.Encoding)
    ensures Starts(enc, "<?xml version=\"1.0\"") && Starts(enc, " encoding=\"ISO-8859-1\"")
  {
    AsciiStarts(enc, "<?xml version=\"1.0\"");
    AsciiStarts(enc, " encoding=\"ISO-8859-1\"");
  }

  lemma SavedText(doc: seq<Tree>, enc: C.Encoding, bom: bool)
    ensures PrintAll(Saved(doc, enc, bom)) ==
            (if bom && !enc.Latin1? then Bom() else "")
            + (if Declares(doc) then ""
               else "<?xml version=\"1.0\"" + (if enc.Latin1? then " encoding=\"ISO-8859-1\"" else "") + "?>")
            + PrintAll(doc)
  {
    hide PrintAll, Declares, Bom, Opening;
    var a := if bom && !enc.Latin1? then [Text(Bom())] else [];
    var b := if Declares(doc) then [] else [Opening(enc.Latin1?)];
    BomText();
    DeclarationText(enc.Latin1?);
    NothingText();
    PrintJoin(a + b, doc);
    PrintJoin(a, b);
  }

  // ----- what comes back

  /** What is printed before the document leaves nothing behind. */
  lemma SavedNormal(doc: seq<Tree>, enc: C.Encoding, bom: bool)
    requires Printable(doc, true)
    ensures Printable(Saved(doc, enc, bom), true)
    ensures Normal(WithoutText(Saved(doc, enc, bom))) == Normal(WithoutText(doc))
    ensures HasElement(Saved(doc, enc, bom)) <==> HasElement(doc)
  {
    hide Printable, Normal, WithoutText, HasElement, Declares, Bom, Opening;
    var b := if Declares(doc) then [] else [Opening(enc.Latin1?)];
    var rest := b + doc;
    assert [] + doc == doc && [] + rest == rest;
    if !Declares(doc) {
      OpeningSkipped(enc.Latin1?, doc);
    }
    if bom && !enc.Latin1? {
      BomSkippedToo(rest);
      assert [Text(Bom())] + b + doc == [Text(Bom())] + rest;
    } else {
      assert [] + b + doc == rest;
    }
  }

  lemma OpeningSkipped(latin1: bool, doc: seq<Tree>)
    requires Printable(doc, true)
    ensures Printable([Opening(latin1)] + doc, true)
    ensures Normal(WithoutText([Opening(latin1)] + doc)) == Normal(WithoutText(doc))
    ensures HasElement([Opening(latin1)] + doc) <==> HasElement(doc)
  {
    hide Normal, HasElement;
    var t := Opening(latin1);
    var all := [t] + doc;
    OpeningPrintable(latin1);
    forall i | 0 <= i < |all| ensures PrintableNode(all[i], true) {
      assert i > 0 ==> all[i] == doc[i - 1];
    }
    assert all[1..] == doc && WithoutText(all) == [t] + WithoutText(doc);
    NormalMore(t, WithoutText(doc));
    NodeCases(t);
    assert [] + Normal(WithoutText(doc)) == Normal(WithoutText(doc));
    HasOne(t, doc);
  }

  lemma OpeningPrintable(latin1: bool)
    ensures PrintableNode(Opening(latin1), true)
  {
    assert IsName("xml") && IsName("version") && IsName("encoding");
    assert NoNul("1.0") && NoNul("ISO-8859-1");
  }

  lemma BomSkippedToo(doc: seq<Tree>)
    requires Printable(doc, true)
    ensures Printable([Text(Bom())] + doc, true)
    ensures Normal(WithoutText([Text(Bom())] + doc)) == Normal(WithoutText(doc))
    ensures HasElement([Text(Bom())] + doc) <==> HasElement(doc)
  {
    hide Normal, HasElement;
    var t := Text(Bom());
    var all := [t] + doc;
    forall i | 0 <= i < |all| ensures PrintableNode(all[i], true) {
      assert i > 0 ==> all[i] == doc[i - 1];
    }
    assert all[1..] == doc && WithoutText(all) == [] + WithoutText(doc) == WithoutText(doc);
    HasOne(t, doc);
  }

  /** The text save() hands over, as a parse buffer: in place, or copied with a terminator behind it. */
  function Buffer(doc: seq<Tree>, enc: C.Encoding, bom: bool, copied: bool): string {
    PrintAll(Saved(doc, enc, bom)) + if copied then ['\0'] else []
  }

  /** Saving and loading gives the normalised document for every printable one, and gives any document at all back
      unchanged exactly when it is a printable, clean one. */
  lemma SaveLoad(doc: seq<Tree>, enc: C.Encoding, bom: bool, copied: bool)
    ensures Printable(doc, true) ==>
              ParseDocument(Buffer(doc, enc, bom, copied)) ==
              if HasElement(doc) then Ok(Normal(WithoutText(doc))) else Fail(NoDocumentElement)
    ensures ParseDocument(Buffer(doc, enc, bom, copied)) == Ok(doc) <==> IsDocument(doc) && Printable(doc, true) && Clean(doc)
  {
    hide ParseDocument, PrintAll, Printable, HasElement, Normal, WithoutText, Clean, Made, NoText, Saved;
    DocumentMade(Buffer(doc, enc, bom, copied));
    if ParseDocument(Buffer(doc, enc, bom, copied)) == Ok(doc) {
      MadePrintable(doc, true);
    }
    if Printable(doc, true) {
      var saved := Saved(doc, enc, bom);
      SavedNormal(doc, enc, bom);
      PrintThenParse(saved);
      PrintThenLoad(saved);
      assert PrintAll(saved) + [] == PrintAll(saved);
    }
    WithoutTextNone(doc);
    NormalIdentity(doc);
  }

  // ----- the text as code points

  ghost predicate Expresses(enc: C.Encoding, ps: seq<Utf.Point>) {
    forall i :: 0 <= i < |ps| ==> I.Expressible(enc, ps[i])
  }

  /** The text is whole UTF-8 that the encoding can express; natively any text will do. */
  ghost predicate Sound(enc: C.Encoding, text: string) {
    enc.Utf8? || exists ps :: Expresses(enc, ps) && Bytes(text) == Utf.Write8(ps)
  }

  lemma {:induction false} Write8Join(p: seq<Utf.Point>, q: seq<Utf.Point>)
    ensures Utf.Write8(p + q) == Utf.Write8(p) + Utf.Write8(q)
  {
    hide Utf.Put8;
    if p == [] {
      assert p + q == q;
    } else {
      assert (p + q)[1..] == p[1..] + q;
      Write8Join(p[1..], q);
    }
  }

  lemma SoundJoin(enc: C.Encoding, a: string, b: string)
    requires Sound(enc, a) && Sound(enc, b)
    ensures Sound(enc, a + b)
  {
    hide Utf.Write8, I.Expressible;
    if !enc.Utf8? {
      var p :| Expresses(enc, p) && Bytes(a) == Utf.Write8(p);
      var q :| Expresses(enc, q) && Bytes(b) == Utf.Write8(q);
      Write8Join(p, q);
      BytesJoin(a, b);
      assert Expresses(enc, p + q);
    }
  }

  lemma {:induction false} AsciiSound(enc: C.Encoding, s: string)
    requires forall i :: 0 <= i < |s| ==> s[i] as int < 128
    ensures Sound(enc, s)
  {
    if s == [] {
      assert Expresses(enc, []) && Bytes(s) == Utf.Write8([]);
    } else {
      AsciiSound(enc, s[1..]);
      var ps := [Utf.Low(s[0] as int)];
      assert ps[1..] == [] && Bytes([s[0]]) == Utf.Write8(ps) && Expresses(enc, ps);
      SoundJoin(enc, [s[0]], s[1..]);
      assert [s[0]] + s[1..] == s;
    }
  }

  lemma BomSound(enc: C.Encoding)
    requires !enc.Latin1?
    ensures Sound(enc, Bom()) && AllBytes(Bom())
  {
    var ps := [Utf.Low(0xFEFF)];
    assert ps[1..] == [] && Bytes(Bom()) == Utf.Write8(ps) && Expresses(enc, ps);
  }

  lemma OpeningSound(enc: C.Encoding)
    ensures Sound(enc, "<?xml version=\"1.0\"") && Sound(enc, " encoding=\"ISO-8859-1\"") && Sound(enc, "?>") && Sound(enc, "")
    ensures AllBytes("<?xml version=\"1.0\"") && AllBytes(" encoding=\"ISO-8859-1\"") && AllBytes("?>") && AllBytes("")
  {
    hide Sound;
    AsciiSound(enc, "<?xml version=\"1.0\"");
    AsciiSound(enc, " encoding=\"ISO-8859-1\"");
    AsciiSound(enc, "?>");
    AsciiSound(enc, "");
  }

  lemma AllBytesJoin(a: string, b: string)
    requires AllBytes(a) && AllBytes(b)
    ensures AllBytes(a + b)
  {
  }

  lemma SavedSound(doc: seq<Tree>, enc: C.Encoding, bom: bool)
    requires Sound(enc, PrintAll(doc)) && AllBytes(PrintAll(doc))
    ensures Sound(enc, PrintAll(Saved(doc, enc, bom))) && AllBytes(PrintAll(Saved(doc, enc, bom)))
  {
    hide Sound, AllBytes, PrintAll, Saved, Bom, Declares;
    SavedText(doc, enc, bom);
    OpeningSound(enc);
    var a := if bom && !enc.Latin1? then Bom() else "";
    if !enc.Latin1? {
      BomSound(enc);
    }
    var v, e := "<?xml version=\"1.0\"", if enc.Latin1? then " encoding=\"ISO-8859-1\"" else "";
    var b := if Declares(doc) then "" else v + e + "?>";
    SoundJoin(enc, v, e);
    SoundJoin(enc, v + e, "?>");
    SoundJoin(enc, a, b);
    SoundJoin(enc, a + b, PrintAll(doc));
    AllBytesJoin(v, e);
    AllBytesJoin(v + e, "?>");
    AllBytesJoin(a, b);
    AllBytesJoin(a + b, PrintAll(doc));
  }

  /** Sound text is read back from its encoding as it was. */
  lemma SoundBack(enc: C.Encoding, text: string)
    requires Sound(enc, text)
    ensures I.AsUtf8(enc, C.Converted(enc, Bytes(text))) == Bytes(text)
  {
    hide Utf.Write8, I.Expressible;
    if !enc.Utf8? {
      hide I.AsUtf8, C.Converted;
      var ps :| Expresses(enc, ps) && Bytes(text) == Utf.Write8(ps);
      I.ConvertedBack(enc, ps);
    }
  }

  // ----- both ways

  /** Loading a buffer: convert to UTF-8, then parse in place. */
  method Load(bytes: seq<Utf.Byte>, enc: C.Encoding, littleEndian: bool, inPlace: bool)
    returns (buf: array<char>, r: ParsedAt, terminated: bool)
    ensures ViewParsed(buf[..], r) == ParseDocument(Chars(I.AsUtf8(enc, bytes) + if terminated then [0] else []))
    ensures r.OkAt? ==> Settled(buf[..], buf.Length, r.kids)
  {
    hide *;
    var buffer;
    buffer, terminated := I.ConvertBuffer(bytes, enc, littleEndian, inPlace);
    buf := new char[buffer.Length](i requires 0 <= i < buffer.Length reads buffer => buffer[i] as char);
    CharsAre(buffer[..], buf[..]);
    r := XmlParseTree.Parse(buf);
  }

  lemma CharsAre(bytes: seq<Utf.Byte>, s: string)
    requires |s| == |bytes| && forall i :: 0 <= i < |s| ==> s[i] == bytes[i] as char
    ensures s == Chars(bytes)
  {
  }

  lemma CharsText(text: string, terminated: bool)
    requires AllBytes(text)
    ensures Chars(Bytes(text) + if terminated then [0] else []) == text + if terminated then ['\0'] else []
  {
  }

  /** A document saved in any encoding and loaded again: the walk over its links, the buffered writer, the transcoders
      and the parser in place together give the normalised document, and the document itself exactly when it is clean. */
  method SaveThenLoad(d: Doc, enc: C.Encoding, littleEndian: bool, bom: bool, inPlace: bool) returns (buf: array<char>, r: ParsedAt)
    requires d.Valid() && OneDocument(d) && d.kind[0] == NodeKind.Document && SeamlessDoc(enc, d)
    requires Sound(enc, PrintAll(NodesAt(d, 0))) && AllBytes(PrintAll(NodesAt(d, 0)))
    ensures var doc := NodesAt(d, 0);
            && (Printable(doc, true) ==>
                  ViewParsed(buf[..], r) == if HasElement(doc) then Ok(Normal(WithoutText(doc))) else Fail(NoDocumentElement))
            && (ViewParsed(buf[..], r) == Ok(doc) <==> IsDocument(doc) && Printable(doc, true) && Clean(doc))
    ensures r.OkAt? ==> Settled(buf[..], buf.Length, r.kids)
  {
    hide *;
    Bounds(d);
    ghost var doc := NodesAt(d, 0);
    ghost var text := PrintAll(Saved(doc, enc, bom));
    SavedSound(doc, enc, bom);
    SoundBack(enc, text);
    var sink := Save(d, enc, littleEndian, bom);
    var terminated;
    buf, r, terminated := Load(sink, enc, littleEndian, inPlace);
    CharsText(text, terminated);
    BufferIs(doc, enc, bom, terminated);
    SaveLoad(doc, enc, bom, terminated);
  }

  lemma BufferIs(doc: seq<Tree>, enc: C.Encoding, bom: bool, copied: bool)
    ensures Buffer(doc, enc, bom, copied) == PrintAll(Saved(doc, enc, bom)) + if copied then ['\0'] else []
  {
  }
}
