/** Input in any encoding: its bytes in memory, and the UTF-8 text the parser is given. */
module InputConversion {
  import opened Utf
  import opened OutputConversion

  // ----- words in memory

  function WordOf(a: Byte, b: Byte, little: bool): Word {
    if little then a + b * 256 else a * 256 + b
  }

  /** The bytes read as 16-bit words of a byte order; an odd byte at the end is left out. */
  function WordsOf(bytes: seq<Byte>, little: bool): seq<Word>
    decreases |bytes|
  {
    if |bytes| < 2 then [] else [WordOf(bytes[0], bytes[1], little)] + WordsOf(bytes[2..], little)
  }

  function DwordOf(a: Byte, b: Byte, c: Byte, d: Byte, little: bool): Dword {
    if little then d * 16777216 + c * 65536 + b * 256 + a else a * 16777216 + b * 65536 + c * 256 + d
  }

  function DwordsOf(bytes: seq<Byte>, little: bool): seq<Dword>
    decreases |bytes|
  {
    if |bytes| < 4 then []
    else [DwordOf(bytes[0], bytes[1], bytes[2], bytes[3], little)] + DwordsOf(bytes[4..], little)
  }

  lemma {:induction false} WordsBack(ws: seq<Word>, little: bool)
    ensures WordsOf(Bytes16(ws, little), little) == ws
  {
    if ws != [] {
      WordsBack(ws[1..], little);
      var b := Bytes16(ws, little);
      assert b[2..] == Bytes16(ws[1..], little) && b[..2] == Word2(ws[0], little);
      assert b[0] == Word2(ws[0], little)[0] && b[1] == Word2(ws[0], little)[1];
    }
  }

  lemma {:induction false} DwordsBack(ds: seq<Dword>, little: bool)
    ensures DwordsOf(Bytes32(ds, little), little) == ds
  {
    if ds != [] {
      DwordsBack(ds[1..], little);
      var b := Bytes32(ds, little);
      var four := Dword4(ds[0], little);
      assert b == four + Bytes32(ds[1..], little);
      assert b[4..] == Bytes32(ds[1..], little) && b[..4] == four;
      hide Dword4, Bytes32;
      DwordBack(ds[0], little);
    }
  }

  lemma DwordBack(d: Dword, little: bool)
    ensures |Dword4(d, little)| == 4
    ensures var b := Dword4(d, little); DwordOf(b[0], b[1], b[2], b[3], little) == d
  {
    var a, b, c, e := FourParts(d);
  }

  /** Reading in the machine's order and swapping is reading in the file's order. */
  lemma {:induction false} WordsSwap(bytes: seq<Byte>, machine: bool, file: bool)
    ensures Read16(WordsOf(bytes, machine), machine != file) == WordsOf(bytes, file)
    decreases |bytes|
  {
    if |bytes| >= 2 {
      hide Swap16, WordOf;
      WordsSwap(bytes[2..], machine, file);
      WordSwap(bytes[0], bytes[1], machine);
      var ws, swap := WordsOf(bytes, machine), machine != file;
      ReadHead16(ws, swap);
      assert ws[1..] == WordsOf(bytes[2..], machine);
    }
  }

  lemma WordSwap(a: Byte, b: Byte, little: bool)
    ensures Swap16(WordOf(a, b, little)) == WordOf(a, b, !little)
  {
  }

  lemma ReadHead16(ws: seq<Word>, swap: bool)
    requires ws != []
    ensures Read16(ws, swap) == [if swap then Swap16(ws[0]) else ws[0]] + Read16(ws[1..], swap)
  {
    hide Swap16;
  }

  lemma {:induction false} DwordsSwap(bytes: seq<Byte>, machine: bool, file: bool)
    ensures Read32(DwordsOf(bytes, machine), machine != file) == DwordsOf(bytes, file)
    decreases |bytes|
  {
    if |bytes| >= 4 {
      hide Swap32, DwordOf;
      DwordsSwap(bytes[4..], machine, file);
      DwordSwap(bytes[0], bytes[1], bytes[2], bytes[3], machine);
      var ds, swap := DwordsOf(bytes, machine), machine != file;
      ReadHead32(ds, swap);
      assert ds[1..] == DwordsOf(bytes[4..], machine);
    }
  }

  lemma DwordSwap(a: Byte, b: Byte, c: Byte, d: Byte, little: bool)
    ensures Swap32(DwordOf(a, b, c, d, little)) == DwordOf(a, b, c, d, !little)
  {
    FourBytes(a, b, c, d);
    FourBytes(d, c, b, a);
  }

  lemma ReadHead32(ds: seq<Dword>, swap: bool)
    requires ds != []
    ensures Read32(ds, swap) == [if swap then Swap32(ds[0]) else ds[0]] + Read32(ds[1..], swap)
  {
    hide Swap32;
  }

  // ----- the text the parser is given

  /** The bytes, taken to be in enc, as UTF-8. */
  function AsUtf8(enc: Encoding, bytes: seq<Byte>): seq<Byte> {
    match enc
    case Utf8 => bytes
    case Utf16LE => Write8(Decode16(WordsOf(bytes, true)))
    case Utf16BE => Write8(Decode16(WordsOf(bytes, false)))
    case Utf32LE => Write8(Decode32(DwordsOf(bytes, true)))
    case Utf32BE => Write8(Decode32(DwordsOf(bytes, false)))
    case Latin1 => Write8(DecodeLatin1(bytes))
  }

  /** The encoding has a place for the code point. */
  predicate Expressible(enc: Encoding, p: Point) {
    Scalar(p) && (enc.Latin1? ==> p.Low? && p.lo <= 255)
  }

  /** Text written in an encoding that can express it is read back unchanged. */
  lemma ConvertedBack(enc: Encoding, ps: seq<Point>)
    requires forall i :: 0 <= i < |ps| ==> Expressible(enc, ps[i])
    ensures AsUtf8(enc, Converted(enc, Write8(ps))) == Write8(ps)
  {
    hide Write8, Decode8, Write16, Write32, Decode16, Decode32, WriteLatin1, DecodeLatin1, Bytes16, Bytes32, WordsOf, DwordsOf;
    Write8Decodes(ps);
    WritesDecode(ps);
    WordsBack(Write16(ps), enc.Utf16LE?);
    DwordsBack(Write32(ps), enc.Utf32LE?);
    if enc.Latin1? {
      Latin1Decodes(ps);
    }
  }

  /** ASCII is the same in Latin-1 and in UTF-8. */
  lemma {:induction false} AsciiPrefix(bytes: seq<Byte>, n: nat)
    requires n <= |bytes| && forall i :: 0 <= i < n ==> bytes[i] < 0x80
    ensures Write8(DecodeLatin1(bytes)) == bytes[..n] + Write8(DecodeLatin1(bytes[n..]))
    decreases n
  {
    if n == 0 {
      assert bytes[0..] == bytes;
    } else {
      AsciiPrefix(bytes[1..], n - 1);
      var ps := DecodeLatin1(bytes);
      assert ps[1..] == DecodeLatin1(bytes[1..]) && ps[0] == Low(bytes[0]);
      assert bytes[1..][n - 1..] == bytes[n..] && bytes[..n] == [bytes[0]] + bytes[1..][..n - 1];
    }
  }

  method Copied(bytes: seq<Byte>, inPlace: bool) returns (buffer: array<Byte>)
    ensures fresh(buffer) && buffer[..] == bytes + if inPlace then [] else [0]
  {
    buffer := new Byte[|bytes| + if inPlace then 0 else 1](_ => 0);
    Store(buffer, 0, bytes);
    assert buffer[..0] == [];
  }

  /** The prefix that needs no conversion is copied, the rest converted. */
  method ConvertLatin1(bytes: seq<Byte>, inPlace: bool) returns (buffer: array<Byte>, terminated: bool)
    ensures fresh(buffer) && buffer[..] == AsUtf8(Latin1, bytes) + if terminated then [0] else []
    ensures !inPlace ==> terminated
  {
    hide Write8, DecodeLatin1;
    var n := 0;
    while n < |bytes| && bytes[n] < 0x80
      invariant 0 <= n <= |bytes| && forall i :: 0 <= i < n ==> bytes[i] < 0x80
    {
      n := n + 1;
    }
    AsciiPrefix(bytes, n);
    if n == |bytes| {
      NothingWritten();
      assert bytes[n..] == [] && bytes[..n] + [] == bytes;
      buffer := Copied(bytes, inPlace);
      return buffer, !inPlace;
    }
    var points := DecodeLatin1(bytes[n..]);
    var length := CountPass(points);
    buffer := new Byte[n + length + 1](_ => 0);
    Store(buffer, 0, bytes[..n]);
    WritePass(buffer, n, points);
    terminated := true;
    assert buffer[..] == buffer[..n + length] + [buffer[n + length]];
  }

  lemma NothingWritten()
    ensures Write8(DecodeLatin1([])) == []
  {
  }

  /** The buffer handed to the parser: the text in UTF-8, terminated unless the caller's own buffer is used. */
  method ConvertBuffer(bytes: seq<Byte>, enc: Encoding, littleEndian: bool, inPlace: bool) returns (buffer: array<Byte>, terminated: bool)
    ensures fresh(buffer) && buffer[..] == AsUtf8(enc, bytes) + if terminated then [0] else []
    ensures !inPlace ==> terminated
  {
    hide Write8, Decode16, Decode32, DecodeLatin1, WordsOf, DwordsOf, Read16, Read32;
    terminated := true;
    if enc.Utf8? {
      buffer := Copied(bytes, inPlace);
      return buffer, !inPlace;
    } else if enc.Latin1? {
      buffer, terminated := ConvertLatin1(bytes, inPlace);
      return;
    }
    var length;
    if enc.Utf16LE? || enc.Utf16BE? {
      WordsSwap(bytes, littleEndian, enc.Utf16LE?);
      buffer, length := ConvertUtf16(WordsOf(bytes, littleEndian), littleEndian != enc.Utf16LE?);
    } else {
      DwordsSwap(bytes, littleEndian, enc.Utf32LE?);
      buffer, length := ConvertUtf32(DwordsOf(bytes, littleEndian), littleEndian != enc.Utf32LE?);
    }
    assert buffer[..] == buffer[..length] + [buffer[length]];
  }
}
