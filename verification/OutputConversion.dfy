/** Output in the caller's encoding: what it should be, and the conversion of one chunk of UTF-8. */
module OutputConversion {
  import opened Utf

  datatype Encoding = Utf8 | Utf16LE | Utf16BE | Utf32LE | Utf32BE | Latin1

  // ----- byte order

  function Word2(w: int, little: bool): seq<Byte>
    requires 0 <= w < 0x1_0000
  {
    if little then [w % 256, w / 256] else [w / 256, w % 256]
  }

  function Dword4(d: int, little: bool): seq<Byte>
    requires 0 <= d < 0x1_0000_0000
  {
    if little then [d % 256, d / 256 % 256, d / 65536 % 256, d / 16777216]
    else [d / 16777216, d / 65536 % 256, d / 256 % 256, d % 256]
  }

  lemma Swap16Turns(w: Word, little: bool)
    ensures Word2(Swap16(w), little) == Word2(w, !little)
  {
    var low, high: int := w % 256, w / 256;
    assert Swap16(w) / 256 == low && Swap16(w) % 256 == high;
  }

  lemma Peel(high: int, low: int)
    requires 0 <= low < 256
    ensures (high * 256 + low) / 256 == high && (high * 256 + low) % 256 == low
  {
  }

  /** The four bytes of a double word are those Dword4 lays out. */
  lemma FourBytes(a: int, b: int, c: int, d: int)
    requires 0 <= a < 256 && 0 <= b < 256 && 0 <= c < 256 && 0 <= d < 256
    ensures Dword4(a * 16777216 + b * 65536 + c * 256 + d, false) == [a, b, c, d]
    ensures Dword4(a * 16777216 + b * 65536 + c * 256 + d, true) == [d, c, b, a]
  {
    var n := a * 16777216 + b * 65536 + c * 256 + d;
    assert n == (a * 65536 + b * 256 + c) * 256 + d;
    Peel(a * 65536 + b * 256 + c, d);
    assert n / 65536 == a * 256 + b;
    Peel(a * 256 + b, c);
    Peel(a, b);
    assert n / 16777216 == a;
  }

  lemma FourParts(n: int) returns (a: int, b: int, c: int, d: int)
    requires 0 <= n < 0x1_0000_0000
    ensures 0 <= a < 256 && 0 <= b < 256 && 0 <= c < 256 && 0 <= d < 256
    ensures a == n / 16777216 && b == n / 65536 % 256 && c == n / 256 % 256 && d == n % 256
    ensures n == a * 16777216 + b * 65536 + c * 256 + d
  {
    a, b, c, d := n / 16777216, n / 65536 % 256, n / 256 % 256, n % 256;
    assert n / 65536 == a * 256 + b;
    assert n / 256 == (n / 65536) * 256 + c;
  }

  lemma Swap32Turns(n: Dword, little: bool)
    ensures Dword4(Swap32(n), little) == Dword4(n, !little)
  {
    hide Dword4;
    var a, b, c, d := FourParts(n);
    FourBytes(a, b, c, d);
    FourBytes(d, c, b, a);
  }

  function Bytes16(ws: seq<Word>, little: bool): seq<Byte> {
    if ws == [] then [] else Word2(ws[0], little) + Bytes16(ws[1..], little)
  }

  function Bytes32(ds: seq<Dword>, little: bool): seq<Byte> {
    if ds == [] then [] else Dword4(ds[0], little) + Bytes32(ds[1..], little)
  }

  // ----- what the output should be

  /** The text s, given in UTF-8, in the encoding enc. */
  function Converted(enc: Encoding, s: seq<Byte>): seq<Byte> {
    match enc
    case Utf8 => s
    case Utf16LE => Bytes16(Write16(Decode8(s)), true)
    case Utf16BE => Bytes16(Write16(Decode8(s)), false)
    case Utf32LE => Bytes32(Write32(Decode8(s)), true)
    case Utf32BE => Bytes32(Write32(Decode8(s)), false)
    case Latin1 => WriteLatin1(Decode8(s))
  }

  // ----- conversion distributes over clean cuts

  /** Three continuation bytes end a: none of them, nor anything after them, belongs to an open sequence. */
  predicate Closed(a: seq<Byte>) {
    |a| >= 3 && IsCont(a[|a| - 1]) && IsCont(a[|a| - 2]) && IsCont(a[|a| - 3])
  }

  /** Cutting between a and b splits no code point. */
  predicate Clean(a: seq<Byte>, b: seq<Byte>) {
    a == [] || b == [] || !IsCont(b[0]) || Closed(a)
  }

  lemma LexClosed(a: seq<Byte>, b: seq<Byte>)
    requires Closed(a)
    ensures Lex8(a + b) == Lex8(a)
    ensures var n := Lex8(a).n; Closed(a[n..]) || (forall i :: n <= i < |a| ==> IsCont(a[i]))
  {
    assert forall i :: 0 <= i < |a| ==> (a + b)[i] == a[i];
    if |a| == 3 {
    } else {
      var n := Lex8(a).n;
      assert n <= |a| - 3 ==> Closed(a[n..]);
    }
  }

  lemma LexStray(a: seq<Byte>)
    requires a != [] && IsCont(a[0])
    ensures Lex8(a) == Lexed(1, [])
  {
  }

  /** Continuation bytes with no lead stand for nothing. */
  lemma {:induction false} DecodeStray(a: seq<Byte>, b: seq<Byte>)
    requires forall i :: 0 <= i < |a| ==> IsCont(a[i])
    ensures Decode8(a + b) == Decode8(b) && Decode8(a) == []
    decreases |a|
  {
    hide Lex8, IsCont;
    if a == [] {
      assert a + b == b;
      DecodeNothing();
    } else {
      LexStray(a);
      LexStray(a + b);
      assert (a + b)[1..] == a[1..] + b;
      DecodeStray(a[1..], b);
    }
  }

  lemma {:induction false} DecodeClosed(a: seq<Byte>, b: seq<Byte>)
    requires Closed(a)
    ensures Decode8(a + b) == Decode8(a) + Decode8(b)
    decreases |a|
  {
    hide Lex8;
    LexClosed(a, b);
    var n := Lex8(a).n;
    assert (a + b)[n..] == a[n..] + b;
    if Closed(a[n..]) {
      DecodeClosed(a[n..], b);
    } else {
      DecodeStray(a[n..], b);
    }
  }

  lemma DecodeClean(a: seq<Byte>, b: seq<Byte>)
    requires Clean(a, b)
    ensures Decode8(a + b) == Decode8(a) + Decode8(b)
  {
    if a == [] {
      assert a + b == b;
    } else if Closed(a) {
      DecodeClosed(a, b);
    } else {
      Decode8Split(a, b);
    }
  }

  lemma {:induction false} Write16Join(p: seq<Point>, q: seq<Point>)
    ensures Write16(p + q) == Write16(p) + Write16(q)
    decreases |p|
  {
    hide Put16;
    if p == [] {
      assert p + q == q;
    } else {
      assert (p + q)[1..] == p[1..] + q;
      Write16Join(p[1..], q);
    }
  }

  lemma {:induction false} Write32Join(p: seq<Point>, q: seq<Point>)
    ensures Write32(p + q) == Write32(p) + Write32(q)
    decreases |p|
  {
    hide Put32;
    if p == [] {
      assert p + q == q;
    } else {
      assert (p + q)[1..] == p[1..] + q;
      Write32Join(p[1..], q);
    }
  }

  lemma {:induction false} WriteLatin1Join(p: seq<Point>, q: seq<Point>)
    ensures WriteLatin1(p + q) == WriteLatin1(p) + WriteLatin1(q)
    decreases |p|
  {
    hide PutLatin1;
    if p == [] {
      assert p + q == q;
    } else {
      assert (p + q)[1..] == p[1..] + q;
      WriteLatin1Join(p[1..], q);
    }
  }

  lemma WritesJoin(p: seq<Point>, q: seq<Point>)
    ensures Write16(p + q) == Write16(p) + Write16(q)
    ensures Write32(p + q) == Write32(p) + Write32(q)
    ensures WriteLatin1(p + q) == WriteLatin1(p) + WriteLatin1(q)
  {
    hide Write16, Write32, WriteLatin1;
    Write16Join(p, q);
    Write32Join(p, q);
    WriteLatin1Join(p, q);
  }

  lemma {:induction false} Bytes16Join(p: seq<Word>, q: seq<Word>, little: bool)
    ensures Bytes16(p + q, little) == Bytes16(p, little) + Bytes16(q, little)
    decreases |p|
  {
    hide Word2;
    if p == [] {
      assert p + q == q;
    } else {
      assert (p + q)[1..] == p[1..] + q;
      Bytes16Join(p[1..], q, little);
    }
  }

  lemma {:induction false} Bytes32Join(p: seq<Dword>, q: seq<Dword>, little: bool)
    ensures Bytes32(p + q, little) == Bytes32(p, little) + Bytes32(q, little)
    decreases |p|
  {
    hide Dword4;
    if p == [] {
      assert p + q == q;
    } else {
      assert (p + q)[1..] == p[1..] + q;
      Bytes32Join(p[1..], q, little);
    }
  }

  /** A cut the writer may make: anywhere in the native encoding, elsewhere only between code points. */
  predicate Cuts(enc: Encoding, a: seq<Byte>, b: seq<Byte>) {
    enc.Utf8? || Clean(a, b)
  }

  /** Converting the two sides of a cut separately is converting the whole. */
  lemma ConvertedJoin(enc: Encoding, a: seq<Byte>, b: seq<Byte>)
    requires Cuts(enc, a, b)
    ensures Converted(enc, a + b) == Converted(enc, a) + Converted(enc, b)
  {
    hide Clean, Decode8, Write16, Write32, WriteLatin1, Bytes16, Bytes32;
    if !enc.Utf8? {
      DecodeClean(a, b);
      var p, q := Decode8(a), Decode8(b);
      WritesJoin(p, q);
      Bytes16Join(Write16(p), Write16(q), enc.Utf16LE?);
      Bytes32Join(Write32(p), Write32(q), enc.Utf32LE?);
    }
  }

  // ----- exactly which cuts are safe

  /** Some code point of a + b begins in a and ends in b. */
  predicate Straddles(a: seq<Byte>, b: seq<Byte>)
    decreases |a|
  {
    a != [] && (var n := Lex8(a + b).n; if n > |a| then true else Straddles(a[n..], b))
  }

  lemma DecodeUnfold(s: seq<Byte>)
    requires s != []
    ensures Decode8(s) == Lex8(s).points + Decode8(s[Lex8(s).n..])
  {
    hide Lex8;
  }

  /** A sequence that ends inside a reads the same without b. */
  lemma LexInside(a: seq<Byte>, b: seq<Byte>)
    requires a != [] && Lex8(a + b).n <= |a|
    ensures Lex8(a + b) == Lex8(a)
  {
    assert forall i :: 0 <= i < |a| ==> (a + b)[i] == a[i];
  }

  /** A sequence that ends inside b: neither half stands for anything. */
  lemma LexAcross(a: seq<Byte>, b: seq<Byte>)
    requires a != [] && Lex8(a + b).n > |a|
    ensures |Lex8(a + b).points| == 1 && Lex8(a) == Lexed(1, [])
    ensures forall i :: 1 <= i < Lex8(a + b).n ==> IsCont((a + b)[i])
  {
    assert forall i :: 0 <= i < |a| ==> (a + b)[i] == a[i];
  }

  lemma {:induction false} CutInside(a: seq<Byte>, b: seq<Byte>) returns (p: Point)
    requires Straddles(a, b)
    ensures Decode8(a + b) == Decode8(a) + [p] + Decode8(b)
    decreases |a|
  {
    hide Lex8, Decode8;
    var n := Lex8(a + b).n;
    DecodeUnfold(a + b);
    DecodeUnfold(a);
    if n > |a| {
      LexAcross(a, b);
      p := Lex8(a + b).points[0];
      var k := n - |a|;
      assert forall i :: 0 <= i < |a| - 1 ==> a[1..][i] == (a + b)[i + 1];
      assert forall i :: 0 <= i < k ==> b[..k][i] == (a + b)[|a| + i];
      DecodeStray(a[1..], []);
      DecodeStray(b[..k], b[k..]);
      assert b[..k] + b[k..] == b && (a + b)[n..] == b[k..];
      assert [] + [p] + Decode8(b[k..]) == [p] + Decode8(b[k..]) && Decode8(a) == [];
    } else {
      LexInside(a, b);
      p := CutInside(a[n..], b);
      assert (a + b)[n..] == a[n..] + b;
      var q := Lex8(a).points;
      assert q + (Decode8(a[n..]) + [p] + Decode8(b)) == (q + Decode8(a[n..])) + [p] + Decode8(b);
    }
  }

  lemma {:induction false} CutBetween(a: seq<Byte>, b: seq<Byte>)
    requires !Straddles(a, b)
    ensures Decode8(a + b) == Decode8(a) + Decode8(b)
    decreases |a|
  {
    hide Lex8, Decode8;
    if a == [] {
      assert a + b == b;
      DecodeNothing();
    } else {
      DecodeUnfold(a + b);
      DecodeUnfold(a);
      LexInside(a, b);
      var n := Lex8(a).n;
      CutBetween(a[n..], b);
      assert (a + b)[n..] == a[n..] + b;
    }
  }

  /** Converting the two sides of a cut apart is right exactly when no code point straddles it. */
  lemma SplitIff(enc: Encoding, a: seq<Byte>, b: seq<Byte>)
    requires !enc.Utf8?
    ensures Converted(enc, a + b) == Converted(enc, a) + Converted(enc, b) <==> !Straddles(a, b)
  {
    hide Decode8, Write16, Write32, WriteLatin1, Bytes16, Bytes32, Lex8, Straddles;
    var p, q := Decode8(a), Decode8(b);
    if Straddles(a, b) {
      var point := CutInside(a, b);
      WritesJoin(p + [point], q);
      WritesJoin(p, [point]);
      OnePoint(point);
      Sizes(p + [point] + q);
      Sizes(p);
      Sizes(q);
    } else {
      CutBetween(a, b);
      WritesJoin(p, q);
      Bytes16Join(Write16(p), Write16(q), enc.Utf16LE?);
      Bytes32Join(Write32(p), Write32(q), enc.Utf32LE?);
    }
  }

  /** A lead byte at the end of a and a continuation byte at the start of b. */
  lemma {:induction false} LeadStraddles(before: seq<Byte>, lead: Byte, b: seq<Byte>)
    requires 0xC0 <= lead < 0xE0 && b != [] && IsCont(b[0])
    ensures Straddles(before + [lead], b)
    decreases |before|
  {
    hide Lex8;
    var a := before + [lead];
    if before == [] {
      assert a == [lead];
      LeadReads(lead, b);
    } else {
      assert a + b == before + ([lead] + b);
      Lex8Split(before, [lead] + b);
      var n := Lex8(before).n;
      assert a[n..] == before[n..] + [lead];
      LeadStraddles(before[n..], lead, b);
    }
  }

  lemma LeadReads(lead: Byte, b: seq<Byte>)
    requires 0xC0 <= lead < 0xE0 && b != [] && IsCont(b[0])
    ensures Lex8([lead] + b).n == 2
  {
  }

  lemma OnePoint(p: Point)
    ensures |Write16([p])| >= 1 && |Write32([p])| == |WriteLatin1([p])| == 1
  {
    assert [p][1..] == [];
  }

  /** How many bytes the code points take in an encoding. */
  lemma Sizes(ps: seq<Point>)
    ensures |Bytes16(Write16(ps), true)| == |Bytes16(Write16(ps), false)| == 2 * |Write16(ps)|
    ensures |Bytes32(Write32(ps), true)| == |Bytes32(Write32(ps), false)| == 4 * |Write32(ps)|
  {
    hide Write16, Write32, Bytes16, Bytes32;
    BytesSizes(Write16(ps), Write32(ps), true);
    BytesSizes(Write16(ps), Write32(ps), false);
  }

  // ----- the scratch buffer is large enough

  lemma {:induction false} DecodedSizes(s: seq<Byte>)
    ensures |Write16(Decode8(s))| <= 2 * |s| && |Write32(Decode8(s))| <= |s| && |WriteLatin1(Decode8(s))| <= |s|
    decreases |s|
  {
    if s != [] {
      LexSizes(s);
      hide Lex8;
      var lex := Lex8(s);
      DecodedSizes(s[lex.n..]);
      WritesJoin(lex.points, Decode8(s[lex.n..]));
    }
  }

  lemma LexSizes(s: seq<Byte>)
    requires s != []
    ensures var lex := Lex8(s);
            |Write16(lex.points)| <= 2 * lex.n && |Write32(lex.points)| <= lex.n && |WriteLatin1(lex.points)| <= lex.n
  {
    var ps := Lex8(s).points;
    if ps == [] {
    } else {
      assert ps == [ps[0]];
      assert Write16(ps[1..]) == [] && Write32(ps[1..]) == [] && WriteLatin1(ps[1..]) == [];
      assert ps[0].High? ==> Lex8(s).n == 4;
    }
  }

  lemma {:induction false} BytesSizes(ws: seq<Word>, ds: seq<Dword>, little: bool)
    ensures |Bytes16(ws, little)| == 2 * |ws|
    ensures |Bytes32(ds, little)| == 4 * |ds|
    decreases |ws| + |ds|
  {
    if ws != [] {
      BytesSizes(ws[1..], ds, little);
    } else if ds != [] {
      BytesSizes(ws, ds[1..], little);
    }
  }

  /** No conversion expands a byte to more than four. */
  lemma ScratchFits(enc: Encoding, s: seq<Byte>)
    ensures |Converted(enc, s)| <= 4 * |s|
  {
    hide Decode8, Write16, Write32, WriteLatin1, Bytes16, Bytes32;
    DecodedSizes(s);
    BytesSizes(Write16(Decode8(s)), Write32(Decode8(s)), true);
    BytesSizes(Write16(Decode8(s)), Write32(Decode8(s)), false);
  }

  // ----- finding a cut

  /** How much of data can go out now: up to the last code point's start, or all of it if no start is near. */
  function ValidLength(data: seq<Byte>): (n: nat)
    ensures n <= |data| && (|data| < 5 ==> n == 0) && (|data| >= 5 ==> |data| - 4 <= n)
    ensures 0 < n < |data| ==> !IsCont(data[n])
    ensures 0 < n == |data| ==> Closed(data)
  {
    if |data| < 5 then 0 else LastStart(data, 1)
  }

  function LastStart(data: seq<Byte>, i: nat): (n: nat)
    requires |data| >= 5 && 1 <= i <= 5 && forall j :: |data| - i < j < |data| ==> IsCont(data[j])
    ensures |data| - 4 <= n <= |data| && (n < |data| ==> !IsCont(data[n])) && (n == |data| ==> Closed(data))
    decreases 5 - i
  {
    if i == 5 then |data|
    else if !IsCont(data[|data| - i]) then |data| - i
    else LastStart(data, i + 1)
  }

  method GetValidLength(data: seq<Byte>) returns (n: nat)
    ensures n == ValidLength(data)
  {
    if |data| < 5 {
      return 0;
    }
    var i := 1;
    while i <= 4
      invariant 1 <= i <= 5
      invariant forall j :: |data| - i < j < |data| ==> IsCont(data[j])
      invariant ValidLength(data) == LastStart(data, i)
    {
      if !IsCont(data[|data| - i]) {
        return |data| - i;
      }
      i := i + 1;
    }
    return |data|;
  }

  // ----- conversion of one chunk

  method Swapped16(ws: seq<Word>) returns (r: seq<Word>)
    ensures forall little :: Bytes16(r, little) == Bytes16(ws, !little)
  {
    r := [];
    var i := 0;
    while i < |ws|
      invariant 0 <= i <= |ws|
      invariant forall little :: Bytes16(r, little) == Bytes16(ws[..i], !little)
    {
      forall little ensures Bytes16(r + [Swap16(ws[i])], little) == Bytes16(ws[..i + 1], !little) {
        SwapOne16(r, ws, i, little);
      }
      r := r + [Swap16(ws[i])];
      i := i + 1;
    }
    assert ws[..i] == ws;
  }

  lemma SwapOne16(r: seq<Word>, ws: seq<Word>, i: nat, little: bool)
    requires i < |ws| && Bytes16(r, little) == Bytes16(ws[..i], !little)
    ensures Bytes16(r + [Swap16(ws[i])], little) == Bytes16(ws[..i + 1], !little)
  {
    Bytes16Join(r, [Swap16(ws[i])], little);
    Bytes16Join(ws[..i], [ws[i]], !little);
    assert ws[..i + 1] == ws[..i] + [ws[i]];
    Single16(ws[i], !little);
    Single16(Swap16(ws[i]), little);
    Swap16Turns(ws[i], little);
  }

  lemma Single16(w: Word, little: bool)
    ensures Bytes16([w], little) == Word2(w, little)
  {
    assert [w][1..] == [];
  }

  method Swapped32(ds: seq<Dword>) returns (r: seq<Dword>)
    ensures forall little :: Bytes32(r, little) == Bytes32(ds, !little)
  {
    r := [];
    var i := 0;
    while i < |ds|
      invariant 0 <= i <= |ds|
      invariant forall little :: Bytes32(r, little) == Bytes32(ds[..i], !little)
    {
      forall little ensures Bytes32(r + [Swap32(ds[i])], little) == Bytes32(ds[..i + 1], !little) {
        SwapOne32(r, ds, i, little);
      }
      r := r + [Swap32(ds[i])];
      i := i + 1;
    }
    assert ds[..i] == ds;
  }

  lemma SwapOne32(r: seq<Dword>, ds: seq<Dword>, i: nat, little: bool)
    requires i < |ds| && Bytes32(r, little) == Bytes32(ds[..i], !little)
    ensures Bytes32(r + [Swap32(ds[i])], little) == Bytes32(ds[..i + 1], !little)
  {
    hide Swap32, Dword4, Bytes32;
    Bytes32Join(r, [Swap32(ds[i])], little);
    Bytes32Join(ds[..i], [ds[i]], !little);
    assert ds[..i + 1] == ds[..i] + [ds[i]];
    Single32(ds[i], !little);
    Single32(Swap32(ds[i]), little);
    Swap32Turns(ds[i], little);
  }

  lemma Single32(d: Dword, little: bool)
    ensures Bytes32([d], little) == Dword4(d, little)
  {
    assert [d][1..] == [];
  }

  /** Decode the chunk, write it in the machine's own byte order, swap if the target's differs. */
  method ConvertBufferOutput(enc: Encoding, data: seq<Byte>, address: nat, littleEndian: bool) returns (out: seq<Byte>)
    requires !enc.Utf8?
    ensures out == Converted(enc, data) && |out| <= 4 * |data|
  {
    hide Decode8, Write16, Write32, WriteLatin1, Bytes16, Bytes32;
    ScratchFits(enc, data);
    var points := DecodeBlock8(data, address);
    if enc.Utf16LE? || enc.Utf16BE? {
      var words := Write16(points);
      if littleEndian != enc.Utf16LE? {
        words := Swapped16(words);
      }
      out := Bytes16(words, littleEndian);
    } else if enc.Utf32LE? || enc.Utf32BE? {
      var dwords := Write32(points);
      if littleEndian != enc.Utf32LE? {
        dwords := Swapped32(dwords);
      }
      out := Bytes32(dwords, littleEndian);
    } else {
      out := WriteLatin1(points);
    }
  }

  lemma ConvertedNothing(enc: Encoding)
    ensures Converted(enc, []) == []
  {
    DecodeNothing();
  }

  lemma ConvertedNative(s: seq<Byte>)
    ensures Converted(Utf8, s) == s
  {
  }

  /** Code points in an encoding. */
  function Encoded(enc: Encoding, ps: seq<Point>): seq<Byte> {
    match enc
    case Utf8 => Write8(ps)
    case Utf16LE => Bytes16(Write16(ps), true)
    case Utf16BE => Bytes16(Write16(ps), false)
    case Utf32LE => Bytes32(Write32(ps), true)
    case Utf32BE => Bytes32(Write32(ps), false)
    case Latin1 => WriteLatin1(ps)
  }

  /** Whole UTF-8 text starts at a code point, and comes out as its code points in every encoding. */
  lemma WholeText(enc: Encoding, ps: seq<Point>)
    requires forall i :: 0 <= i < |ps| ==> Scalar(ps[i])
    ensures Write8(ps) == [] || !IsCont(Write8(ps)[0])
    ensures Converted(enc, Write8(ps)) == Encoded(enc, ps)
  {
    hide Decode8, Write16, Write32, WriteLatin1, Bytes16, Bytes32;
    Write8Decodes(ps);
    if ps != [] {
      assert Write8(ps)[0] == Put8(ps[0])[0];
    }
  }
}
