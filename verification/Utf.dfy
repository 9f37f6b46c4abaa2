/** UTF-8, UTF-16, UTF-32 and Latin-1: decoding to code points, the counting pass and the writing pass. */
module Utf {

  type Byte = b: int | 0 <= b < 0x100
  type Word = w: int | 0 <= w < 0x1_0000
  type Dword = d: int | 0 <= d < 0x1_0000_0000

  /** A decoded code point, by the range the decoder took it for. */
  datatype Point = Low(lo: Word) | High(hi: Dword)

  // ----- decoders

  predicate IsCont(b: Byte) {
    0x80 <= b < 0xC0
  }

  /** The next UTF-8 sequence: how many bytes it takes and what it stands for; bad bytes stand for nothing. */
  datatype Lexed = Lexed(n: nat, points: seq<Point>)

  function Join2(a: int, b: int): int { (a - 0xC0) * 64 + (b - 0x80) }

  function Join3(a: int, b: int, c: int): int { (a - 0xE0) * 4096 + (b - 0x80) * 64 + (c - 0x80) }

  function Join4(a: int, b: int, c: int, d: int): int {
    (a - 0xF0) * 262144 + (b - 0x80) * 4096 + (c - 0x80) * 64 + (d - 0x80)
  }

  function JoinPair(hi: int, lo: int): int { 0x10000 + (hi - 0xD800) * 1024 + (lo - 0xDC00) }

  function Lex8(s: seq<Byte>): (r: Lexed)
    requires s != []
    ensures 1 <= r.n <= |s| && r.n <= 4 && |r.points| <= 1
  {
    var lead := s[0];
    if lead < 0x80 then Lexed(1, [Low(lead)])
    else if 0xC0 <= lead < 0xE0 && |s| >= 2 && IsCont(s[1]) then
      Lexed(2, [Low(Join2(lead, s[1]))])
    else if 0xE0 <= lead < 0xF0 && |s| >= 3 && IsCont(s[1]) && IsCont(s[2]) then
      Lexed(3, [Low(Join3(lead, s[1], s[2]))])
    else if 0xF0 <= lead < 0xF8 && |s| >= 4 && IsCont(s[1]) && IsCont(s[2]) && IsCont(s[3]) then
      Lexed(4, [High(Join4(lead, s[1], s[2], s[3]))])
    else Lexed(1, [])
  }

  function Decode8(s: seq<Byte>): seq<Point>
    decreases |s|
  {
    if s == [] then [] else Lex8(s).points + Decode8(s[Lex8(s).n..])
  }

  function Decode16(s: seq<Word>): seq<Point>
    decreases |s|
  {
    if s == [] then []
    else if s[0] < 0xD800 || s[0] >= 0xE000 then [Low(s[0])] + Decode16(s[1..])
    else if s[0] < 0xDC00 && |s| > 1 && 0xDC00 <= s[1] < 0xE000 then
      [High(JoinPair(s[0], s[1]))] + Decode16(s[2..])
    else Decode16(s[1..])
  }

  function DecodeLatin1(s: seq<Byte>): seq<Point> {
    if s == [] then [] else [Low(s[0])] + DecodeLatin1(s[1..])
  }

  function Decode32(s: seq<Dword>): seq<Point> {
    if s == [] then []
    else [if s[0] < 0x10000 then Low(s[0]) else High(s[0])] + Decode32(s[1..])
  }

  // ----- writers

  function Put8(p: Point): seq<Byte> {
    match p
    case Low(ch) =>
      if ch < 0x80 then [ch]
      else if ch < 0x800 then [0xC0 + ch / 64, 0x80 + ch % 64]
      else [0xE0 + ch / 4096, 0x80 + ch / 64 % 64, 0x80 + ch % 64]
    case High(ch) => [0xF0 + ch / 262144 % 16, 0x80 + ch / 4096 % 64, 0x80 + ch / 64 % 64, 0x80 + ch % 64]
  }

  /** ch - 0x10000 in 32-bit arithmetic. */
  function Offset(ch: Dword): Dword {
    if ch >= 0x10000 then ch - 0x10000 else ch - 0x10000 + 0x1_0000_0000
  }

  function Put16(p: Point): seq<Word> {
    match p
    case Low(ch) => [ch]
    case High(ch) => [(0xD800 + Offset(ch) / 1024) % 0x10000, 0xDC00 + Offset(ch) % 1024]
  }

  function Put32(p: Point): seq<Dword> {
    [if p.Low? then p.lo else p.hi]
  }

  function PutLatin1(p: Point): seq<Byte> {
    [if p.Low? && p.lo <= 255 then p.lo else 0x3F]
  }

  function Write8(ps: seq<Point>): seq<Byte> {
    if ps == [] then [] else Put8(ps[0]) + Write8(ps[1..])
  }

  function Write16(ps: seq<Point>): seq<Word> {
    if ps == [] then [] else Put16(ps[0]) + Write16(ps[1..])
  }

  function Write32(ps: seq<Point>): seq<Dword> {
    if ps == [] then [] else Put32(ps[0]) + Write32(ps[1..])
  }

  function WriteLatin1(ps: seq<Point>): seq<Byte> {
    if ps == [] then [] else PutLatin1(ps[0]) + WriteLatin1(ps[1..])
  }

  // ----- counters

  function Size8(p: Point): nat {
    match p
    case Low(ch) => if ch < 0x80 then 1 else if ch < 0x800 then 2 else 3
    case High(_) => 4
  }

  function Size16(p: Point): nat {
    if p.Low? then 1 else 2
  }

  function Count(ps: seq<Point>, size: Point -> nat): nat {
    if ps == [] then 0 else size(ps[0]) + Count(ps[1..], size)
  }

  /** The counting pass and the writing pass agree, whatever was decoded. */
  lemma {:induction false} PassesAgree(ps: seq<Point>)
    ensures Count(ps, Size8) == |Write8(ps)|
    ensures Count(ps, Size16) == |Write16(ps)|
    ensures Count(ps, (_: Point) => 1) == |Write32(ps)|
  {
    if ps != [] {
      PassesAgree(ps[1..]);
      assert |Put8(ps[0])| == Size8(ps[0]) && |Put16(ps[0])| == Size16(ps[0]);
    }
  }

  method CountPass(ps: seq<Point>) returns (length: nat)
    ensures length == |Write8(ps)|
  {
    length := 0;
    var i := 0;
    while i < |ps|
      invariant 0 <= i <= |ps| && length + Count(ps[i..], Size8) == Count(ps, Size8)
    {
      assert ps[i..][1..] == ps[i + 1..];
      length := length + Size8(ps[i]);
      i := i + 1;
    }
    assert ps[i..] == [];
    PassesAgree(ps);
  }

  method Store(buffer: array<Byte>, out: nat, piece: seq<Byte>)
    requires out + |piece| <= buffer.Length
    modifies buffer
    ensures buffer[..out + |piece|] == old(buffer[..out]) + piece
    ensures forall k :: out + |piece| <= k < buffer.Length ==> buffer[k] == old(buffer[k])
  {
    var k := 0;
    while k < |piece|
      invariant 0 <= k <= |piece|
      invariant buffer[..out + k] == old(buffer[..out]) + piece[..k]
      invariant forall j :: out + |piece| <= j < buffer.Length ==> buffer[j] == old(buffer[j])
    {
      buffer[out + k] := piece[k];
      assert buffer[..out + k + 1] == buffer[..out + k] + [piece[k]];
      k := k + 1;
    }
  }

  /** The writing pass: exactly the counted part of the buffer is filled. */
  method WritePass(buffer: array<Byte>, from: nat, ps: seq<Point>)
    requires from + |Write8(ps)| <= buffer.Length
    modifies buffer
    ensures buffer[..from + |Write8(ps)|] == old(buffer[..from]) + Write8(ps)
    ensures forall k :: from + |Write8(ps)| <= k < buffer.Length ==> buffer[k] == old(buffer[k])
  {
    hide Put8;
    ghost var length := from + |Write8(ps)|;
    var out, i := from, 0;
    assert ps[0..] == ps;
    while i < |ps|
      invariant 0 <= i <= |ps| && from <= out && out + |Write8(ps[i..])| == length
      invariant buffer[..out] + Write8(ps[i..]) == old(buffer[..from]) + Write8(ps)
      invariant forall k :: length <= k < buffer.Length ==> buffer[k] == old(buffer[k])
    {
      assert ps[i..][1..] == ps[i + 1..];
      ghost var before, rest := buffer[..out], Write8(ps[i + 1..]);
      Store(buffer, out, Put8(ps[i]));
      assert before + (Put8(ps[i]) + rest) == (before + Put8(ps[i])) + rest;
      out := out + |Put8(ps[i])|;
      i := i + 1;
    }
    assert ps[i..] == [];
  }

  /** Converting a buffer to UTF-8: count, allocate exactly that much, write, terminate. */
  method ConvertPoints(ps: seq<Point>) returns (buffer: array<Byte>, length: nat)
    ensures fresh(buffer) && buffer.Length == length + 1
    ensures buffer[..length] == Write8(ps) && buffer[length] == 0
  {
    hide Write8;
    length := CountPass(ps);
    buffer := new Byte[length + 1](_ => 0);
    WritePass(buffer, 0, ps);
    assert buffer[..0] + Write8(ps) == Write8(ps);
  }

  // ----- reading a buffer of either byte order

  function Swap16(w: Word): Word {
    w % 256 * 256 + w / 256
  }

  function Swap32(d: Dword): Dword {
    d % 256 * 16777216 + d / 256 % 256 * 65536 + d / 65536 % 256 * 256 + d / 16777216
  }

  /** The words of a buffer, in the machine's order. */
  function Read16(data: seq<Word>, swap: bool): (r: seq<Word>)
    ensures |r| == |data|
  {
    seq(|data|, i requires 0 <= i < |data| => if swap then Swap16(data[i]) else data[i])
  }

  function Read32(data: seq<Dword>, swap: bool): (r: seq<Dword>)
    ensures |r| == |data|
  {
    seq(|data|, i requires 0 <= i < |data| => if swap then Swap32(data[i]) else data[i])
  }

  lemma DecodeHead16(s: seq<Word>, pos: nat)
    requires pos < |s|
    ensures var lead := s[pos];
            && ((lead < 0xD800 || lead >= 0xE000) ==> Decode16(s[pos..]) == [Low(lead)] + Decode16(s[pos + 1..]))
            && (0xD800 <= lead < 0xDC00 && pos + 1 < |s| && 0xDC00 <= s[pos + 1] < 0xE000 ==>
                  Decode16(s[pos..]) == [High(JoinPair(lead, s[pos + 1]))] + Decode16(s[pos + 2..]))
            && (0xD800 <= lead < 0xE000 && !(lead < 0xDC00 && pos + 1 < |s| && 0xDC00 <= s[pos + 1] < 0xE000) ==>
                  Decode16(s[pos..]) == Decode16(s[pos + 1..]))
  {
    var t := s[pos..];
    assert t[1..] == s[pos + 1..] && (|t| > 1 ==> t[1] == s[pos + 1] && t[2..] == s[pos + 2..]);
  }

  method DecodeWords(data: seq<Word>, swap: bool) returns (out: seq<Point>)
    ensures out == Decode16(Read16(data, swap))
  {
    hide Decode16, Swap16;
    ghost var s := Read16(data, swap);
    out := [];
    var pos := 0;
    assert s[0..] == s;
    while pos < |data|
      invariant 0 <= pos <= |data| && out + Decode16(s[pos..]) == Decode16(s)
      decreases |data| - pos
    {
      DecodeHead16(s, pos);
      var lead := if swap then Swap16(data[pos]) else data[pos];
      if lead < 0xD800 || lead >= 0xE000 {
        assert out + ([Low(lead)] + Decode16(s[pos + 1..])) == (out + [Low(lead)]) + Decode16(s[pos + 1..]);
        out, pos := out + [Low(lead)], pos + 1;
      } else if lead < 0xDC00 && pos + 1 < |data| {
        var next := if swap then Swap16(data[pos + 1]) else data[pos + 1];
        if 0xDC00 <= next < 0xE000 {
          var p := High(JoinPair(lead, next));
          assert out + ([p] + Decode16(s[pos + 2..])) == (out + [p]) + Decode16(s[pos + 2..]);
          out, pos := out + [p], pos + 2;
        } else {
          pos := pos + 1;
        }
      } else {
        pos := pos + 1;
      }
    }
    assert s[pos..] == [] && Decode16([]) == [] by {
      DecodeNothing16();
    }
  }

  lemma DecodeNothing16()
    ensures Decode16([]) == [] && Decode32([]) == []
  {
  }

  lemma DecodeHead32(s: seq<Dword>, pos: nat)
    requires pos < |s|
    ensures Decode32(s[pos..]) == [if s[pos] < 0x10000 then Low(s[pos]) else High(s[pos])] + Decode32(s[pos + 1..])
  {
    assert s[pos..][1..] == s[pos + 1..];
  }

  method DecodeDwords(data: seq<Dword>, swap: bool) returns (out: seq<Point>)
    ensures out == Decode32(Read32(data, swap))
  {
    hide Decode32, Swap32;
    ghost var s := Read32(data, swap);
    out := [];
    var pos := 0;
    assert s[0..] == s;
    while pos < |data|
      invariant 0 <= pos <= |data| && out + Decode32(s[pos..]) == Decode32(s)
    {
      DecodeHead32(s, pos);
      var lead := if swap then Swap32(data[pos]) else data[pos];
      var p := if lead < 0x10000 then Low(lead) else High(lead);
      assert out + ([p] + Decode32(s[pos + 1..])) == (out + [p]) + Decode32(s[pos + 1..]);
      out, pos := out + [p], pos + 1;
    }
    assert s[pos..] == [];
    DecodeNothing16();
  }

  /** A UTF-16 buffer of either byte order becomes its UTF-8 text, in exactly the memory counted, terminated. */
  method ConvertUtf16(data: seq<Word>, swap: bool) returns (buffer: array<Byte>, length: nat)
    ensures fresh(buffer) && buffer.Length == length + 1
    ensures buffer[..length] == Write8(Decode16(Read16(data, swap))) && buffer[length] == 0
  {
    hide Write8, Decode16, Read16;
    var points := DecodeWords(data, swap);
    buffer, length := ConvertPoints(points);
  }

  /** The same for UTF-32. */
  method ConvertUtf32(data: seq<Dword>, swap: bool) returns (buffer: array<Byte>, length: nat)
    ensures fresh(buffer) && buffer.Length == length + 1
    ensures buffer[..length] == Write8(Decode32(Read32(data, swap))) && buffer[length] == 0
  {
    hide Write8, Decode32, Read32;
    var points := DecodeDwords(data, swap);
    buffer, length := ConvertPoints(points);
  }

  // ----- round trip

  /** No unpaired surrogates. */
  predicate WellFormed16(s: seq<Word>)
    decreases |s|
  {
    if s == [] then true
    else if s[0] < 0xD800 || s[0] >= 0xE000 then WellFormed16(s[1..])
    else s[0] < 0xDC00 && |s| > 1 && 0xDC00 <= s[1] < 0xE000 && WellFormed16(s[2..])
  }

  /** A code point the UTF-16 decoder can produce. */
  predicate Scalar(p: Point) {
    match p
    case Low(ch) => ch < 0xD800 || ch >= 0xE000
    case High(ch) => 0x10000 <= ch < 0x110000
  }

  lemma {:induction false} Decoded16(s: seq<Word>)
    ensures forall i :: 0 <= i < |Decode16(s)| ==> Scalar(Decode16(s)[i])
    decreases |s|
  {
    if s != [] {
      Decoded16(s[1..]);
      if |s| > 1 {
        Decoded16(s[2..]);
      }
    }
  }

  lemma WriteOne16(p: Point, ps: seq<Point>)
    ensures Write16([p] + ps) == Put16(p) + Write16(ps)
  {
    assert ([p] + ps)[1..] == ps;
  }

  lemma {:induction false} Write16Decodes(s: seq<Word>)
    requires WellFormed16(s)
    ensures Write16(Decode16(s)) == s
    decreases |s|
  {
    hide Write16, Offset;
    if s == [] {
      WriteNothing16();
    } else if s[0] < 0xD800 || s[0] >= 0xE000 {
      Write16Decodes(s[1..]);
      WriteOne16(Low(s[0]), Decode16(s[1..]));
      assert Put16(Low(s[0])) == [s[0]];
    } else {
      hide Put16;
      Write16Decodes(s[2..]);
      WriteOne16(High(JoinPair(s[0], s[1])), Decode16(s[2..]));
      SurrogateBack(s[0], s[1]);
      assert s == [s[0], s[1]] + s[2..];
    }
  }

  lemma WriteNothing16()
    ensures Write16([]) == []
  {
  }

  lemma SurrogateBack(hi: Word, lo: Word)
    requires 0xD800 <= hi < 0xDC00 <= lo < 0xE000
    ensures Put16(High(JoinPair(hi, lo))) == [hi, lo]
  {
    var x: int := JoinPair(hi, lo) - 0x10000;
    assert x / 1024 == hi - 0xD800 && x % 1024 == lo - 0xDC00;
  }

  lemma Split2(ch: int)
    requires 0x80 <= ch < 0x800
    ensures 2 <= ch / 64 < 0x20 && Join2(0xC0 + ch / 64, 0x80 + ch % 64) == ch
  {
  }

  lemma Split3(ch: int)
    requires 0x800 <= ch < 0x10000
    ensures 0 <= ch / 4096 < 0x10 && Join3(0xE0 + ch / 4096, 0x80 + ch / 64 % 64, 0x80 + ch % 64) == ch
  {
    assert ch / 64 == (ch / 4096) * 64 + ch / 64 % 64;
  }

  lemma Split4(ch: int)
    requires 0x10000 <= ch < 0x110000
    ensures 0 <= ch / 262144 < 8
    ensures Join4(0xF0 + ch / 262144, 0x80 + ch / 4096 % 64, 0x80 + ch / 64 % 64, 0x80 + ch % 64) == ch
  {
    assert ch / 64 == (ch / 4096) * 64 + ch / 64 % 64;
    assert ch / 4096 == (ch / 262144) * 64 + ch / 4096 % 64;
  }

  /** One written code point is read back, whatever follows. */
  lemma Lex8Put(p: Point, rest: seq<Byte>)
    requires Scalar(p)
    ensures Lex8(Put8(p) + rest) == Lexed(|Put8(p)|, [p])
  {
    hide Join2, Join3, Join4;
    var s := Put8(p) + rest;
    assert forall i :: 0 <= i < |Put8(p)| ==> s[i] == Put8(p)[i];
    if p.High? {
      Split4(p.hi);
    } else if p.lo >= 0x800 {
      Split3(p.lo);
    } else if p.lo >= 0x80 {
      Split2(p.lo);
    }
  }

  lemma {:induction false} Write8Decodes(ps: seq<Point>)
    requires forall i :: 0 <= i < |ps| ==> Scalar(ps[i])
    ensures Decode8(Write8(ps)) == ps
  {
    if ps != [] {
      hide Lex8;
      Lex8Put(ps[0], Write8(ps[1..]));
      Write8Decodes(ps[1..]);
      var s := Write8(ps);
      assert s[|Put8(ps[0])|..] == Write8(ps[1..]);
    }
  }

  /** Well-formed UTF-16 survives the conversion to UTF-8 and back. */
  lemma Utf16RoundTrip(s: seq<Word>)
    requires WellFormed16(s)
    ensures Write16(Decode8(Write8(Decode16(s)))) == s
  {
    Decoded16(s);
    Write8Decodes(Decode16(s));
    Write16Decodes(s);
  }

  lemma PutDecodes16(p: Point, rest: seq<Word>)
    requires Scalar(p)
    ensures Decode16(Put16(p) + rest) == [p] + Decode16(rest)
  {
    var s := Put16(p) + rest;
    if p.High? {
      var x: int := p.hi - 0x10000;
      assert 0 <= x / 1024 < 1024 && x == x / 1024 * 1024 + x % 1024;
      assert s[0] == 0xD800 + x / 1024 && s[1] == 0xDC00 + x % 1024 && s[2..] == rest;
      assert JoinPair(s[0], s[1]) == p.hi;
    } else {
      assert s[0] == p.lo && s[1..] == rest;
    }
  }

  /** Scalar code points written as UTF-16 or UTF-32 decode to themselves. */
  lemma {:induction false} WritesDecode(ps: seq<Point>)
    requires forall i :: 0 <= i < |ps| ==> Scalar(ps[i])
    ensures Decode16(Write16(ps)) == ps && Decode32(Write32(ps)) == ps
  {
    hide Decode16, Put16;
    if ps == [] {
      DecodeNothing16();
    } else {
      WritesDecode(ps[1..]);
      PutDecodes16(ps[0], Write16(ps[1..]));
      assert Write32(ps)[1..] == Write32(ps[1..]) && Write32(ps)[0] == Put32(ps[0])[0];
    }
  }

  /** Latin-1 characters come back as long as there are no others. */
  lemma {:induction false} Latin1Decodes(ps: seq<Point>)
    requires forall i :: 0 <= i < |ps| ==> ps[i].Low? && ps[i].lo <= 255
    ensures DecodeLatin1(WriteLatin1(ps)) == ps
  {
    if ps != [] {
      Latin1Decodes(ps[1..]);
      assert WriteLatin1(ps)[1..] == WriteLatin1(ps[1..]) && WriteLatin1(ps)[0] == ps[0].lo;
    }
  }

  // ----- the four-byte ASCII fast path

  lemma {:induction false} AsciiRun(s: seq<Byte>, n: nat)
    requires n <= |s| && forall i :: 0 <= i < n ==> s[i] < 0x80
    ensures Decode8(s) == seq(n, i requires 0 <= i < n => Low(s[i])) + Decode8(s[n..])
    decreases n
  {
    hide Lex8;
    if n > 0 {
      AsciiRun(s[1..], n - 1);
      LexAscii(s);
      assert s[1..][n - 1..] == s[n..];
      AsciiMore(s, n);
    } else {
      assert s[0..] == s;
    }
  }

  lemma LexAscii(s: seq<Byte>)
    requires s != [] && s[0] < 0x80
    ensures Lex8(s) == Lexed(1, [Low(s[0])])
  {
  }

  lemma AsciiMore(s: seq<Byte>, n: nat)
    requires 0 < n <= |s|
    ensures seq(n, i requires 0 <= i < n => Low(s[i])) ==
            [Low(s[0])] + seq(n - 1, i requires 0 <= i < n - 1 => Low(s[1..][i]))
  {
  }

  lemma DecodeStep(data: seq<Byte>, pos: nat, out: seq<Point>, n: nat, points: seq<Point>)
    requires pos + n <= |data| && Decode8(data[pos..]) == points + Decode8(data[pos + n..])
    ensures out + Decode8(data[pos..]) == (out + points) + Decode8(data[pos + n..])
  {
  }

  lemma LexStep(data: seq<Byte>, pos: nat)
    requires pos < |data|
    ensures var lex := Lex8(data[pos..]); Decode8(data[pos..]) == lex.points + Decode8(data[pos + lex.n..])
  {
    var s := data[pos..];
    assert s[Lex8(s).n..] == data[pos + Lex8(s).n..];
  }

  lemma BlockStep(data: seq<Byte>, pos: nat)
    requires pos + 4 <= |data| && data[pos] < 0x80 && data[pos + 1] < 0x80 && data[pos + 2] < 0x80 && data[pos + 3] < 0x80
    ensures Decode8(data[pos..]) ==
            [Low(data[pos]), Low(data[pos + 1]), Low(data[pos + 2]), Low(data[pos + 3])] + Decode8(data[pos + 4..])
  {
    hide Decode8;
    AsciiRun(data[pos..], 4);
    assert [Low(data[pos]), Low(data[pos + 1]), Low(data[pos + 2]), Low(data[pos + 3])] ==
           seq(4, i requires 0 <= i < 4 => Low(data[pos..][i]));
    assert data[pos..][4..] == data[pos + 4..];
  }

  /** The block decoder: whatever address the data starts at, the result is the plain decoding. */
  method DecodeBlock8(data: seq<Byte>, address: nat) returns (out: seq<Point>)
    ensures out == Decode8(data)
  {
    hide Lex8, Decode8;
    out := [];
    var pos := 0;
    assert data[0..] == data;
    while pos < |data|
      invariant 0 <= pos <= |data|
      invariant out + Decode8(data[pos..]) == Decode8(data)
      decreases |data| - pos
    {
      var lex := Lex8(data[pos..]);
      LexStep(data, pos);
      DecodeStep(data, pos, out, lex.n, lex.points);
      out := out + lex.points;
      var ascii := data[pos] < 0x80;
      pos := pos + lex.n;
      // four ASCII bytes at a time
      if ascii && (address + pos) % 4 == 0 {
        while |data| - pos >= 4 && data[pos] < 0x80 && data[pos + 1] < 0x80 && data[pos + 2] < 0x80 && data[pos + 3] < 0x80
          invariant 0 <= pos <= |data|
          invariant out + Decode8(data[pos..]) == Decode8(data)
          decreases |data| - pos
        {
          var block := [Low(data[pos]), Low(data[pos + 1]), Low(data[pos + 2]), Low(data[pos + 3])];
          BlockStep(data, pos);
          DecodeStep(data, pos, out, 4, block);
          out := out + block;
          pos := pos + 4;
        }
      }
    }
    assert data[pos..] == [];
    DecodeNothing();
  }

  lemma DecodeNothing()
    ensures Decode8([]) == []
  {
  }

  // ----- splitting between sequences

  /** A sequence cut off by the end of a reads the same when a byte follows that cannot continue it. */
  lemma Lex8Split(a: seq<Byte>, b: seq<Byte>)
    requires a != [] && (b == [] || !IsCont(b[0]))
    ensures Lex8(a + b) == Lex8(a)
  {
    assert forall i :: 0 <= i < |a| ==> (a + b)[i] == a[i];
    assert b != [] ==> (a + b)[|a|] == b[0];
  }

  /** Decoding distributes over any cut made before a byte that starts a sequence. */
  lemma {:induction false} Decode8Split(a: seq<Byte>, b: seq<Byte>)
    requires b == [] || !IsCont(b[0])
    ensures Decode8(a + b) == Decode8(a) + Decode8(b)
    decreases |a|
  {
    if a == [] {
      assert a + b == b;
    } else {
      hide Lex8;
      Lex8Split(a, b);
      var n := Lex8(a).n;
      assert (a + b)[n..] == a[n..] + b;
      Decode8Split(a[n..], b);
    }
  }
}
