/** The encodings by their bit layouts: section 3 of RFC 3629 for UTF-8, section 2 of RFC 2781 for UTF-16. */
module UtfLaws {
  import opened Utf
  import opened OutputConversion

  /** The number of a code point. */
  function NumberOf(p: Point): nat {
    match p case Low(lo) => lo case High(hi) => hi
  }

  predicate Layout2(n: int, a: int, b: int) {
    a / 32 == 0x06 && b / 64 == 0x02 && a % 32 * 64 + b % 64 == n
  }

  predicate Layout3(n: int, a: int, b: int, c: int) {
    a / 16 == 0x0E && b / 64 == 0x02 && c / 64 == 0x02 && a % 16 * 4096 + b % 64 * 64 + c % 64 == n
  }

  predicate Layout4(n: int, a: int, b: int, c: int, d: int) {
    && a / 8 == 0x1E && b / 64 == 0x02 && c / 64 == 0x02 && d / 64 == 0x02
    && a % 8 * 262144 + b % 64 * 4096 + c % 64 * 64 + d % 64 == n
  }

  /** A high and a low surrogate, with ten bits each. */
  predicate Surrogates(n: int, a: int, b: int) {
    a / 1024 == 0x36 && b / 1024 == 0x37 && a % 1024 * 1024 + b % 1024 + 0x10000 == n
  }

  predicate Bytes2(n: int, low: int, high: int) {
    n == low + 256 * high
  }

  predicate Bytes4(n: int, a: int, b: int, c: int, d: int) {
    n == a + 256 * b + 65536 * c + 16777216 * d
  }

  /** One to four bytes; the first tells how many by its leading bits, the others lead with 10, and the payload bits in
      order are the number. */
  lemma Utf8Bits(p: Point)
    requires Scalar(p)
    ensures var b, n := Write8([p]), NumberOf(p);
            && (n < 0x80 ==> b == [n])
            && (0x80 <= n < 0x800 ==> |b| == 2 && Layout2(n, b[0], b[1]))
            && (0x800 <= n < 0x10000 ==> |b| == 3 && Layout3(n, b[0], b[1], b[2]))
            && (0x10000 <= n ==> |b| == 4 && Layout4(n, b[0], b[1], b[2], b[3]))
  {
    hide Layout2, Layout3, Layout4;
    assert [p][1..] == [] && Write8([p]) == Put8(p) + Write8([]) == Put8(p);
    match p
    case Low(ch) =>
      if ch >= 0x800 {
        Parts3(ch);
      } else if ch >= 0x80 {
        Parts2(ch);
      }
    case High(ch) => Parts4(ch);
  }

  lemma Parts2(n: nat)
    requires 0x80 <= n < 0x800
    ensures Layout2(n, 0xC0 + n / 64, 0x80 + n % 64)
  {
  }

  lemma Parts3(n: nat)
    requires 0x800 <= n < 0x10000
    ensures Layout3(n, 0xE0 + n / 4096, 0x80 + n / 64 % 64, 0x80 + n % 64)
  {
    assert n / 64 == n / 4096 * 64 + n / 64 % 64;
  }

  lemma Parts4(n: nat)
    requires 0x10000 <= n < 0x110000
    ensures Layout4(n, 0xF0 + n / 262144 % 16, 0x80 + n / 4096 % 64, 0x80 + n / 64 % 64, 0x80 + n % 64)
  {
    assert n / 64 == n / 4096 * 64 + n / 64 % 64;
    assert n / 4096 == n / 262144 * 64 + n / 4096 % 64;
    assert n / 262144 < 8;
  }

  /** One word, or a high and a low surrogate with ten bits each of the number less 2^16; UTF-32 is the number itself; and
      Latin-1 is too, or a question mark. */
  lemma OtherBits(p: Point)
    requires Scalar(p)
    ensures var w, n := Write16([p]), NumberOf(p);
            && (n < 0x10000 ==> w == [n])
            && (0x10000 <= n ==> |w| == 2 && Surrogates(n, w[0], w[1]))
    ensures Write32([p]) == [NumberOf(p)]
    ensures WriteLatin1([p]) == if NumberOf(p) <= 0xFF then [NumberOf(p)] else ['?' as int]
  {
    assert [p][1..] == [];
    assert Write16([p]) == Put16(p) + Write16([]) == Put16(p);
    assert Write32([p]) == Put32(p) + Write32([]) == Put32(p);
    assert WriteLatin1([p]) == PutLatin1(p) + WriteLatin1([]) == PutLatin1(p);
    if p.High? {
      var x: int := p.hi - 0x10000;
      assert 0 <= x / 1024 < 1024 && x == x / 1024 * 1024 + x % 1024;
    }
  }

  /** Least significant byte first, or last. */
  lemma ByteOrder(w: Word, d: Dword, little: bool)
    ensures var b := Bytes16([w], little); |b| == 2 && if little then Bytes2(w, b[0], b[1]) else Bytes2(w, b[1], b[0])
    ensures var b := Bytes32([d], little);
            |b| == 4 && if little then Bytes4(d, b[0], b[1], b[2], b[3]) else Bytes4(d, b[3], b[2], b[1], b[0])
  {
    Single16(w, little);
    Single32(d, little);
    var p, q, r, s := FourParts(d);
  }

  // ----- malformed input

  /** A surrogate without its other half stands for nothing. */
  lemma StraySurrogate(w: Word, rest: seq<Word>)
    requires 0xD800 <= w < 0xE000 && (w >= 0xDC00 || rest == [] || !(0xDC00 <= rest[0] < 0xE000))
    ensures Decode16([w] + rest) == Decode16(rest)
  {
    var s := [w] + rest;
    assert s[1..] == rest && (rest != [] ==> s[1] == rest[0]);
  }

  /** How many continuation bytes a first byte asks for; none for one that cannot be first. */
  function Wanted(b: Byte): nat {
    if 0xC0 <= b < 0xE0 then 1 else if 0xE0 <= b < 0xF0 then 2 else if 0xF0 <= b < 0xF8 then 3 else 0
  }

  /** A byte that cannot be first, or lacks one of its continuation bytes, stands for nothing; reading goes on behind it. */
  lemma StrayByte(b: Byte, rest: seq<Byte>)
    requires b >= 0x80
    requires Wanted(b) == 0 || |rest| < Wanted(b) || exists i :: 0 <= i < Wanted(b) && !(0x80 <= rest[i] < 0xC0)
    ensures Decode8([b] + rest) == Decode8(rest)
  {
    hide Decode8;
    var s := [b] + rest;
    assert s[1..] == rest;
    StrayLexed(b, rest);
    DecodeUnfold(s);
  }

  lemma StrayLexed(b: Byte, rest: seq<Byte>)
    requires b >= 0x80
    requires Wanted(b) == 0 || |rest| < Wanted(b) || exists i :: 0 <= i < Wanted(b) && !(0x80 <= rest[i] < 0xC0)
    ensures Lex8([b] + rest) == Lexed(1, [])
  {
    var s := [b] + rest;
    assert forall i :: 0 <= i < |rest| ==> s[i + 1] == rest[i];
  }
}
